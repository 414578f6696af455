/** What the escaped strings mean: they are read back as section 7 of RFC 8259 says. */
module JsonStrings {
  import opened Wrappers
  import opened CanonicalJson
  import opened PythonJson

  // ---------------------------------------------------------------------------
  // Reading
  // ---------------------------------------------------------------------------

  function HexValue(c: char): (n: int)
    ensures -1 <= n < 16
  {
    if '0' <= c <= '9' then c as int - '0' as int
    else if 'a' <= c <= 'f' then c as int - 'a' as int + 10
    else if 'A' <= c <= 'F' then c as int - 'A' as int + 10
    else -1
  }

  /** The code unit that a \u escape in front of t names, or -1. */
  function UnitAt(t: string): (n: int)
    ensures -1 <= n < 0x1_0000
  {
    if |t| < 6 || t[0] != '\\' || t[1] != 'u' then -1
    else
      var a, b, c, d := HexValue(t[2]), HexValue(t[3]), HexValue(t[4]), HexValue(t[5]);
      if a < 0 || b < 0 || c < 0 || d < 0 then -1 else a * 0x1000 + b * 0x100 + c * 16 + d
  }

  /** The first character that t denotes, and how much of t it takes; no character, if t is malformed. */
  function FirstChar(t: string): (r: Option<(char, nat)>)
    ensures r.Some? ==> 1 <= r.value.1 <= |t|
  {
    if t == "" || t[0] == '\"' || t[0] < ' ' then None
    else if t[0] != '\\' then Some((t[0], 1))
    else if |t| < 2 then None
    else if t[1] == '\"' || t[1] == '\\' || t[1] == '/' then Some((t[1], 2))
    else if t[1] == 'b' then Some((8 as char, 2))
    else if t[1] == 't' then Some((9 as char, 2))
    else if t[1] == 'n' then Some((10 as char, 2))
    else if t[1] == 'f' then Some((12 as char, 2))
    else if t[1] == 'r' then Some((13 as char, 2))
    else
      var u := UnitAt(t);
      if u < 0 || 0xDC00 <= u < 0xE000 then None
      else if u < 0xD800 || u >= 0xE000 then Some((u as char, 6))
      else
        var v := UnitAt(t[6..]);
        if 0xDC00 <= v < 0xE000 then Some(((0x1_0000 + (u - 0xD800) * 0x400 + (v - 0xDC00)) as char, 12)) else None
  }

  /** The string between two quotes. */
  function Unescape(t: string): Option<string>
    decreases |t|
  {
    if t == "" then Some("")
    else
      var first := FirstChar(t);
      if first.None? then None
      else
        var rest := Unescape(t[first.value.1..]);
        if rest.None? then None else Some([first.value.0] + rest.value)
  }

  // ---------------------------------------------------------------------------
  // One character
  // ---------------------------------------------------------------------------

  lemma HexIsRead(n: nat)
    requires n < 16
    ensures HexValue(Hex(n)) == n && !('A' <= Hex(n) <= 'F')
  {
  }

  lemma UnitIsRead(n: nat, rest: string)
    requires n < 0x1_0000
    ensures UnitAt(UnitEscape(n) + rest) == n
  {
    HexIsRead(n / 0x1000);
    HexIsRead(n / 0x100 % 16);
    HexIsRead(n / 16 % 16);
    HexIsRead(n % 16);
    hide Hex, HexValue;
    var t := UnitEscape(n) + rest;
    assert t[2] == Hex(n / 0x1000) && t[3] == Hex(n / 0x100 % 16) && t[4] == Hex(n / 16 % 16) && t[5] == Hex(n % 16);
    FourDigits(n);
  }

  lemma FourDigits(n: nat)
    requires n < 0x1_0000
    ensures n / 0x1000 * 0x1000 + n / 0x100 % 16 * 0x100 + n / 16 % 16 * 16 + n % 16 == n
  {
    var a := n / 16;
    var b := a / 16;
    var c := b / 16;
    assert n == a * 16 + n % 16;
    assert a == b * 16 + a % 16;
    assert b == c * 16 + b % 16;
    assert n / 0x100 == b && n / 0x1000 == c;
  }

  lemma EscapeCharIsRead(c: char, rest: string)
    ensures FirstChar(EscapeChar(c) + rest) == Some((c, |EscapeChar(c)|))
  {
    var n := c as nat;
    if n < 0x20 && n !in {8, 9, 10, 12, 13} {
      ControlEscape(n);
      UnitIsRead(n, rest);
      hide UnitEscape, UnitAt, Hex;
      assert EscapeChar(c) == UnitEscape(n);
      assert (UnitEscape(n) + rest)[0] == UnitEscape(n)[0] && (UnitEscape(n) + rest)[1] == UnitEscape(n)[1];
    } else {
      hide UnitEscape, UnitAt, Hex;
      assert (EscapeChar(c) + rest)[0] == EscapeChar(c)[0];
    }
  }

  lemma PairAt(t: string, u: nat, v: nat)
    requires |t| >= 12 && t[0] == '\\' && t[1] == 'u' && UnitAt(t) == u && UnitAt(t[6..]) == v
    requires 0xD800 <= u < 0xDC00 <= v < 0xE000
    ensures FirstChar(t) == Some(((0x1_0000 + (u - 0xD800) * 0x400 + (v - 0xDC00)) as char, 12))
  {
    hide UnitAt;
  }

  lemma PairIsRead(u: nat, v: nat, rest: string)
    requires 0xD800 <= u < 0xDC00 <= v < 0xE000
    ensures FirstChar(UnitEscape(u) + UnitEscape(v) + rest) ==
            Some(((0x1_0000 + (u - 0xD800) * 0x400 + (v - 0xDC00)) as char, 12))
  {
    hide UnitEscape, UnitAt, FirstChar;
    var t, tail := UnitEscape(u) + UnitEscape(v) + rest, UnitEscape(v) + rest;
    assert t == UnitEscape(u) + tail && t[6..] == tail;
    UnitIsRead(u, tail);
    UnitIsRead(v, rest);
    UnitBegins(u, tail);
    PairAt(t, u, v);
  }

  lemma OneUnitIsRead(n: nat, rest: string)
    requires n < 0xD800 || 0xE000 <= n < 0x1_0000
    ensures FirstChar(UnitEscape(n) + rest) == Some((n as char, 6))
  {
    UnitIsRead(n, rest);
    UnitBegins(n, rest);
    hide UnitEscape, UnitAt;
  }

  lemma Halves(n: nat)
    requires n < 0x10_0000
    ensures n / 0x400 < 0x400 && n / 0x400 * 0x400 + n % 0x400 == n
  {
  }

  lemma HighPyEscape(c: char)
    requires c as nat >= 0x7F
    ensures var n := c as nat;
      PyEscapeChar(c) ==
      if n < 0x1_0000 then UnitEscape(n)
      else UnitEscape(0xD800 + (n - 0x1_0000) / 0x400) + UnitEscape(0xDC00 + (n - 0x1_0000) % 0x400)
  {
    hide UnitEscape;
  }

  lemma PyEscapeCharIsRead(c: char, rest: string)
    ensures FirstChar(PyEscapeChar(c) + rest) == Some((c, |PyEscapeChar(c)|))
  {
    var n := c as nat;
    if n < 0x7F {
      LowEscape(c);
      EscapeCharIsRead(c, rest);
    } else {
      HighPyEscape(c);
      hide UnitAt, Hex, FirstChar, UnitEscape, PyEscapeChar;
      if n < 0x1_0000 {
        OneUnitIsRead(n, rest);
      } else {
        Halves(n - 0x1_0000);
        PairIsRead(0xD800 + (n - 0x1_0000) / 0x400, 0xDC00 + (n - 0x1_0000) % 0x400, rest);
      }
    }
  }

  lemma UnitBegins(n: nat, rest: string)
    requires n < 0x1_0000
    ensures var t := UnitEscape(n) + rest; t[0] == '\\' && t[1] == 'u'
  {
    hide Hex;
  }

  // ---------------------------------------------------------------------------
  // Strings
  // ---------------------------------------------------------------------------

  /** Escaped strings are read back: by either printer. */
  lemma {:induction false} EscapedIsRead(s: string)
    ensures Unescape(Escape(s)) == Some(s)
  {
    hide FirstChar, EscapeChar;
    if s != "" {
      EscapeCharIsRead(s[0], Escape(s[1..]));
      var t, n := Escape(s), |EscapeChar(s[0])|;
      assert t[n..] == Escape(s[1..]);
      EscapedIsRead(s[1..]);
      assert [s[0]] + s[1..] == s;
    }
  }

  lemma {:induction false} PyEscapedIsRead(s: string)
    ensures Unescape(PyEscape(s)) == Some(s)
  {
    hide FirstChar, PyEscapeChar;
    if s != "" {
      PyEscapeCharIsRead(s[0], PyEscape(s[1..]));
      var t, n := PyEscape(s), |PyEscapeChar(s[0])|;
      assert t[n..] == PyEscape(s[1..]);
      PyEscapedIsRead(s[1..]);
      assert [s[0]] + s[1..] == s;
    }
  }

  /** No capital hexadecimal digit. */
  predicate SmallDigits(t: string) {
    forall i :: 0 <= i < |t| ==> !('A' <= t[i] <= 'F')
  }

  lemma UnitIsSmall(n: nat)
    requires n < 0x1_0000
    ensures SmallDigits(UnitEscape(n))
  {
    HexIsRead(n / 0x1000);
    HexIsRead(n / 0x100 % 16);
    HexIsRead(n / 16 % 16);
    HexIsRead(n % 16);
    hide Hex;
  }

  /** Of the spellings the standard allows, the shortest is used, and hexadecimal digits are small; TypeScript escapes
      nothing that need not be, Python whatever is outside space to tilde. */
  lemma SpellingsAre(c: char)
    ensures |EscapeChar(c)| ==
            if c in {'\"', '\\', '\U{0008}', '\t', '\n', '\U{000C}', '\r'} then 2 else if c < ' ' then 6 else 1
    ensures EscapeChar(c) == [c] || SmallDigits(EscapeChar(c))
  {
    var n := c as nat;
    if n < 0x20 {
      ControlEscape(n);
      UnitIsSmall(n);
    }
    hide UnitEscape, Hex;
  }

  lemma PySpellingsAre(c: char)
    ensures |PyEscapeChar(c)| ==
            if c in {'\"', '\\', '\U{0008}', '\t', '\n', '\U{000C}', '\r'} then 2
            else if ' ' <= c <= '~' then 1 else if c as int < 0x1_0000 then 6 else 12
    ensures PyEscapeChar(c) == [c] || SmallDigits(PyEscapeChar(c))
  {
    hide UnitEscape, Hex, SmallDigits;
    var n := c as nat;
    if n < 0x7F {
      LowEscape(c);
      SpellingsAre(c);
    } else if n < 0x1_0000 {
      HighPyEscape(c);
      UnitIsSmall(n);
    } else {
      HighPyEscape(c);
      Halves(n - 0x1_0000);
      var u, v := 0xD800 + (n - 0x1_0000) / 0x400, 0xDC00 + (n - 0x1_0000) % 0x400;
      UnitIsSmall(u);
      UnitIsSmall(v);
      SmallConcat(UnitEscape(u), UnitEscape(v));
    }
  }

  lemma SmallConcat(a: string, b: string)
    requires SmallDigits(a) && SmallDigits(b)
    ensures SmallDigits(a + b)
  {
  }
}
