/** The two orders in which object keys get sorted: JavaScript compares UTF-16 code units, Rust compares
    UTF-8 bytes, which is the order of code points. */
module TextOrder {

  /** Lexicographic order; a proper prefix comes first. */
  predicate LexLess(a: seq<nat>, b: seq<nat>)
    decreases |a|
  {
    if b == [] then false
    else if a == [] then true
    else if a[0] != b[0] then a[0] < b[0]
    else LexLess(a[1..], b[1..])
  }

  lemma {:induction false} LexAsymmetric(a: seq<nat>, b: seq<nat>)
    ensures !(LexLess(a, b) && LexLess(b, a))
    decreases |a|
  {
    if a != [] && b != [] && a[0] == b[0] {
      LexAsymmetric(a[1..], b[1..]);
    }
  }

  lemma {:induction false} LexTotal(a: seq<nat>, b: seq<nat>)
    ensures LexLess(a, b) || LexLess(b, a) || a == b
    decreases |a|
  {
    if a != [] && b != [] && a[0] == b[0] {
      LexTotal(a[1..], b[1..]);
      assert a == [a[0]] + a[1..] && b == [b[0]] + b[1..];
    }
  }

  lemma {:induction false} LexTransitive(a: seq<nat>, b: seq<nat>, c: seq<nat>)
    requires LexLess(a, b) && LexLess(b, c)
    ensures LexLess(a, c)
    decreases |a|
  {
    if a != [] && a[0] == b[0] == c[0] {
      LexTransitive(a[1..], b[1..], c[1..]);
    }
  }

  /** Up to i the two are the same, and there a goes on with less: with nothing, or with a smaller number. */
  predicate LessAt(a: seq<nat>, b: seq<nat>, i: nat) {
    && i <= |a| && i < |b| && a[..i] == b[..i]
    && (i == |a| || a[i] < b[i])
  }

  lemma LessAtFront(a: seq<nat>, b: seq<nat>, i: nat)
    requires LessAt(a, b, i)
    ensures i > 0 ==> a != [] && b != [] && a[0] == b[0]
  {
    assert i > 0 ==> a[0] == a[..i][0] && b[0] == b[..i][0];
  }

  /** Less is a proper prefix, or less at the first difference. */
  lemma {:induction false} LexLessIs(a: seq<nat>, b: seq<nat>)
    ensures LexLess(a, b) <==> exists i: nat :: LessAt(a, b, i)
    decreases |a|
  {
    if a != [] && b != [] && a[0] == b[0] {
      LexLessIs(a[1..], b[1..]);
      if i: nat :| LessAt(a[1..], b[1..], i) {
        assert a[..i + 1] == [a[0]] + a[1..][..i] && b[..i + 1] == [b[0]] + b[1..][..i];
        assert LessAt(a, b, i + 1);
      }
      if i: nat :| LessAt(a, b, i) {
        assert i > 0;
        assert a[1..][..i - 1] == a[..i][1..] && b[1..][..i - 1] == b[..i][1..];
        assert LessAt(a[1..], b[1..], i - 1);
      }
    } else {
      assert LexLess(a, b) ==> LessAt(a, b, 0);
      forall i: nat | LessAt(a, b, i) ensures i == 0 {
        LessAtFront(a, b, i);
      }
    }
  }

  /** The UTF-16 code units of a character: one, or a surrogate pair. */
  function UnitsOf(c: char): (u: seq<nat>)
    ensures 1 <= |u| <= 2
    ensures |u| == 1 <==> c as int < 0x10000
    ensures |u| == 1 ==> u[0] == c as int
    ensures |u| == 2 ==> 0xD800 <= u[0] < 0xDC00 <= u[1] < 0xE000
    ensures |u| == 2 ==> c as int == 0x10000 + (u[0] - 0xD800) * 0x400 + (u[1] - 0xDC00)
  {
    var n := c as nat;
    if n < 0x10000 then [n]
    else [0xD800 + (n - 0x10000) / 0x400, 0xDC00 + (n - 0x10000) % 0x400]
  }

  function Units(s: string): seq<nat> {
    if s == "" then [] else UnitsOf(s[0]) + Units(s[1..])
  }

  function Points(s: string): (p: seq<nat>)
    ensures |p| == |s| && forall i :: 0 <= i < |s| ==> p[i] == s[i] as int
  {
    if s == "" then [] else [s[0] as nat] + Points(s[1..])
  }

  datatype KeyOrder = Utf16Order | CodePointOrder

  predicate Before(o: KeyOrder, s: string, t: string) {
    match o
    case Utf16Order => LexLess(Units(s), Units(t))
    case CodePointOrder => LexLess(Points(s), Points(t))
  }

  /** Different characters differ in their first code unit, or in the second of two surrogate pairs. */
  lemma UnitsOfDiffer(c: char, d: char)
    requires c != d
    ensures UnitsOf(c)[0] != UnitsOf(d)[0] || (|UnitsOf(c)| == |UnitsOf(d)| == 2 && UnitsOf(c)[1] != UnitsOf(d)[1])
  {
  }

  lemma SameFirstCharacter(c: char, d: char, a: seq<nat>, b: seq<nat>)
    requires UnitsOf(c) + a == UnitsOf(d) + b
    ensures c == d && a == b
  {
    var x, y := UnitsOf(c), UnitsOf(d);
    assert (x + a)[0] == x[0] && (y + b)[0] == y[0];
    assert x[0] == y[0] && |x| == |y|;
    if |x| == 2 {
      assert (x + a)[1] == x[1] && (y + b)[1] == y[1];
    }
    assert (x + a)[|x|..] == a && (y + b)[|y|..] == b;
  }

  lemma {:induction false} UnitsInjective(s: string, t: string)
    requires Units(s) == Units(t)
    ensures s == t
    decreases |s|
  {
    if s != "" && t != "" {
      SameFirstCharacter(s[0], t[0], Units(s[1..]), Units(t[1..]));
      UnitsInjective(s[1..], t[1..]);
      assert s == [s[0]] + s[1..] && t == [t[0]] + t[1..];
    }
  }

  lemma {:induction false} PointsInjective(s: string, t: string)
    requires Points(s) == Points(t)
    ensures s == t
    decreases |s|
  {
    if s != "" && t != "" {
      assert Points(s)[1..] == Points(s[1..]) && Points(t)[1..] == Points(t[1..]);
      PointsInjective(s[1..], t[1..]);
      assert s[0] as nat == Points(s)[0] && t[0] as nat == Points(t)[0];
      assert s == [s[0]] + s[1..] && t == [t[0]] + t[1..];
    }
  }

  lemma UnitsStep(s: string)
    ensures Units(s) == if s == "" then [] else UnitsOf(s[0]) + Units(s[1..])
  {
  }

  lemma Regroup(a: seq<nat>, b: seq<nat>, c: seq<nat>)
    ensures a + (b + c) == (a + b) + c
  {
  }

  lemma {:induction false} UnitsConcat(s: string, t: string)
    ensures Units(s + t) == Units(s) + Units(t)
  {
    hide UnitsOf, Units;
    UnitsStep(s);
    UnitsStep(s + t);
    if s == "" {
      assert s + t == t && [] + Units(t) == Units(t);
    } else {
      UnitsConcat(s[1..], t);
      assert (s + t)[1..] == s[1..] + t && (s + t)[0] == s[0];
      Regroup(UnitsOf(s[0]), Units(s[1..]), Units(t));
    }
  }

  lemma PointsConcat(s: string, t: string)
    ensures Points(s + t) == Points(s) + Points(t)
  {
  }

  lemma UnitsNonempty(s: string)
    ensures s != "" ==> Units(s) != []
  {
  }

  /** What decides between two strings: with nothing behind a common front, the shorter comes first; else the
      first code unit, or code point, in which they differ. */
  lemma BeforeIs(o: KeyOrder, front: string, s: string, t: string)
    ensures t != "" ==> Before(o, front, front + t)
    ensures s != "" && t != "" && s[0] as int < t[0] as int < 0xD800 ==> Before(o, front + s, front + t)
    ensures s != "" && t != "" && s[0] as int < t[0] as int ==> Before(CodePointOrder, front + s, front + t)
    ensures s != "" && t != "" && s[0] as int >= 0x10000 && 0xE000 <= t[0] as int < 0x10000 ==>
              Before(Utf16Order, front + s, front + t)
  {
    hide LexLess;
    var u, p := Units(front), Points(front);
    UnitsConcat(front, s);
    UnitsConcat(front, t);
    PointsConcat(front, s);
    PointsConcat(front, t);
    UnitsNonempty(t);
    LexLessIs(u, Units(front + t));
    LexLessIs(p, Points(front + t));
    LexLessIs(Units(front + s), Units(front + t));
    LexLessIs(Points(front + s), Points(front + t));
    if t != "" {
      assert LessAt(u, u + Units(t), |u|) && LessAt(p, p + Points(t), |p|);
      if s != "" {
        assert Units(s)[0] == UnitsOf(s[0])[0] && Units(t)[0] == UnitsOf(t[0])[0];
        assert (u + Units(s))[..|u|] == (u + Units(t))[..|u|] && (p + Points(s))[..|p|] == (p + Points(t))[..|p|];
        assert Units(s)[0] < Units(t)[0] ==> LessAt(u + Units(s), u + Units(t), |u|);
        assert s[0] as int < t[0] as int ==> LessAt(p + Points(s), p + Points(t), |p|);
      }
    }
  }

  /** Both are strict total orders on strings. */
  lemma BeforeIsStrict(o: KeyOrder, s: string, t: string)
    ensures !(Before(o, s, t) && Before(o, t, s))
    ensures Before(o, s, t) || Before(o, t, s) || s == t
    ensures !Before(o, s, s)
  {
    match o {
      case Utf16Order =>
        LexAsymmetric(Units(s), Units(t));
        LexAsymmetric(Units(s), Units(s));
        LexTotal(Units(s), Units(t));
        if Units(s) == Units(t) {
          UnitsInjective(s, t);
        }
      case CodePointOrder =>
        LexAsymmetric(Points(s), Points(t));
        LexAsymmetric(Points(s), Points(s));
        LexTotal(Points(s), Points(t));
        if Points(s) == Points(t) {
          PointsInjective(s, t);
        }
    }
  }

  lemma BeforeTransitive(o: KeyOrder, s: string, t: string, u: string)
    requires Before(o, s, t) && Before(o, t, u)
    ensures Before(o, s, u)
  {
    match o {
      case Utf16Order => LexTransitive(Units(s), Units(t), Units(u));
      case CodePointOrder => LexTransitive(Points(s), Points(t), Points(u));
    }
  }

  // ---------------------------------------------------------------------------
  // Where the two orders part
  // ---------------------------------------------------------------------------

  /** A surrogate pair sorts below U+E000..U+FFFF by code units and above by code points. */
  predicate Crosses(c: char, d: char) {
    var m, n := c as nat, d as nat;
    (m >= 0x10000 && 0xE000 <= n < 0x10000) || (n >= 0x10000 && 0xE000 <= m < 0x10000)
  }

  /** The first characters in which s and t differ are such a pair. */
  predicate Inverted(s: string, t: string) {
    s != "" && t != "" && if s[0] == t[0] then Inverted(s[1..], t[1..]) else Crosses(s[0], t[0])
  }

  lemma {:induction false} LexAfterPrefix(p: seq<nat>, a: seq<nat>, b: seq<nat>)
    ensures LexLess(p + a, p + b) == LexLess(a, b)
    decreases |p|
  {
    if p == [] {
      assert p + a == a && p + b == b;
    } else {
      assert (p + a)[1..] == p[1..] + a && (p + b)[1..] == p[1..] + b;
      LexAfterPrefix(p[1..], a, b);
    }
  }

  /** Characters that differ decide the comparison. */
  lemma LexAtDifference(c: char, d: char, a: seq<nat>, b: seq<nat>)
    requires c != d
    ensures LexLess(UnitsOf(c) + a, UnitsOf(d) + b) == LexLess(UnitsOf(c), UnitsOf(d))
    ensures (LexLess(UnitsOf(c), UnitsOf(d)) == (c < d)) <==> !Crosses(c, d)
  {
    var x, y := UnitsOf(c), UnitsOf(d);
    assert (x + a)[0] == x[0] && (y + b)[0] == y[0];
    if x[0] == y[0] {
      UnitsOfDiffer(c, d);
      assert (x + a)[1..][0] == x[1] && (y + b)[1..][0] == y[1];
      assert x[1..][0] == x[1] && y[1..][0] == y[1];
    }
  }

  /** The orders agree on two strings exactly when the strings are not such an inversion. */
  lemma {:induction false} OrdersAgree(s: string, t: string)
    ensures (Before(Utf16Order, s, t) == Before(CodePointOrder, s, t)) <==> !Inverted(s, t)
    decreases |s|
  {
    if s != "" && t != "" {
      if s[0] == t[0] {
        OrdersAgree(s[1..], t[1..]);
        LexAfterPrefix(UnitsOf(s[0]), Units(s[1..]), Units(t[1..]));
        LexAfterPrefix([s[0] as nat], Points(s[1..]), Points(t[1..]));
      } else {
        LexAtDifference(s[0], t[0], Units(s[1..]), Units(t[1..]));
        assert Points(s)[0] == s[0] as nat && Points(t)[0] == t[0] as nat;
      }
    }
  }
}
