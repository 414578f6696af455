/** The did:key codec: base58btc over digit arrays, and DIDs over 32-byte Ed25519 keys. */
module DidKey {
  import opened Wrappers
  import opened Radix
  import opened Base58Alphabet

  type byte = x: nat | x < 256

  type Bytes = s: seq<nat> | IsNumeral(s, 256)

  datatype DidError =
    | NotDidKey
    | InvalidCharacter(c: char)
    | NoEd25519Prefix
    | WrongLength(decoded: nat)

  const MULTICODEC: Bytes := [0xed, 0x01]
  const DID_PREFIX := "did:key:z"

  /** How many leading elements equal x. */
  function Leading<T(==)>(s: seq<T>, x: T): (n: nat)
    ensures n <= |s|
    ensures forall i :: 0 <= i < n ==> s[i] == x
    ensures n < |s| ==> s[n] != x
  {
    if s == [] || s[0] != x then 0 else 1 + Leading(s[1..], x)
  }

  lemma LeadingIs<T>(s: seq<T>, x: T, n: nat)
    requires n <= |s|
    requires forall i :: 0 <= i < n ==> s[i] == x
    requires n < |s| ==> s[n] != x
    ensures Leading(s, x) == n
  {
  }

  // ---------------------------------------------------------------------------
  // What the codec computes, by value instead of by digit loops
  // ---------------------------------------------------------------------------

  function Zeros(n: nat): (r: seq<nat>)
    ensures |r| == n
    ensures forall i :: 0 <= i < n ==> r[i] == 0
  {
    seq(n, _ => 0)
  }

  /** The text "1".repeat(n). */
  function Ones(n: nat): (r: string)
    ensures |r| == n
    ensures forall i :: 0 <= i < n ==> r[i] == '1'
  {
    seq(n, _ => '1')
  }

  function Text(digits: seq<nat>): (t: string)
    requires IsNumeral(digits, 58)
    ensures |t| == |digits|
    ensures forall i :: 0 <= i < |t| ==> t[i] == Symbol(digits[i])
  {
    seq(|digits|, i requires 0 <= i < |digits| => Symbol(digits[i]))
  }

  function Indices(s: string): (d: seq<nat>)
    requires IsBase58(s)
    ensures |d| == |s| && IsNumeral(d, 58)
    ensures forall i :: 0 <= i < |s| ==> Symbol(d[i]) == s[i]
  {
    if s == [] then [] else [IndexOf(s[0]) as nat] + Indices(s[1..])
  }

  /** The base58 text of a byte string. */
  function Encode(input: Bytes): string {
    Ones(Leading<nat>(input, 0)) + Text(Reverse(Digits(Value(input, 256), 58)))
  }

  predicate IsBase58(s: string) {
    forall i :: 0 <= i < |s| ==> IndexOf(s[i]) >= 0
  }

  function FirstInvalid(s: string): (c: char)
    requires !IsBase58(s)
    ensures c in s && IndexOf(c) < 0
  {
    if IndexOf(s[0]) < 0 then s[0] else FirstInvalid(s[1..])
  }

  /** The bytes a base58 text stands for. */
  function Decode(s: string): (r: Result<Bytes, DidError>) {
    if !IsBase58(s) then Err(InvalidCharacter(FirstInvalid(s)))
    else Ok(Zeros(Leading(s, '1')) + Reverse(Digits(Value(Indices(s), 58), 256)))
  }

  function KeyToDid(key: Bytes): string {
    DID_PREFIX + Encode(MULTICODEC + key)
  }

  function DidToKey(did: string): Result<Bytes, DidError> {
    if !(DID_PREFIX <= did) then Err(NotDidKey)
    else
      match Decode(did[|DID_PREFIX|..])
      case Err(e) => Err(e)
      case Ok(decoded) =>
        if |decoded| < 2 || decoded[0] != 0xed || decoded[1] != 0x01 then Err(NoEd25519Prefix)
        else if |decoded| != 2 + 32 then Err(WrongLength(|decoded|))
        else Ok(decoded[2..])
  }

  // ---------------------------------------------------------------------------
  // Round trips
  // ---------------------------------------------------------------------------

  lemma {:induction false} IndicesOfText(d: seq<nat>)
    requires IsNumeral(d, 58)
    ensures IsBase58(Text(d)) && Indices(Text(d)) == d
  {
    forall i | 0 <= i < |d| ensures IndexOf(Text(d)[i]) == d[i] {
      IndexOfSymbol(d[i]);
    }
    var x := Indices(Text(d));
    forall i | 0 <= i < |d| ensures x[i] == d[i] {
      IndexOfSymbol(x[i]);
    }
  }

  lemma IndicesConcat(s: string, t: string)
    requires IsBase58(s) && IsBase58(t)
    ensures IsBase58(s + t) && Indices(s + t) == Indices(s) + Indices(t)
  {
    hide Symbol, IndexOf;
    var x, y := Indices(s + t), Indices(s) + Indices(t);
    forall i | 0 <= i < |s + t| ensures x[i] == y[i] {
      IndexOfSymbol(x[i]);
      IndexOfSymbol(y[i]);
    }
  }

  lemma IndicesOfOnes(n: nat)
    ensures IsBase58(Ones(n)) && Indices(Ones(n)) == Zeros(n)
  {
    SymbolZero();
    var x := Indices(Ones(n));
    forall i | 0 <= i < n ensures x[i] == 0 {
      IndexOfSymbol(x[i]);
      IndexOfSymbol(0);
    }
  }

  /** A numeral behind z zeros: same value, and exactly z leading zeros when its head is not zero. */
  lemma ZerosThen(z: nat, d: seq<nat>, base: nat)
    ensures Value(Zeros(z) + d, base) == Value(d, base)
    ensures |d| > 0 && d[0] != 0 ==> Leading<nat>(Zeros(z) + d, 0) == z
  {
    var s := Zeros(z) + d;
    ValueDropsLeadingZeros(s, z, base);
    assert s[z..] == d;
    if |d| > 0 && d[0] != 0 {
      LeadingIs(s, 0, z);
    }
  }

  /** The minimal big-endian digits of a positive number start with a nonzero digit. */
  lemma HeadNotZero(n: nat, base: nat)
    requires base >= 2 && n > 0
    ensures Reverse(Digits(n, base))[0] > 0
  {
    TopDigit(n, base);
    ReverseAt(Digits(n, base), 0);
  }

  /** Everything behind the leading zeros is the minimal numeral of the value. */
  lemma SplitAtZeros(s: seq<nat>, base: nat)
    requires base >= 2 && IsNumeral(s, base)
    requires Leading<nat>(s, 0) < |s|
    ensures Value(s, base) > 0
    ensures s == Zeros(Leading<nat>(s, 0)) + Reverse(Digits(Value(s, base), base))
  {
    hide Value, Digits, Reverse, Zeros, Ones, Text, Leading, Symbol, IndexOf, Indices;
    var z := Leading<nat>(s, 0);
    ValueDropsLeadingZeros(s, z, base);
    PositiveValue(s[z..], base);
    NumeralIsUnique(s[z..], base);
    assert s == s[..z] + s[z..];
    assert s[..z] == Zeros(z);
  }

  /** Reading the text of a byte string: value and number of leading ones survive. */
  lemma EncodeShape(b: Bytes)
    requires Leading<nat>(b, 0) < |b|
    ensures IsBase58(Encode(b))
    ensures Value(Indices(Encode(b)), 58) == Value(b, 256)
    ensures Leading(Encode(b), '1') == Leading<nat>(b, 0)
  {
    hide Value, Digits, Reverse, Zeros, Ones, Text, Leading, Symbol, IndexOf, Indices;
    var z, n := Leading<nat>(b, 0), Value(b, 256);
    SplitAtZeros(b, 256);
    var d := Reverse(Digits(n, 58));
    HeadNotZero(n, 58);
    IndicesOfText(d);
    IndicesOfOnes(z);
    IndicesConcat(Ones(z), Text(d));
    ZerosThen(z, d, 58);
    DigitsValue(n, 58);
    SymbolZero();
    SymbolOrder(0, d[0]);
    LeadingIs(Encode(b), '1', z);
  }

  lemma OneMoreOne(n: nat)
    ensures Ones(n) + Text([0]) == Ones(n + 1)
  {
    hide Symbol, Text;
    SymbolZero();
  }

  lemma ZerosEncode(b: Bytes)
    requires Leading<nat>(b, 0) == |b|
    ensures Encode(b) == Ones(|b| + 1)
  {
    hide Value, Digits, Reverse, Zeros, Ones, Text, Leading, Symbol, IndexOf;
    var n := |b|;
    ValueDropsLeadingZeros(b, n, 256);
    ZeroNumeral(58);
    ZeroNumeral(256);
    assert b[n..] == [];
    OneMoreOne(n);
  }

  /** All-zero inputs keep the initial digit 0, which shows up as one more character. */
  lemma ZerosDoNotRoundTrip(b: Bytes)
    requires Leading<nat>(b, 0) == |b|
    ensures Encode(b) == Ones(|b| + 1)
    ensures Decode(Encode(b)) == Ok(Zeros(|b| + 2))
  {
    hide *;
    ZerosEncode(b);
    OnesDecode(|b| + 1);
  }

  lemma ZeroNumeral(base: nat)
    requires base >= 2
    ensures Value([], base) == 0 && Reverse(Digits(0, base)) == [0]
  {
    assert Digits(0, base)[1..] == [];
  }

  lemma OnesDecode(n: nat)
    ensures IsBase58(Ones(n))
    ensures Decode(Ones(n)) == Ok(Zeros(n + 1))
  {
    hide Value, Digits, Reverse, Zeros, Ones, Text, Leading, Symbol, IndexOf, Indices;
    IndicesOfOnes(n);
    ZerosThen(n, [], 58);
    assert Zeros(n) + [] == Zeros(n);
    assert Zeros(n) + [0] == Zeros(n + 1);
    LeadingIs(Ones(n), '1', n);
    ZeroNumeral(58);
    ZeroNumeral(256);
  }

  /** base58Decode inverts base58Encode exactly on the byte strings with a nonzero byte. */
  lemma DecodeEncode(b: Bytes)
    ensures Decode(Encode(b)) == Ok(b) <==> exists i :: 0 <= i < |b| && b[i] != 0
  {
    hide Value, Digits, Reverse, Zeros, Ones, Text, Leading, Symbol, IndexOf, Indices;
    var z := Leading<nat>(b, 0);
    if z < |b| {
      EncodeShape(b);
      SplitAtZeros(b, 256);
      assert b[z] != 0;
    } else {
      ZerosDoNotRoundTrip(b);
    }
  }

  /** base58Encode inverts base58Decode exactly on the base58 texts with a character other than '1'. */
  lemma EncodeDecode(s: string)
    requires IsBase58(s)
    ensures Encode(Decode(s).value) == s <==> exists i :: 0 <= i < |s| && s[i] != '1'
  {
    hide Value, Digits, Reverse, Zeros, Ones, Text, Leading, Symbol, IndexOf, Indices;
    var z := Leading(s, '1');
    if z < |s| {
      assert s[z] != '1';
      var d := Indices(s);
      SymbolZero();
      IndexOfSymbol(0);
      forall i | 0 <= i < |s| ensures d[i] == 0 <==> s[i] == '1' {
        IndexOfSymbol(d[i]);
      }
      LeadingIs(d, 0, z);
      SplitAtZeros(d, 58);
      var n := Value(d, 58);
      var rest := Reverse(Digits(n, 256));
      HeadNotZero(n, 256);
      ZerosThen(z, rest, 256);
      DigitsValue(n, 256);
      var b := Decode(s).value;
      assert b == Zeros(z) + rest;
      LeadingIs(b, 0, z);
      assert Text(Reverse(Digits(n, 58))) == s[z..];
      assert s == Ones(z) + s[z..];
    } else {
      assert s == Ones(|s|);
      OnesDecode(|s|);
      var b := Decode(s).value;
      LeadingIs(b, 0, |b|);
      ZerosDoNotRoundTrip(b);
    }
  }

  /** The DID of a key decodes back to it exactly when the key has 32 bytes. */
  lemma KeyRoundTrip(key: Bytes)
    ensures DidToKey(KeyToDid(key)) == Ok(key) <==> |key| == 32
    ensures |key| != 32 ==> DidToKey(KeyToDid(key)) == Err(WrongLength(|key| + 2))
  {
    var m := MULTICODEC + key;
    assert m[0] == 0xed;
    DecodeEncode(m);
    assert KeyToDid(key)[|DID_PREFIX|..] == Encode(m);
    assert m[2..] == key;
  }

  lemma DecodeAccepts(s: string)
    ensures Decode(s).Ok? <==> IsBase58(s)
  {
    hide IsBase58;
  }

  /** An accepted DID, taken apart. */
  lemma DidParts(did: string)
    requires DidToKey(did).Ok?
    ensures |did| >= |DID_PREFIX| && did == DID_PREFIX + did[|DID_PREFIX|..]
    ensures var s, key := did[|DID_PREFIX|..], DidToKey(did).value;
      && IsBase58(s) && Decode(s).value == MULTICODEC + key && |key| == 32
      && Decode(s).value[0] != 0
  {
    hide Encode, Decode, IsBase58;
    DecodeAccepts(did[|DID_PREFIX|..]);
    var b := Decode(did[|DID_PREFIX|..]).value;
    assert b == b[..2] + b[2..] && b[..2] == MULTICODEC;
  }

  /** Every DID the decoder accepts is the DID of the key it returned. */
  lemma DidRoundTrip(did: string)
    requires DidToKey(did).Ok?
    ensures |DidToKey(did).value| == 32
    ensures KeyToDid(DidToKey(did).value) == did
  {
    hide Encode, Decode, DidToKey, IsBase58;
    DidParts(did);
    var s := did[|DID_PREFIX|..];
    DecodeAccepts(s);
    assert Decode(s).value[0] != 0;
    NotAllOnes(s, Decode(s).value);
    EncodeDecode(s);
  }

  /** So an accepted DID names one key, and a 32-byte key has one accepted DID. */
  lemma DidKeyBijection(key: Bytes, did: string)
    requires |key| == 32
    ensures KeyToDid(key) == did <==> DidToKey(did) == Ok(key)
  {
    KeyRoundTrip(key);
    if DidToKey(did) == Ok(key) {
      DidRoundTrip(did);
    }
  }

  lemma NotAllOnes(s: string, b: Bytes)
    requires Decode(s) == Ok(b) && exists i :: 0 <= i < |b| && b[i] != 0
    ensures exists i :: 0 <= i < |s| && s[i] != '1'
  {
    hide Decode;
    if s == Ones(|s|) {
      OnesDecode(|s|);
    }
  }

  /** The base58 text of bytes with a nonzero one among them: as many ones in front as there are zero bytes, and
      the same number, read in base 58. */
  lemma EncodeIs(b: Bytes, s: string)
    requires exists i :: 0 <= i < |b| && b[i] != 0
    ensures Encode(b) == s <==>
            IsBase58(s) && Leading(s, '1') == Leading<nat>(b, 0) && Value(Indices(s), 58) == Value(b, 256)
  {
    hide Value, Digits, Reverse, Zeros, Ones, Text, Leading, Symbol, IndexOf, Indices;
    assert Leading<nat>(b, 0) < |b|;
    EncodeShape(b);
    if IsBase58(s) && Leading(s, '1') == Leading<nat>(b, 0) && Value(Indices(s), 58) == Value(b, 256) {
      DecodeEncode(b);
      assert Decode(s) == Decode(Encode(b)) == Ok(b);
      NotAllOnes(s, b);
      EncodeDecode(s);
    }
  }

  /** What is read, and which of the errors, from the text alone. */
  lemma DidReads(did: string)
    ensures DidToKey(did) == Err(NotDidKey) <==> !("did:key:z" <= did)
    ensures forall c :: DidToKey(did) == Err(InvalidCharacter(c)) <==>
              "did:key:z" <= did && exists i :: FirstBad(did[9..], i, c)
    ensures DidToKey(did).Ok? <==>
            && "did:key:z" <= did && Decode(did[9..]).Ok?
            && |Decode(did[9..]).value| == 34 && Decode(did[9..]).value[..2] == [0xed, 0x01]
    ensures forall key :: DidToKey(did) == Ok(key) ==> Decode(did[9..]) == Ok([0xed, 0x01] + key)
    ensures forall n :: DidToKey(did) == Err(WrongLength(n)) <==>
              && "did:key:z" <= did && Decode(did[9..]).Ok?
              && [0xed, 0x01] <= Decode(did[9..]).value && n == |Decode(did[9..]).value| != 34
  {
    hide Value, Digits, Reverse, Zeros, Leading, Symbol, IndexOf, Indices;
    if "did:key:z" <= did {
      var s := did[9..];
      forall c
        ensures Decode(s) == Err(InvalidCharacter(c)) <==> exists i :: FirstBad(s, i, c)
      {
        InvalidIsFirst(s, c);
      }
      hide Decode;
      if Decode(s).Ok? && |Decode(s).value| >= 2 {
        var b := Decode(s).value;
        assert b == b[..2] + b[2..];
        assert b[..2] == [b[0], b[1]];
      }
    }
  }

  /** c stands at i, is not in the alphabet, and everything before it is. */
  predicate FirstBad(s: string, i: nat, c: char) {
    i < |s| && s[i] == c && IndexOf(c) < 0 && forall j :: 0 <= j < i ==> IndexOf(s[j]) >= 0
  }

  lemma InvalidIsFirst(s: string, c: char)
    ensures Decode(s) == Err(InvalidCharacter(c)) <==> exists i :: FirstBad(s, i, c)
  {
    hide Value, Digits, Reverse, Zeros, Leading, Symbol, IndexOf, Indices;
    if !IsBase58(s) {
      var i := FirstBadOf(s);
      if j :| FirstBad(s, j, c) {
        assert i == j;
      }
    }
  }

  lemma {:induction false} FirstBadOf(s: string) returns (i: nat)
    requires !IsBase58(s)
    ensures FirstBad(s, i, FirstInvalid(s))
  {
    hide IndexOf;
    if IndexOf(s[0]) < 0 {
      i := 0;
    } else {
      i := FirstBadOf(s[1..]);
      assert s[1..][i] == s[i + 1];
      forall j | 0 <= j < i + 1 ensures IndexOf(s[j]) >= 0 {
        assert j > 0 ==> s[1..][j - 1] == s[j];
      }
      i := i + 1;
    }
  }

  /** The text of a key's DID, down to its characters. */
  lemma DidTextIs(key: Bytes, did: string)
    ensures KeyToDid(key) == did <==>
            && |did| > 9 && did[..9] == "did:key:z"
            && var s := did[9..];
               IsBase58(s) && s[0] != '1' && Value(Indices(s), 58) == Value([0xed, 0x01] + key, 256)
  {
    hide Value, Digits, Reverse, Zeros, Ones, Text, Leading, Symbol, IndexOf, Indices, Encode;
    var m := [0xed, 0x01] + key;
    assert m[0] != 0;
    EncodeShape(m);
    assert KeyToDid(key)[..9] == "did:key:z" && KeyToDid(key)[9..] == Encode(m);
    PositiveValue(m, 256);
    ValueEmpty(58);
    if |did| > 9 && did[..9] == "did:key:z" {
      EncodeIs(m, did[9..]);
      assert did == did[..9] + did[9..];
    }
  }

  // ---------------------------------------------------------------------------
  // The loops
  // ---------------------------------------------------------------------------

  /** Values below this stay exact under JavaScript's 32-bit shifts and masks. */
  const INT32_LIMIT := 0x8000_0000

  method Base58Encode(input: Bytes) returns (result: string)
    ensures result == Encode(input)
  {
    hide Value, Digits, Reverse, Zeros, Ones, Text, Leading, Symbol;
    var leadingZeros := CountLeading<nat>(input, 0);

    var digits: seq<nat> := [0];
    StartNumeral(58);
    for i := 0 to |input|
      invariant digits == Digits(Value(input[..i], 256), 58)
    {
      digits := AppendByte(digits, input[i], Value(input[..i], 256));
      assert input[..i + 1] == input[..i] + [input[i]];
      ValueSnoc(input[..i], input[i], 256);
    }
    assert input[..|input|] == input;

    result := Ones(leadingZeros);
    var k := |digits|;
    TextSnoc([]);
    while k > 0
      invariant 0 <= k <= |digits|
      invariant result == Ones(leadingZeros) + Text(Reverse(digits[k..]))
    {
      k := k - 1;
      TextSnoc(digits[k..]);
      assert digits[k..][1..] == digits[k + 1..];
      result := result + [Symbol(digits[k])];
    }
    assert digits[0..] == digits;
  }

  /** One turn of the encoder's loop: from the digits of n to the digits of n * 256 + x. */
  method AppendByte(before: seq<nat>, x: byte, ghost n: nat) returns (digits: seq<nat>)
    requires before == Digits(n, 58)
    ensures digits == Digits(n * 256 + x, 58)
  {
    PartlyStarts(before, 256, x, 58);
    hide *;
    digits := before;
    var carry: nat := x;
    var j := 0;
    while j < |digits|
      invariant 0 <= j <= |digits| && carry < 256
      invariant Partly(before, digits, j, 256, carry, x, 58)
    {
      PartlyNext(before, digits, j, 256, carry, x, 58);
      CarryBound(digits[j], 256, carry, 58);
      assert digits[j] * 256 + carry < INT32_LIMIT;
      carry := carry + digits[j] * 256;
      digits := digits[j := carry % 58];
      carry := carry / 58;
      j := j + 1;
    }
    PartlyEnds(before, digits, 256, carry, x, 58);
    while carry > 0
      invariant Flushing(digits, carry, 58, MulAdd(before, 256, x, 58))
      decreases carry
    {
      FlushNext(digits, carry, 58, MulAdd(before, 256, x, 58));
      digits := digits + [carry % 58];
      carry := carry / 58;
    }
    FlushNext(digits, 0, 58, MulAdd(before, 256, x, 58));
    MulAddIsDigits(n, 256, x, 58);
  }

  lemma {:induction false} TextAppend(a: seq<nat>, x: nat)
    requires IsNumeral(a, 58) && x < 58
    ensures IsNumeral(a + [x], 58) && Text(a + [x]) == Text(a) + [Symbol(x)]
  {
    hide Text, Symbol;
  }

  lemma {:induction false} TextSnoc(d: seq<nat>)
    requires IsNumeral(d, 58)
    ensures Text(Reverse([])) == ""
    ensures |d| > 0 ==> Text(Reverse(d)) == Text(Reverse(d[1..])) + [Symbol(d[0])]
  {
    hide Text, Symbol;
    if |d| > 0 {
      var rest := Reverse(d[1..]);
      assert Reverse(d) == rest + [d[0]];
      assert d[0] < 58 && IsNumeral(d[1..], 58) && IsNumeral(rest, 58);
      hide Reverse, IsNumeral;
      TextAppend(rest, d[0]);
    }
  }

  lemma StartNumeral(base: nat)
    requires base >= 2
    ensures IsBase58([]) && Indices([]) == []
    ensures Digits(Value([], base), base) == Digits(Value([], 256), base) == Digits(Value([], 58), base) == [0]
  {
  }

  method CountLeading<T(==)>(s: seq<T>, x: T) returns (n: nat)
    ensures n == Leading(s, x)
  {
    n := 0;
    for i := 0 to |s|
      invariant n == i && forall k :: 0 <= k < i ==> s[k] == x
    {
      if s[i] != x {
        break;
      }
      n := n + 1;
    }
    LeadingIs(s, x, n);
  }

  method Base58Decode(input: string) returns (result: Result<Bytes, DidError>)
    ensures result == Decode(input)
  {
    hide Value, Digits, Reverse, Zeros, Leading, Indices, IndexOf, Symbol;
    var leadingZeros := CountLeading(input, '1');

    var bytes: seq<nat> := [0];
    StartNumeral(256);
    for i := 0 to |input|
      invariant IsBase58(input[..i])
      invariant bytes == Digits(Value(Indices(input[..i]), 58), 256)
    {
      var charIdx := IndexOf(input[i]);
      if charIdx < 0 {
        FirstInvalidAt(input, i);
        return Err(InvalidCharacter(input[i]));
      }
      bytes := AppendSymbol(bytes, charIdx, Value(Indices(input[..i]), 58));
      IndicesSnoc(input, i);
    }
    assert input[..|input|] == input;

    var out := ReverseInto(leadingZeros, bytes);
    result := Ok(out);
  }

  /** One turn of the decoder's loop: from the bytes of n to the bytes of n * 58 + charIdx. */
  method AppendSymbol(before: seq<nat>, charIdx: nat, ghost n: nat) returns (bytes: seq<nat>)
    requires before == Digits(n, 256) && charIdx < 58
    ensures bytes == Digits(n * 58 + charIdx, 256)
  {
    PartlyStarts(before, 58, charIdx, 256);
    hide *;
    bytes := before;
    var carry: nat := charIdx;
    var j := 0;
    while j < |bytes|
      invariant 0 <= j <= |bytes| && carry < 58
      invariant Partly(before, bytes, j, 58, carry, charIdx, 256)
    {
      PartlyNext(before, bytes, j, 58, carry, charIdx, 256);
      CarryBound(bytes[j], 58, carry, 256);
      assert bytes[j] * 58 + carry < INT32_LIMIT;
      carry := carry + bytes[j] * 58;
      bytes := bytes[j := carry % 256];
      carry := carry / 256;
      j := j + 1;
    }
    PartlyEnds(before, bytes, 58, carry, charIdx, 256);
    while carry > 0
      invariant Flushing(bytes, carry, 256, MulAdd(before, 58, charIdx, 256))
      decreases carry
    {
      FlushNext(bytes, carry, 256, MulAdd(before, 58, charIdx, 256));
      bytes := bytes + [carry % 256];
      carry := carry / 256;
    }
    FlushNext(bytes, 0, 256, MulAdd(before, 58, charIdx, 256));
    MulAddIsDigits(n, 58, charIdx, 256);
  }

  /** The fresh result array: zeros in front, then the bytes from the most significant one. */
  method ReverseInto(leadingZeros: nat, bytes: seq<nat>) returns (result: Bytes)
    requires IsNumeral(bytes, 256)
    ensures result == Zeros(leadingZeros) + Reverse(bytes)
  {
    hide Reverse, Zeros;
    var out := new byte[leadingZeros + |bytes|](_ => 0);
    for i := 0 to |bytes|
      invariant out[..leadingZeros] == Zeros(leadingZeros)
      invariant out[leadingZeros..leadingZeros + i] == Reverse(bytes)[..i]
    {
      ReverseAt(bytes, i);
      out[leadingZeros + i] := bytes[|bytes| - 1 - i];
      assert out[leadingZeros..leadingZeros + i + 1] == out[leadingZeros..leadingZeros + i] + [out[leadingZeros + i]];
    }
    result := out[..];
    assert result == out[..leadingZeros] + out[leadingZeros..leadingZeros + |bytes|];
  }

  lemma IndicesSnoc(s: string, i: nat)
    requires i < |s| && IsBase58(s[..i]) && IndexOf(s[i]) >= 0
    ensures IsBase58(s[..i + 1])
    ensures Value(Indices(s[..i + 1]), 58) == Value(Indices(s[..i]), 58) * 58 + IndexOf(s[i])
  {
    assert s[..i + 1] == s[..i] + [s[i]];
    assert IsBase58([s[i]]);
    IndicesConcat(s[..i], [s[i]]);
    assert Indices([s[i]]) == [IndexOf(s[i])];
    ValueSnoc(Indices(s[..i]), IndexOf(s[i]), 58);
  }

  lemma {:induction false} FirstInvalidAt(s: string, i: nat)
    requires i < |s| && IsBase58(s[..i]) && IndexOf(s[i]) < 0
    ensures !IsBase58(s) && FirstInvalid(s) == s[i]
  {
    hide IndexOf;
    if i > 0 {
      var front, rest := s[..i], s[1..];
      assert IndexOf(front[0]) >= 0 && front[0] == s[0];
      var middle := rest[..i - 1];
      forall k | 0 <= k < |middle|
        ensures IndexOf(middle[k]) >= 0
      {
        assert IndexOf(front[k + 1]) >= 0 && front[k + 1] == middle[k];
      }
      FirstInvalidAt(rest, i - 1);
    }
  }

  method PublicKeyToDidKey(publicKeyBytes: Bytes) returns (did: string)
    ensures did == KeyToDid(publicKeyBytes)
  {
    var encoded := Base58Encode(MULTICODEC + publicKeyBytes);
    did := DID_PREFIX + encoded;
  }

  method DidKeyToPublicKey(did: string) returns (key: Result<Bytes, DidError>)
    ensures key == DidToKey(did)
  {
    if !(DID_PREFIX <= did) {
      return Err(NotDidKey);
    }
    var decoded := Base58Decode(did[|DID_PREFIX|..]);
    if decoded.Err? {
      return decoded;
    }
    var bytes := decoded.value;
    if |bytes| < 2 || bytes[0] != 0xed || bytes[1] != 0x01 {
      return Err(NoEd25519Prefix);
    }
    if |bytes| != 2 + 32 {
      return Err(WrongLength(|bytes|));
    }
    return Ok(bytes[2..]);
  }
}
