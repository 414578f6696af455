/** The base58btc alphabet and character lookup in it. */
module Base58Alphabet {

  /** The Bitcoin alphabet: digits without 0, capitals without I and O, small letters without l. */
  const ALPHABET := "123456789" + "ABCDEFGHJKLMNPQRSTUVWXYZ" + "abcdefghijkmnopqrstuvwxyz"

  function Symbol(i: nat): char
    requires i < 58
  {
    ALPHABET[i]
  }

  /** String.indexOf of one character in the alphabet; -1 when absent. */
  function IndexOf(c: char): (r: int)
    ensures -1 <= r < 58
    ensures r >= 0 ==> Symbol(r) == c
    ensures r < 0 ==> forall i: nat :: i < 58 ==> Symbol(i) != c
  {
    IndexFrom(c, 0)
  }

  function IndexFrom(c: char, i: nat): (r: int)
    requires i <= 58
    ensures r == -1 || i <= r < 58
    ensures r >= 0 ==> Symbol(r) == c
    ensures r < 0 ==> forall k: nat :: i <= k < 58 ==> Symbol(k) != c
    decreases 58 - i
  {
    if i == 58 then -1
    else if ALPHABET[i] == c then i
    else IndexFrom(c, i + 1)
  }

  lemma DigitsAscend(i: nat)
    requires i < 8
    ensures Symbol(i) < Symbol(i + 1)
  {
    assert ALPHABET[i] == "123456789"[i] && ALPHABET[i + 1] == "123456789"[i + 1];
  }

  lemma CapitalsAscend(i: nat)
    requires i < 23
    ensures Symbol(9 + i) < Symbol(9 + i + 1)
  {
    var capitals := "ABCDEFGHJKLMNPQRSTUVWXYZ";
    assert ALPHABET[9 + i] == capitals[i] && ALPHABET[9 + i + 1] == capitals[i + 1];
  }

  lemma SmallLettersAscend(i: nat)
    requires i < 24
    ensures Symbol(33 + i) < Symbol(33 + i + 1)
  {
    var small := "abcdefghijkmnopqrstuvwxyz";
    assert ALPHABET[33 + i] == small[i] && ALPHABET[33 + i + 1] == small[i + 1];
  }

  lemma GroupsAscend()
    ensures Symbol(8) < Symbol(9) && Symbol(32) < Symbol(33)
  {
  }

  lemma Ascends(i: nat)
    requires i < 57
    ensures Symbol(i) < Symbol(i + 1)
  {
    hide Symbol;
    GroupsAscend();
    if i < 8 {
      DigitsAscend(i);
    } else if 9 <= i < 32 {
      CapitalsAscend(i - 9);
    } else if i >= 33 {
      SmallLettersAscend(i - 33);
    }
  }

  lemma SymbolZero()
    ensures Symbol(0) == '1'
  {
  }

  lemma {:induction false} SymbolOrder(i: nat, j: nat)
    requires i < j < 58
    ensures Symbol(i) < Symbol(j)
  {
    hide Symbol;
    Ascends(j - 1);
    if i + 1 < j {
      SymbolOrder(i, j - 1);
    }
  }

  /** The symbols of a group that runs from a character to another. */
  lemma DigitsAre(i: nat)
    requires i < 9
    ensures Symbol(i) as int == '1' as int + i
  {
    assert ALPHABET[i] == "123456789"[i];
  }

  lemma CapitalsAre(i: nat)
    requires i < 24
    ensures Symbol(9 + i) as int == 'A' as int + i + (if i < 8 then 0 else if i < 13 then 1 else 2)
  {
    assert ALPHABET[9 + i] == "ABCDEFGHJKLMNPQRSTUVWXYZ"[i];
  }

  lemma SmallLettersAre(i: nat)
    requires i < 25
    ensures Symbol(33 + i) as int == 'a' as int + i + if i < 11 then 0 else 1
  {
    assert ALPHABET[33 + i] == "abcdefghijkmnopqrstuvwxyz"[i];
  }

  /** The alphabet: the digits but 0, the capitals but I and O, the small letters but l. */
  lemma AlphabetIs(c: char)
    ensures IndexOf(c) >= 0 <==>
            || '1' <= c <= '9'
            || ('A' <= c <= 'Z' && c != 'I' && c != 'O')
            || ('a' <= c <= 'z' && c != 'l')
  {
    hide Symbol;
    var i := IndexOf(c);
    if 0 <= i < 9 {
      DigitsAre(i);
    } else if 9 <= i < 33 {
      CapitalsAre(i - 9);
    } else if i >= 33 {
      SmallLettersAre(i - 33);
    } else if '1' <= c <= '9' {
      DigitsAre(c as int - '1' as int);
    } else if 'A' <= c <= 'Z' && c != 'I' && c != 'O' {
      var k := c as int - 'A' as int;
      CapitalsAre(if k < 8 then k else if k < 14 then k - 1 else k - 2);
    } else if 'a' <= c <= 'z' && c != 'l' {
      var k := c as int - 'a' as int;
      SmallLettersAre(if k < 11 then k else k - 1);
    }
  }

  /** The alphabet has no repeated character, so indexOf inverts indexing. */
  lemma IndexOfSymbol(i: nat)
    requires i < 58
    ensures IndexOf(Symbol(i)) == i
  {
    hide Symbol;
    var r := IndexOf(Symbol(i));
    if r < i {
      SymbolOrder(r, i);
    } else if r > i {
      SymbolOrder(i, r);
    }
  }
}
