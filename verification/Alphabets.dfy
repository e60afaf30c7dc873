/**
  The character classes the sources test, against the alphabets written out.
*/
module Alphabets {
  import opened Strings
  import opened ListingScanner

  const DIGITS := "0123456789"
  const UPPER := "ABCDEFGHIJKLM" + "NOPQRSTUVWXYZ"
  const LOWER := "abcdefghijklm" + "nopqrstuvwxyz"

  lemma DigitsInOrder()
    ensures |DIGITS| == 10 && forall i :: 0 <= i < 10 ==> DIGITS[i] as int == '0' as int + i
  {
    var s := DIGITS;
    assert s[0] == '0' && s[1] == '1' && s[2] == '2' && s[3] == '3' && s[4] == '4';
    assert s[5] == '5' && s[6] == '6' && s[7] == '7' && s[8] == '8' && s[9] == '9';
  }

  lemma UpperInOrder()
    ensures |UPPER| == 26 && forall i :: 0 <= i < 26 ==> UPPER[i] as int == 'A' as int + i
  {
    var s := UPPER;
    assert s[0] == 'A' && s[1] == 'B' && s[2] == 'C' && s[3] == 'D' && s[4] == 'E' && s[5] == 'F' && s[6] == 'G';
    assert s[7] == 'H' && s[8] == 'I' && s[9] == 'J' && s[10] == 'K' && s[11] == 'L' && s[12] == 'M' && s[13] == 'N';
    assert s[14] == 'O' && s[15] == 'P' && s[16] == 'Q' && s[17] == 'R' && s[18] == 'S' && s[19] == 'T' && s[20] == 'U';
    assert s[21] == 'V' && s[22] == 'W' && s[23] == 'X' && s[24] == 'Y' && s[25] == 'Z';
  }

  lemma LowerInOrder()
    ensures |LOWER| == 26 && forall i :: 0 <= i < 26 ==> LOWER[i] as int == 'a' as int + i
  {
    var s := LOWER;
    assert s[0] == 'a' && s[1] == 'b' && s[2] == 'c' && s[3] == 'd' && s[4] == 'e' && s[5] == 'f' && s[6] == 'g';
    assert s[7] == 'h' && s[8] == 'i' && s[9] == 'j' && s[10] == 'k' && s[11] == 'l' && s[12] == 'm' && s[13] == 'n';
    assert s[14] == 'o' && s[15] == 'p' && s[16] == 'q' && s[17] == 'r' && s[18] == 's' && s[19] == 't' && s[20] == 'u';
    assert s[21] == 'v' && s[22] == 'w' && s[23] == 'x' && s[24] == 'y' && s[25] == 'z';
  }

  /** Membership in an alphabet whose characters are consecutive. */
  lemma InOrderMembers(s: string, first: char, c: char)
    requires forall i :: 0 <= i < |s| ==> s[i] as int == first as int + i
    ensures c in s <==> first as int <= c as int < first as int + |s|
  {
    if first as int <= c as int < first as int + |s| {
      assert s[c as int - first as int] == c;
    }
  }

  lemma Members(c: char)
    ensures c in DIGITS <==> '0' <= c <= '9'
    ensures c in UPPER <==> 'A' <= c <= 'Z'
    ensures c in LOWER <==> 'a' <= c <= 'z'
  {
    hide DIGITS, UPPER, LOWER;
    DigitsInOrder();
    UpperInOrder();
    LowerInOrder();
    InOrderMembers(DIGITS, '0', c);
    InOrderMembers(UPPER, 'A', c);
    InOrderMembers(LOWER, 'a', c);
  }

  const HEX := "0123456789" + "abcdef"

  lemma HexMembers(c: char)
    ensures c in HEX <==> '0' <= c <= '9' || 'a' <= c <= 'f'
  {
    Members(c);
    assert HEX == DIGITS + "abcdef";
    hide DIGITS;
    InOrderMembers("abcdef", 'a', c);
  }

  /** The letter at one place of the upper-case alphabet becomes the one at that place of the lower-case one. */
  lemma LowerIsExact(s: string, i: nat)
    requires i < |s|
    ensures |UPPER| == |LOWER| == 26
    ensures if s[i] in UPPER then exists k :: 0 <= k < 26 && s[i] == UPPER[k] && Lower(s)[i] == LOWER[k]
            else Lower(s)[i] == s[i]
  {
    hide UPPER, LOWER;
    UpperInOrder();
    LowerInOrder();
    Members(s[i]);
    if s[i] in UPPER {
      var k := s[i] as int - 'A' as int;
      assert s[i] == UPPER[k] && Lower(s)[i] == LOWER[k];
    }
  }

  /** A version is made of digits and dots, and of nothing else. */
  lemma AllVersionIs(v: string)
    ensures AllVersion(v) <==> forall c | c in v :: c in DIGITS || c == '.'
  {
    hide DIGITS;
    forall i | 0 <= i < |v| ensures VersionChar(v[i]) <==> v[i] in DIGITS || v[i] == '.' {
      Members(v[i]);
    }
    if AllVersion(v) {
      forall c | c in v ensures c in DIGITS || c == '.' {
        var i :| 0 <= i < |v| && v[i] == c;
      }
    }
  }
}
