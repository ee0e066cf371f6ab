/** What hexadecimal digits mean. */
module HexLaws {
  import opened HexNumbers

  const LOWER: string := "0123456789abcdef"
  const UPPER: string := "0123456789ABCDEF"

  /** The digits, in either case, stand for 0 to 15 in this order, and no other character is one. */
  lemma DigitMeaning(c: char, k: nat)
    requires k < 16
    ensures IsHexDigit(LOWER[k]) && HexDigitValue(LOWER[k]) == k && IsHexDigit(UPPER[k]) && HexDigitValue(UPPER[k]) == k
    ensures IsHexDigit(c) <==> c in LOWER || c in UPPER
  {
    if IsHexDigit(c) {
      var v := HexDigitValue(c);
      assert 'a' <= c <= 'f' ==> LOWER[v] == c;
      assert 'A' <= c <= 'F' ==> UPPER[v] == c;
      assert '0' <= c <= '9' ==> LOWER[v] == c;
    }
  }

  /** How n is written in base 16, with capital letters where `capitals` says so. */
  function Written(n: nat, capitals: nat -> bool): string {
    (if n < 16 then "" else Written(n / 16, capitals)) + [if capitals(n) then UPPER[n % 16] else LOWER[n % 16]]
  }

  /** A number written in base 16 is read as itself. */
  lemma {:induction false} WrittenValue(n: nat, capitals: nat -> bool)
    ensures AllHex(Written(n, capitals)) && HexValue(Written(n, capitals)) == n
  {
    var digits := Written(n, capitals);
    DigitMeaning('0', n % 16);
    if n < 16 {
      assert digits[..0] == "" && |digits| == 1;
    } else {
      WrittenValue(n / 16, capitals);
      assert digits[..|digits| - 1] == Written(n / 16, capitals);
    }
  }
}
