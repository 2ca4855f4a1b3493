/** The text base64 writes, character by character, and what each character is read as. */
module Base64Format {
  import opened Common
  import opened Bytes
  import opened Base64

  // ----- The alphabet (RFC 4648, table 1) -----

  const UPPER := "ABCDEFGHIJKLMNOPQRSTUVWXYZ"
  const LOWER := "abcdefghijklmnopqrstuvwxyz"
  const DIGITS := "0123456789"
  const ALPHABET := UPPER + LOWER + DIGITS + "+/"

  lemma UpperDigit(n: int)
    requires 0 <= n < 26
    ensures |UPPER| == 26 && Digit(n) == UPPER[n]
  {
  }

  lemma LowerDigit(n: int)
    requires 0 <= n < 26
    ensures |LOWER| == 26 && Digit(26 + n) == LOWER[n]
  {
  }

  lemma DecimalDigit(n: int)
    requires 0 <= n < 10
    ensures |DIGITS| == 10 && Digit(52 + n) == DIGITS[n]
  {
  }

  lemma DigitIsInAlphabet(n: int)
    requires 0 <= n < 64
    ensures |ALPHABET| == 64 && Digit(n) == ALPHABET[n]
  {
    assert |UPPER| == 26 && |LOWER| == 26 && |DIGITS| == 10;
    if n < 26 {
      UpperDigit(n);
    } else if n < 52 {
      LowerDigit(n - 26);
    } else if n < 62 {
      DecimalDigit(n - 52);
    } else {
      assert ALPHABET[62] == '+' && ALPHABET[63] == '/';
    }
  }

  /** The place of a character in the alphabet; everything else counts as the first. */
  lemma UndigitIsPlace(c: char)
    ensures |ALPHABET| == 64
    ensures if c in ALPHABET then ALPHABET[Undigit(c)] == c else Undigit(c) == 0
  {
    var n := Undigit(c);
    DigitIsInAlphabet(n);
    if c in ALPHABET {
      var i :| 0 <= i < |ALPHABET| && ALPHABET[i] == c;
      DigitIsInAlphabet(i);
      UndigitOfDigit(i);
    }
  }

  /** The up to three bytes of group g as one number, zeros for those that are not there. */
  function GroupNumber(d: seq<byte>, g: nat): (n: nat)
    requires 3 * g < |d|
    ensures n < 0x100_0000
  {
    d[3 * g] as int * 0x1_0000
    + (if 3 * g + 1 < |d| then d[3 * g + 1] as int * 0x100 else 0)
    + if 3 * g + 2 < |d| then d[3 * g + 2] as int else 0
  }

  /** The first byte's digits and those of the bytes behind it, `count` in all; a digit without a byte of
      its own is padding. */
  predicate HasDigits(n: nat, count: nat, text: string)
    requires n < 0x100_0000
  {
    && |text| == 4
    && text[0] == Digit(n / 0x4_0000) && text[1] == Digit(n / 0x1000 % 64)
    && text[2] == (if count > 1 then Digit(n / 64 % 64) else PAD)
    && text[3] == if count > 2 then Digit(n % 64) else PAD
  }

  lemma Digits64(a: nat, b: nat, c: nat, d: nat)
    requires a < 64 && b < 64 && c < 64 && d < 64
    ensures var n := a * 0x4_0000 + b * 0x1000 + c * 64 + d;
            a == n / 0x4_0000 && b == n / 0x1000 % 64 && c == n / 64 % 64 && d == n % 64
  {
    var n := a * 0x4_0000 + b * 0x1000 + c * 64 + d;
    assert n / 64 == a * 0x1000 + b * 64 + c;
    assert n / 0x1000 == a * 64 + b;
  }

  /** The four characters of one to three bytes, given as the number they make. */
  lemma GroupOfThree(x: byte, y: byte, z: byte)
    ensures var n := x as int * 0x1_0000 + y as int * 0x100 + z as int;
            && n < 0x100_0000
            && x / 4 == n / 0x4_0000 && x % 4 * 16 + y / 16 == n / 0x1000 % 64
            && y % 16 * 4 + z / 64 == n / 64 % 64 && z % 64 == n % 64
  {
    Digits64(x / 4, x % 4 * 16 + y / 16, y % 16 * 4 + z / 64, z % 64);
  }

  lemma Group3Digits(x: byte, y: byte, z: byte)
    ensures var n := x as int * 0x1_0000 + y as int * 0x100 + z as int;
            n < 0x100_0000 && HasDigits(n, 3, Group3(x, y, z))
  {
    GroupOfThree(x, y, z);
  }

  lemma Group2Digits(x: byte, y: byte)
    ensures var n := x as int * 0x1_0000 + y as int * 0x100; n < 0x100_0000 && HasDigits(n, 2, Group2(x, y))
  {
    GroupOfThree(x, y, 0);
  }

  lemma Group1Digits(x: byte)
    ensures var n := x as int * 0x1_0000; n < 0x100_0000 && HasDigits(n, 1, Group1(x))
  {
    GroupOfThree(x, 0, 0);
  }

  lemma FirstGroup(d: seq<byte>)
    requires d != []
    ensures |Encoded(d)| >= 4 && HasDigits(GroupNumber(d, 0), |d|, Encoded(d)[..4])
  {
    if |d| == 1 {
      Group1Digits(d[0]);
    } else if |d| == 2 {
      Group2Digits(d[0], d[1]);
    } else {
      Group3Digits(d[0], d[1], d[2]);
      EncodedStarts(d);
    }
  }

  lemma EncodedStarts(d: seq<byte>)
    requires |d| >= 3
    ensures |Encoded(d)| >= 4 && Encoded(d)[..4] == Group3(d[0], d[1], d[2]) && Encoded(d)[4..] == Encoded(d[3..])
  {
    Halves(Group3(d[0], d[1], d[2]), Encoded(d[3..]));
  }

  lemma Halves(group: string, rest: string)
    ensures (group + rest)[..|group|] == group && (group + rest)[|group|..] == rest
  {
  }

  lemma Shifted(s: string, rest: string, k: nat)
    requires |s| == 4 + |rest| && s[4..] == rest && 4 <= k && k + 4 <= |s|
    ensures s[k..k + 4] == rest[k - 4..k]
  {
    var x, y := s[k..k + 4], rest[k - 4..k];
    forall i | 0 <= i < 4 ensures x[i] == y[i] {
      assert rest[k - 4 + i] == s[4..][k - 4 + i];
    }
  }

  lemma {:induction false} GroupDigits(d: seq<byte>, g: nat)
    requires 3 * g < |d|
    ensures 4 * g + 4 <= |Encoded(d)| && HasDigits(GroupNumber(d, g), |d| - 3 * g, Encoded(d)[4 * g..4 * g + 4])
    decreases g
  {
    if g == 0 {
      FirstGroup(d);
    } else {
      GroupDigits(d[3..], g - 1);
      assert GroupNumber(d[3..], g - 1) == GroupNumber(d, g);
      EncodedStarts(d);
      Shifted(Encoded(d), Encoded(d[3..]), 4 * g);
    }
  }

  /** Every three bytes begun make one number and are written as its four digits in base 64, the most
      significant first. */
  lemma EveryGroup(d: seq<byte>, g: nat)
    requires 3 * g < |d|
    ensures |ALPHABET| == 64 && 4 * g + 4 <= |Encoded(d)| == 4 * ((|d| + 2) / 3)
    ensures var n, text := GroupNumber(d, g), Encoded(d)[4 * g..];
            && text[0] == ALPHABET[n / 0x4_0000] && text[1] == ALPHABET[n / 0x1000 % 64]
            && text[2] == (if 3 * g + 1 < |d| then ALPHABET[n / 64 % 64] else '=')
            && text[3] == if 3 * g + 2 < |d| then ALPHABET[n % 64] else '='
  {
    EncodedLength(d);
    GroupDigits(d, g);
    var n := GroupNumber(d, g);
    DigitIsInAlphabet(n / 0x4_0000);
    DigitIsInAlphabet(n / 0x1000 % 64);
    DigitIsInAlphabet(n / 64 % 64);
    DigitIsInAlphabet(n % 64);
  }
}
