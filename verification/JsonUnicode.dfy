/** What a \u escape stands for, in terms of RFC 3629: the parser's bytes are the UTF-8 form of the scalar
    value, whichever way its hexadecimal digits are written. */
module JsonUnicode {
  import opened Json

  // ----- Hexadecimal digits -----

  const LOWER := "0123456789abcdef"
  const UPPER := "0123456789ABCDEF"

  predicate IsDigitOf(c: char, n: int) {
    0 <= n < 16 && (c == LOWER[n] || c == UPPER[n])
  }

  /** The digits are those of the two alphabets, and nothing else. */
  lemma HexValueIff(c: char, n: int)
    requires n != -1
    ensures HexValue(c) == n <==> IsDigitOf(c, n)
  {
    if 0 <= n < 10 {
      assert LOWER[n] == ('0' as int + n) as char == UPPER[n];
    } else if 10 <= n < 16 {
      assert LOWER[n] == ('a' as int + n - 10) as char && UPPER[n] == ('A' as int + n - 10) as char;
    }
  }

  function FourDigits(a: int, b: int, c: int, d: int): int {
    ((a * 16 + b) * 16 + c) * 16 + d
  }

  /** Four digits that stand for a 16-bit unit. */
  predicate Spells(t: string, n: int) {
    && |t| == 4 && (forall i | 0 <= i < 4 :: HexValue(t[i]) != -1)
    && n == FourDigits(HexValue(t[0]), HexValue(t[1]), HexValue(t[2]), HexValue(t[3]))
  }

  predicate AllHex(s: string, n: nat) {
    n <= |s| && forall i | 0 <= i < n :: HexValue(s[i]) != -1
  }

  function Horner(s: string, n: nat, acc: int): int
    requires n <= |s|
    decreases n
  {
    if n == 0 then acc else Horner(s[1..], n - 1, acc * 16 + HexValue(s[0]))
  }

  /** So many digits are read exactly where they are. */
  lemma {:induction false} DigitsReadIff(s: string, n: nat, acc: nat)
    ensures QuadHex(s, n, acc).ok <==> AllHex(s, n)
    ensures AllHex(s, n) ==> QuadHex(s, n, acc) == Result(true, Horner(s, n, acc), s[n..])
    decreases n
  {
    if n > 0 && s != "" {
      var tail := s[1..];
      assert AllHex(s, n) <==> HexValue(s[0]) != -1 && AllHex(tail, n - 1) by {
        assert forall i | 0 < i < |s| :: s[i] == tail[i - 1];
        assert forall i | 0 <= i < |tail| :: tail[i] == s[i + 1];
      }
      if HexValue(s[0]) != -1 {
        DigitsReadIff(tail, n - 1, acc * 16 + HexValue(s[0]));
        assert AllHex(s, n) ==> tail[n - 1..] == s[n..];
      }
    }
  }

  lemma HornerFour(s: string, a: int, b: int, c: int, d: int)
    requires |s| >= 4 && HexValue(s[0]) == a && HexValue(s[1]) == b && HexValue(s[2]) == c && HexValue(s[3]) == d
    ensures Horner(s, 4, 0) == FourDigits(a, b, c, d)
  {
    assert s[1..][1..] == s[2..] && s[2..][1..] == s[3..];
    assert Horner(s[3..], 1, (a * 16 + b) * 16 + c) == FourDigits(a, b, c, d);
    assert Horner(s[2..], 2, a * 16 + b) == FourDigits(a, b, c, d);
    assert Horner(s[1..], 3, a) == FourDigits(a, b, c, d);
  }

  /** A unit is read exactly where four characters spell one. */
  lemma UnitReadsIff(s: string)
    ensures var r := QuadHex(s, 4, 0);
            && (r.ok <==> AllHex(s, 4))
            && (r.ok ==> Spells(s[..4], r.val) && r.rest == s[4..])
  {
    DigitsReadIff(s, 4, 0);
    if AllHex(s, 4) {
      HornerFour(s, HexValue(s[0]), HexValue(s[1]), HexValue(s[2]), HexValue(s[3]));
    }
  }

  lemma UnitReads(t: string, n: int, rest: string)
    requires Spells(t, n)
    ensures QuadHex(t + rest, 4, 0) == Result(true, n, rest)
  {
    var s := t + rest;
    UnitReadsIff(s);
    assert s[..4] == t && s[4..] == rest;
    assert forall i | 0 <= i < 4 :: s[i] == t[i];
    assert AllHex(s, 4);
  }

  // ----- UTF-8 -----

  predicate IsScalar(u: int) {
    0 <= u < 0xd800 || 0xe000 <= u < 0x110000
  }

  /** The value a sequence of one to four bytes stands for. */
  function Weighed(b: string): int
    requires 1 <= |b| <= 4
  {
    if |b| == 1 then b[0] as int
    else if |b| == 2 then (b[0] as int - 0xc0) * 64 + (b[1] as int - 0x80)
    else if |b| == 3 then ((b[0] as int - 0xe0) * 64 + (b[1] as int - 0x80)) * 64 + (b[2] as int - 0x80)
    else
      (((b[0] as int - 0xf0) * 64 + (b[1] as int - 0x80)) * 64 + (b[2] as int - 0x80)) * 64 + (b[3] as int - 0x80)
  }

  /** The UTF-8 form of a scalar value (section 3 of RFC 3629): the shortest length, the lead byte that
      announces it, continuation bytes behind it, and together the value. */
  ghost predicate IsUtf8Of(b: string, u: int) {
    && |b| == (if u < 0x80 then 1 else if u < 0x800 then 2 else if u < 0x10000 then 3 else 4)
    && (|b| == 1 ==> b[0] as int < 0x80)
    && (|b| == 2 ==> 0xc0 <= b[0] as int < 0xe0)
    && (|b| == 3 ==> 0xe0 <= b[0] as int < 0xf0)
    && (|b| == 4 ==> 0xf0 <= b[0] as int < 0xf8)
    && (forall i | 1 <= i < |b| :: 0x80 <= b[i] as int < 0xc0)
    && Weighed(b) == u
  }

  lemma FourBytes(u: int)
    requires 0x10000 <= u < 0x110000
    ensures IsUtf8Of(Utf8(u), u)
  {
    assert u / 262144 * 64 + u / 4096 % 64 == u / 4096;
    assert u / 4096 * 64 + u / 64 % 64 == u / 64;
  }

  lemma Utf8IsUtf8(u: int)
    requires 0 <= u < 0x110000
    ensures IsUtf8Of(Utf8(u), u)
  {
    if 0x800 <= u < 0x10000 {
      assert u / 4096 * 64 + u / 64 % 64 == u / 64;
    } else if 0x10000 <= u {
      FourBytes(u);
    }
  }

  lemma SextetsAgree(x: int, y: int, z: int, w: int)
    requires x * 64 + y == z * 64 + w && 0 <= y < 64 && 0 <= w < 64
    ensures x == z && y == w
  {
  }

  /** What the bytes before the last one stand for. */
  function Shifted(b: string): int
    requires 2 <= |b| <= 4
  {
    if |b| == 2 then b[0] as int - 0xc0
    else if |b| == 3 then (b[0] as int - 0xe0) * 64 + (b[1] as int - 0x80)
    else ((b[0] as int - 0xf0) * 64 + (b[1] as int - 0x80)) * 64 + (b[2] as int - 0x80)
  }

  /** There is only one such form. */
  lemma Utf8IsUnique(a: string, b: string, u: int)
    requires IsUtf8Of(a, u) && IsUtf8Of(b, u)
    ensures a == b
  {
    assert |a| == |b|;
    if |a| > 1 {
      SextetsAgree(Shifted(a), a[|a| - 1] as int - 0x80, Shifted(b), b[|b| - 1] as int - 0x80);
    }
    if |a| == 3 {
      SextetsAgree(a[0] as int - 0xe0, a[1] as int - 0x80, b[0] as int - 0xe0, b[1] as int - 0x80);
    } else if |a| == 4 {
      var x, y := (a[0] as int - 0xf0) * 64 + (a[1] as int - 0x80), (b[0] as int - 0xf0) * 64 + (b[1] as int - 0x80);
      SextetsAgree(x, a[2] as int - 0x80, y, b[2] as int - 0x80);
      SextetsAgree(a[0] as int - 0xf0, a[1] as int - 0x80, b[0] as int - 0xf0, b[1] as int - 0x80);
    }
  }

  // ----- Escapes -----

  /** A text that stands for a scalar value behind \u: one unit, or the two of a surrogate pair. */
  predicate EscapeText(t: string, u: int) {
    if u < 0x10000 then IsScalar(u) && Spells(t, u)
    else
      && u < 0x110000 && |t| == 10
      && Spells(t[..4], 0xd800 + (u - 0x10000) / 1024)
      && t[4..6] == "\\u"
      && Spells(t[6..], 0xdc00 + (u - 0x10000) % 1024)
  }

  /** Every scalar value, in every spelling and before any text, reads as its UTF-8 form. */
  lemma EscapeReads(t: string, u: int, rest: string)
    requires EscapeText(t, u)
    ensures var r := EscapeSequence(['u'] + (t + rest)); r.ok && IsUtf8Of(r.val, u) && r.rest == rest
  {
    var s := t + rest;
    assert (['u'] + s)[1..] == s;
    if u < 0x10000 {
      UnitReads(t, u, rest);
    } else {
      PairReads(t, u, rest);
    }
    Utf8IsUtf8(u);
  }

  lemma PairReads(t: string, u: int, rest: string)
    requires EscapeText(t, u) && u >= 0x10000
    ensures CodePoint(t + rest) == Result(true, Utf8(u), rest)
  {
    var high, low := 0xd800 + (u - 0x10000) / 1024, 0xdc00 + (u - 0x10000) % 1024;
    var tail := "\\u" + (t[6..] + rest);
    PairText(t, rest);
    UnitReads(t[..4], high, tail);
    assert tail[1..][1..] == t[6..] + rest;
    UnitReads(t[6..], low, rest);
    PairValue(u);
  }

  lemma PairText(t: string, rest: string)
    requires |t| == 10 && t[4..6] == "\\u"
    ensures t + rest == t[..4] + ("\\u" + (t[6..] + rest))
  {
    assert t == t[..4] + (t[4..6] + t[6..]);
  }

  lemma PairValue(u: int)
    requires 0x10000 <= u < 0x110000
    ensures var high, low := 0xd800 + (u - 0x10000) / 1024, 0xdc00 + (u - 0x10000) % 1024;
            && 0xd800 <= high < 0xdc00 <= low <= 0xdfff
            && (high - 0xd800) * 1024 + (low - 0xdc00) + 0x10000 == u
  {
  }

  /** And nothing else is accepted: behind \u stands the text of a scalar value. */
  lemma AcceptedEscape(s: string) returns (t: string, u: int)
    requires CodePoint(s).ok
    ensures EscapeText(t, u) && s == t + CodePoint(s).rest && IsUtf8Of(CodePoint(s).val, u)
  {
    UnitReadsIff(s);
    UnitBound(s);
    var unit := QuadHex(s, 4, 0).val;
    assert unit >= 0;
    if !(0xd800 <= unit <= 0xdfff) {
      t, u := s[..4], unit;
      Utf8IsUtf8(u);
    } else {
      t, u := AcceptedPair(s, unit);
    }
  }

  lemma AcceptedPair(s: string, high: int) returns (t: string, u: int)
    requires |s| >= 4 && Spells(s[..4], high) && 0xd800 <= high < 0xdc00 && LowSurrogate(s[4..], high).ok
    ensures var r := LowSurrogate(s[4..], high); EscapeText(t, u) && s == t + r.rest && IsUtf8Of(r.val, u)
  {
    assert s[4..][1..] == s[5..] && |s| > 5 && s[5..][1..] == s[6..];
    var tail := s[6..];
    UnitBound(tail);
    UnitReadsIff(tail);
    var low := QuadHex(tail, 4, 0).val;
    t, u := s[..10], (high - 0xd800) * 1024 + (low - 0xdc00) + 0x10000;
    PairParts(high, low);
    PairSlices(s);
    Utf8IsUtf8(u);
  }

  lemma PairParts(high: int, low: int)
    requires 0xd800 <= high < 0xdc00 <= low <= 0xdfff
    ensures var u := (high - 0xd800) * 1024 + (low - 0xdc00) + 0x10000;
            && 0x10000 <= u < 0x110000
            && 0xd800 + (u - 0x10000) / 1024 == high && 0xdc00 + (u - 0x10000) % 1024 == low
  {
  }

  lemma PairSlices(s: string)
    requires |s| >= 10
    ensures s[..10][..4] == s[..4] && s[..10][4..6] == [s[4], s[5]] && s[..10][6..] == s[6..][..4]
    ensures s[..10] + s[6..][4..] == s
  {
    assert s[6..][4..] == s[10..];
  }

  /** The other escapes (section 7 of RFC 8259). */
  lemma ShortEscapeReads(c: char, rest: string)
    requires c != 'u'
    ensures var r, code := EscapeSequence([c] + rest), c as int;
            if code in {0x22, 0x5c, 0x2f} then r == Result(true, [c], rest)
            else if code == 0x62 then r == Result(true, [0x08 as char], rest)
            else if code == 0x66 then r == Result(true, [0x0c as char], rest)
            else if code == 0x6e then r == Result(true, [0x0a as char], rest)
            else if code == 0x72 then r == Result(true, [0x0d as char], rest)
            else if code == 0x74 then r == Result(true, [0x09 as char], rest)
            else !r.ok
  {
    assert ([c] + rest)[1..] == rest;
  }
}
