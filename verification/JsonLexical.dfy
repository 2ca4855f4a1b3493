/** The string and number literals of JSON texts, by their characters' codes: exactly which the parser
    accepts, and what they stand for. */
module JsonLexical {
  import opened Common
  import opened Json
  import opened JsonRoundTrip
  import U = JsonUnicode

  // ----- Strings -----

  /** A piece of a string literal: a byte as it is, a short escape, or a \u escape with its scalar value. */
  datatype Piece = Raw(c: char) | Short(c: char) | Unicode(t: string, u: int)

  predicate GoodPiece(p: Piece) {
    match p
    case Raw(c) => c as int >= 0x20 && c as int !in {0x22, 0x5c}
    case Short(c) => c as int in {0x22, 0x5c, 0x2f, 0x62, 0x66, 0x6e, 0x72, 0x74}
    case Unicode(t, u) => U.EscapeText(t, u)
  }

  function PieceText(p: Piece): string {
    match p
    case Raw(c) => [c]
    case Short(c) => ['\\'] + [c]
    case Unicode(t, _) => ['\\'] + (['u'] + t)
  }

  function ShortByte(c: char): char {
    if c as int == 0x62 then 0x08 as char
    else if c as int == 0x66 then 0x0c as char
    else if c as int == 0x6e then 0x0a as char
    else if c as int == 0x72 then 0x0d as char
    else if c as int == 0x74 then 0x09 as char
    else c
  }

  /** The bytes a piece stands for; those of a \u escape are the UTF-8 form (JsonUnicode.Utf8IsUtf8). */
  function PieceBytes(p: Piece): string
    requires GoodPiece(p)
  {
    match p
    case Raw(c) => [c]
    case Short(c) => [ShortByte(c)]
    case Unicode(_, u) => Utf8(u)
  }

  ghost predicate GoodPieces(ps: seq<Piece>) {
    forall i | 0 <= i < |ps| :: GoodPiece(ps[i])
  }

  function PiecesText(ps: seq<Piece>): string {
    if ps == [] then "" else PieceText(ps[0]) + PiecesText(ps[1..])
  }

  ghost function PiecesBytes(ps: seq<Piece>): string
    requires GoodPieces(ps)
  {
    if ps == [] then "" else PieceBytes(ps[0]) + PiecesBytes(ps[1..])
  }

  lemma Codes(c: char)
    ensures c == '"' <==> c as int == 0x22
    ensures c == '\\' <==> c as int == 0x5c
    ensures c < ' ' <==> c as int < 0x20
    ensures c == 'u' <==> c as int == 0x75
  {
    assert '"' as int == 0x22 && '\\' as int == 0x5c && ' ' as int == 0x20 && 'u' as int == 0x75;
  }

  lemma Cons(c: char, rest: string)
    ensures ([c] + rest)[0] == c && ([c] + rest)[1..] == rest && [c] + rest != ""
  {
  }

  lemma EscapeIsRead(p: Piece, after: string)
    requires GoodPiece(p) && !p.Raw?
    ensures PieceText(p) + after == ['\\'] + (PieceText(p)[1..] + after)
    ensures EscapeSequence(PieceText(p)[1..] + after) == Result(true, PieceBytes(p), after)
  {
    if p.Short? {
      Codes(p.c);
      assert PieceText(p)[1..] == [p.c];
      U.ShortEscapeReads(p.c, after);
    } else {
      assert PieceText(p)[1..] + after == ['u'] + (p.t + after);
      U.EscapeReads(p.t, p.u, after);
      U.Utf8IsUtf8(p.u);
      U.Utf8IsUnique(EscapeSequence(['u'] + (p.t + after)).val, Utf8(p.u), p.u);
    }
  }

  lemma PieceReads(p: Piece, after: string, acc: string)
    requires GoodPiece(p)
    ensures StringTail(PieceText(p) + after, acc) == StringTail(after, acc + PieceBytes(p))
  {
    if p.Raw? {
      Codes(p.c);
      Cons(p.c, after);
    } else {
      EscapeIsRead(p, after);
      Codes('\\');
      Cons('\\', PieceText(p)[1..] + after);
    }
  }

  /** A string literal in any spelling reads as what its pieces stand for. */
  lemma {:induction false} PiecesRead(ps: seq<Piece>, rest: string, acc: string)
    requires GoodPieces(ps)
    ensures StringTail(PiecesText(ps) + (['"'] + rest), acc) == Result(true, acc + PiecesBytes(ps), rest)
    decreases |ps|
  {
    var quote := ['"'] + rest;
    if ps == [] {
      assert PiecesText(ps) + quote == quote && acc + PiecesBytes(ps) == acc;
      Codes('"');
      Cons('"', rest);
    } else {
      Assoc(PieceText(ps[0]), PiecesText(ps[1..]), quote);
      PieceReads(ps[0], PiecesText(ps[1..]) + quote, acc);
      PiecesRead(ps[1..], rest, acc + PieceBytes(ps[0]));
      Assoc(acc, PieceBytes(ps[0]), PiecesBytes(ps[1..]));
    }
  }

  lemma AcceptedPiece(s: string) returns (p: Piece)
    requires EscapeSequence(s).ok
    ensures GoodPiece(p) && !p.Raw? && PieceBytes(p) == EscapeSequence(s).val
    ensures ['\\'] + s == PieceText(p) + EscapeSequence(s).rest
  {
    Codes(s[0]);
    assert s == [s[0]] + s[1..];
    if s[0] == 'u' {
      var t, u := U.AcceptedEscape(s[1..]);
      p := Unicode(t, u);
      U.Utf8IsUtf8(u);
      U.Utf8IsUnique(CodePoint(s[1..]).val, Utf8(u), u);
    } else {
      U.ShortEscapeReads(s[0], s[1..]);
      p := Short(s[0]);
    }
  }

  lemma ConsPiece(p: Piece, ps: seq<Piece>)
    requires GoodPiece(p) && GoodPieces(ps)
    ensures GoodPieces([p] + ps)
    ensures PiecesText([p] + ps) == PieceText(p) + PiecesText(ps)
    ensures PiecesBytes([p] + ps) == PieceBytes(p) + PiecesBytes(ps)
  {
    assert ([p] + ps)[1..] == ps;
  }

  /** And only such literals are accepted. */
  lemma {:induction false} AcceptedString(s: string, acc: string) returns (ps: seq<Piece>)
    requires StringTail(s, acc).ok
    ensures GoodPieces(ps) && s == PiecesText(ps) + (['"'] + StringTail(s, acc).rest)
    ensures StringTail(s, acc).val == acc + PiecesBytes(ps)
    decreases |s|
  {
    Codes(s[0]);
    assert s == [s[0]] + s[1..];
    if s[0] == '"' {
      ps := [];
      assert PiecesText(ps) + s == s && acc + PiecesBytes(ps) == acc;
    } else {
      var p, after := Raw(s[0]), s[1..];
      if s[0] == '\\' {
        p := AcceptedPiece(s[1..]);
        after := EscapeSequence(s[1..]).rest;
      }
      var others := AcceptedString(after, acc + PieceBytes(p));
      ps := [p] + others;
      ConsPiece(p, others);
      Assoc(PieceText(p), PiecesText(others), ['"'] + StringTail(s, acc).rest);
      Assoc(acc, PieceBytes(p), PiecesBytes(others));
    }
  }

  // ----- Numbers -----

  datatype Exponent = NoExponent | Exponent(e: char, sign: string, digits: string)

  datatype Numeral = Numeral(minus: bool, whole: string, point: bool, frac: string, exponent: Exponent)

  predicate AreDigits(s: string) {
    forall i | 0 <= i < |s| :: 0x30 <= s[i] as int <= 0x39
  }

  predicate GoodExponent(x: Exponent) {
    x.NoExponent? || (x.e as int in {0x45, 0x65} && x.sign in {"", "+", "-"} && x.digits != "" && AreDigits(x.digits))
  }

  /** Digits before or behind the point, at the beginning a digit or a minus sign. Other than in RFC 8259
      leading zeros, a missing whole part behind the sign and a missing fraction are allowed. */
  predicate GoodNumeral(n: Numeral) {
    && AreDigits(n.whole) && AreDigits(n.frac) && (n.whole != "" || n.frac != "")
    && (!n.point ==> n.frac == "") && (!n.minus ==> n.whole != "") && GoodExponent(n.exponent)
  }

  function ExponentText(x: Exponent): string {
    if x.NoExponent? then "" else [x.e] + (x.sign + x.digits)
  }

  function Tail(n: Numeral): string {
    (if n.point then ['.'] + n.frac else "") + ExponentText(n.exponent)
  }

  function NumeralText(n: Numeral): string {
    (if n.minus then "-" else "") + (n.whole + Tail(n))
  }

  function Decimal(s: string): nat
    requires AreDigits(s)
  {
    if s == "" then 0 else Decimal(s[..|s| - 1]) * 10 + (s[|s| - 1] as int - 0x30)
  }

  /** A whole number in the range of int64 is its value; every other number is kept as it was written. */
  function NumeralValue(n: Numeral): Value
    requires GoodNumeral(n)
  {
    var i: int := if n.minus then 0 - Decimal(n.whole) else Decimal(n.whole);
    if !n.point && n.exponent.NoExponent? && INT64_MIN <= i <= INT64_MAX then Int(i) else Num(NumeralText(n))
  }

  lemma DigitCode(c: char)
    ensures IsDigit(c) <==> 0x30 <= c as int <= 0x39
    ensures c as int - '0' as int == c as int - 0x30
  {
    assert '0' as int == 0x30 && '9' as int == 0x39;
  }

  lemma {:induction false} RunOfDigits(s: string, after: string)
    requires AreDigits(s) && (after == "" || !IsDigit(after[0]))
    ensures DigitRun(s + after) == |s|
  {
    if s == "" {
      assert s + after == after;
    } else {
      DigitCode(s[0]);
      assert (s + after)[1..] == s[1..] + after;
      RunOfDigits(s[1..], after);
    }
  }

  lemma {:induction false} RunIsDigits(s: string)
    ensures AreDigits(s[..DigitRun(s)])
    ensures DigitRun(s) < |s| ==> !IsDigit(s[DigitRun(s)])
  {
    if s != "" && IsDigit(s[0]) {
      DigitCode(s[0]);
      RunIsDigits(s[1..]);
      var n := DigitRun(s);
      forall i | 0 <= i < n ensures 0x30 <= s[..n][i] as int <= 0x39 {
        assert i > 0 ==> s[i] == s[1..][..n - 1][i - 1];
      }
    }
  }

  lemma {:induction false} DecimalIsValue(s: string)
    requires AreDigits(s)
    ensures DigitRun(s) == |s| && DigitsValue(s, 0) == Decimal(s)
    decreases |s|
  {
    RunOfDigits(s, "");
    assert s + "" == s;
    if s != "" {
      var init, last := s[..|s| - 1], s[|s| - 1];
      DecimalIsValue(init);
      DigitCode(last);
      DigitsValueAppend(init, last, 0);
      assert init + [last] == s;
    }
  }

  lemma Marks()
    ensures '.' as int == 0x2e && 'e' as int == 0x65 && 'E' as int == 0x45 && '-' as int == 0x2d && '+' as int == 0x2b
  {
  }

  lemma TailStart(n: Numeral)
    requires GoodNumeral(n)
    ensures Tail(n) != "" ==> !IsDigit(Tail(n)[0])
    ensures Tail(n) == "" <==> !n.point && n.exponent.NoExponent?
  {
    Marks();
    if Tail(n) != "" {
      DigitCode(Tail(n)[0]);
    }
  }

  lemma UnsignedText(n: Numeral)
    requires GoodNumeral(n)
    ensures Unsigned(NumeralText(n)) == n.whole + Tail(n)
    ensures NumeralText(n) != "" && (NumeralText(n)[0] == '-' <==> n.minus)
  {
    Marks();
    if n.minus {
      Cons('-', n.whole + Tail(n));
    } else {
      assert "" + (n.whole + Tail(n)) == n.whole + Tail(n);
      DigitCode(n.whole[0]);
    }
  }

  lemma ExponentIsRead(x: Exponent)
    requires GoodExponent(x) && !x.NoExponent?
    ensures IsExponent(ExponentText(x))
  {
    Marks();
    Cons(x.e, x.sign + x.digits);
    DigitCode(x.digits[0]);
    assert Unsigned(x.sign + x.digits) == x.digits by {
      if x.sign == "" {
        assert x.sign + x.digits == x.digits;
      } else {
        assert (x.sign + x.digits)[1..] == x.digits;
      }
    }
    RunOfDigits(x.digits, "");
    assert x.digits + "" == x.digits;
  }

  lemma PointIsRead(n: Numeral)
    requires GoodNumeral(n)
    ensures var s := Tail(n);
            var frac := if s != "" && s[0] == '.' then DigitRun(s[1..]) else 0;
            && frac == |n.frac|
            && (if s != "" && s[0] == '.' then s[1 + frac..] else s) == ExponentText(n.exponent)
  {
    Marks();
    var x := ExponentText(n.exponent);
    if n.point {
      Assoc(['.'], n.frac, x);
      Cons('.', n.frac + x);
      if x != "" {
        DigitCode(x[0]);
      }
      RunOfDigits(n.frac, x);
      assert Tail(n)[1 + |n.frac|..] == x;
    } else {
      assert Tail(n) == x;
    }
  }

  /** strtoimax takes it all exactly if it is digits alone. */
  lemma IntegerReads(n: Numeral)
    requires GoodNumeral(n)
    ensures var i: int := if n.minus then 0 - Decimal(n.whole) else Decimal(n.whole);
            Int64Of(NumeralText(n))
            == if Tail(n) == "" && INT64_MIN <= i <= INT64_MAX then Some(i) else None
  {
    var s := n.whole + Tail(n);
    UnsignedText(n);
    TailStart(n);
    RunOfDigits(n.whole, Tail(n));
    if Tail(n) == "" {
      assert s == n.whole && n.whole != "";
      DecimalIsValue(n.whole);
    } else {
      assert |s| > |n.whole|;
    }
  }

  /** strtod takes it all. */
  lemma DoubleReads(n: Numeral)
    requires GoodNumeral(n)
    ensures IsDoubleLiteral(NumeralText(n))
  {
    var s := n.whole + Tail(n);
    UnsignedText(n);
    TailStart(n);
    RunOfDigits(n.whole, Tail(n));
    assert s[|n.whole|..] == Tail(n);
    PointIsRead(n);
    if !n.exponent.NoExponent? {
      ExponentIsRead(n.exponent);
    }
  }

  /** Every numeral is accepted, with its value. */
  lemma NumeralReads(n: Numeral)
    requires GoodNumeral(n)
    ensures NumberValue(NumeralText(n)) == Some(NumeralValue(n))
  {
    TailStart(n);
    IntegerReads(n);
    DoubleReads(n);
  }

  lemma SplitSign(t: string) returns (sign: string)
    ensures t == sign + Unsigned(t) && sign in {"", "+", "-"}
  {
    if t != "" && t[0] == '-' {
      sign := "-";
      assert t == "-" + t[1..];
    } else if t != "" && t[0] == '+' {
      sign := "+";
      assert t == "+" + t[1..];
    } else {
      sign := "";
      assert t == "" + t;
    }
  }

  lemma AllAreDigits(s: string)
    requires DigitRun(s) == |s|
    ensures AreDigits(s)
  {
    RunIsDigits(s);
    assert s[..|s|] == s;
  }

  lemma AcceptedExponent(s: string) returns (x: Exponent)
    requires IsExponent(s)
    ensures GoodExponent(x) && !x.NoExponent? && ExponentText(x) == s
  {
    Marks();
    AllAreDigits(Unsigned(s[1..]));
    var sign := SplitSign(s[1..]);
    x := Exponent(s[0], sign, Unsigned(s[1..]));
    assert s == [s[0]] + s[1..];
  }

  lemma PointParts(s: string)
    requires s != ""
    ensures DigitRun(s[1..]) <= |s| - 1 && s == [s[0]] + s[1..][..DigitRun(s[1..])] + s[1 + DigitRun(s[1..])..]
    ensures AreDigits(s[1..][..DigitRun(s[1..])])
  {
    var n := DigitRun(s[1..]);
    RunIsDigits(s[1..]);
    assert s[1..] == s[1..][..n] + s[1 + n..];
  }

  lemma AcceptedTail(s: string) returns (point: bool, frac: string, x: Exponent)
    requires s != "" ==> !IsDigit(s[0])
    requires var n := if s != "" && s[0] == '.' then DigitRun(s[1..]) else 0;
             var rest := if s != "" && s[0] == '.' then s[1 + n..] else s;
             rest == "" || IsExponent(rest)
    ensures AreDigits(frac) && (!point ==> frac == "") && GoodExponent(x)
    ensures s == (if point then ['.'] + frac else "") + ExponentText(x)
    ensures |frac| == if s != "" && s[0] == '.' then DigitRun(s[1..]) else 0
  {
    point, frac := s != "" && s[0] == '.', "";
    var rest := s;
    if point {
      PointParts(s);
      frac, rest := s[1..][..DigitRun(s[1..])], s[1 + DigitRun(s[1..])..];
    } else {
      assert s == "" + s;
    }
    x := NoExponent;
    if rest != "" {
      x := AcceptedExponent(rest);
    }
  }

  lemma SignIsSplit(lit: string)
    requires lit != "" && (IsDigit(lit[0]) || lit[0] == '-')
    ensures lit == (if lit[0] == '-' then "-" else "") + Unsigned(lit)
    ensures lit[0] != '-' ==> DigitRun(Unsigned(lit)) > 0
  {
    Marks();
    DigitCode(lit[0]);
    if lit[0] == '-' {
      assert lit == "-" + lit[1..];
    } else {
      assert "" + lit == lit;
    }
  }

  /** IsDoubleLiteral of what follows the sign. */
  predicate IsDoubleBody(s: string) {
    var whole := DigitRun(s);
    var t := s[whole..];
    var frac := if t != "" && t[0] == '.' then DigitRun(t[1..]) else 0;
    var rest := if t != "" && t[0] == '.' then t[1 + frac..] else t;
    whole + frac > 0 && (rest == "" || IsExponent(rest))
  }

  lemma BodyParts(s: string) returns (whole: string, point: bool, frac: string, x: Exponent)
    requires IsDoubleBody(s)
    ensures AreDigits(whole) && AreDigits(frac) && (!point ==> frac == "") && GoodExponent(x)
    ensures |whole| == DigitRun(s) && |whole| + |frac| > 0
    ensures s == whole + ((if point then ['.'] + frac else "") + ExponentText(x))
  {
    var k := DigitRun(s);
    RunIsDigits(s);
    whole := s[..k];
    point, frac, x := AcceptedTail(s[k..]);
    assert s == s[..k] + s[k..];
  }

  lemma AcceptedIsBody(lit: string)
    requires NumberValue(lit).Some?
    ensures IsDoubleBody(Unsigned(lit))
  {
    var s := Unsigned(lit);
    if Int64Of(lit).Some? {
      assert s[DigitRun(s)..] == "";
    }
  }

  lemma Assembled(lit: string, n: Numeral)
    requires lit != "" && (IsDigit(lit[0]) || lit[0] == '-') && n.minus == (lit[0] == '-')
    requires Unsigned(lit) == n.whole + Tail(n) && |n.whole| == DigitRun(Unsigned(lit))
    ensures NumeralText(n) == lit && (!n.minus ==> n.whole != "")
  {
    SignIsSplit(lit);
  }

  /** And only numerals are accepted. */
  lemma AcceptedNumeral(lit: string) returns (n: Numeral)
    requires NumberValue(lit).Some? && lit != "" && (IsDigit(lit[0]) || lit[0] == '-')
    ensures GoodNumeral(n) && NumeralText(n) == lit
  {
    AcceptedIsBody(lit);
    var whole, point, frac, x := BodyParts(Unsigned(lit));
    n := Numeral(lit[0] == '-', whole, point, frac, x);
    Assembled(lit, n);
  }
}
