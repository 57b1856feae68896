/**
 * Numbers as the categorizers see them: the textual form of the input, JavaScript's
 * unary `+` on such texts, and the plural operands derived from the text.
 */
module Numbers {
  import opened Text

  /** A JavaScript number as far as the plural rules can observe it. */
  datatype JsNum = Num(r: real) | NaN

  predicate IsDigit(c: char) { '0' <= c <= '9' }

  predicate AllDigits(s: string) {
    forall k | 0 <= k < |s| :: IsDigit(s[k])
  }

  /** The textual forms the model accepts: decimal digits with at most one dot. */
  predicate NumericText(s: string) {
    && (forall k | 0 <= k < |s| :: IsDigit(s[k]) || s[k] == '.')
    && (forall j, k | 0 <= j < k < |s| :: s[j] == '.' ==> s[k] != '.')
  }

  /** The textual form `num + ''` of a categorizer's input. */
  type Numeral = s: string | NumericText(s)

  function Pow10(k: nat): (p: nat)
    ensures p >= 1
  {
    if k == 0 then 1 else 10 * Pow10(k - 1)
  }

  function DigitValue(c: char): nat
    requires IsDigit(c)
  {
    c as int - '0' as int
  }

  lemma ScaleBelow(d: nat, rest: nat, p: nat)
    requires d <= 9 && rest < p
    ensures d * p + rest < 10 * p
  {
    assert d * p <= 9 * p;
  }

  /** The value of a run of decimal digits; the empty run is 0, as JavaScript reads `+""`. */
  function DigitsValue(s: string): (v: nat)
    requires AllDigits(s)
    ensures v < Pow10(|s|)
  {
    if s == [] then 0
    else
      var rest := DigitsValue(s[1..]);
      ScaleBelow(DigitValue(s[0]), rest, Pow10(|s| - 1));
      DigitValue(s[0]) * Pow10(|s| - 1) + rest
  }

  /** A numeric literal of a rule: a non-empty run of decimal digits. */
  predicate IsLiteral(s: string) {
    |s| > 0 && IsDigit(s[0]) && (|s| == 1 || IsLiteral(s[1..]))
  }

  type Literal = s: string | IsLiteral(s) witness "0"

  lemma {:induction false} LiteralDigits(s: string)
    requires IsLiteral(s)
    ensures AllDigits(s)
  {
    if |s| > 1 {
      LiteralDigits(s[1..]);
      forall k | 1 <= k < |s|
        ensures IsDigit(s[k])
      {
        assert s[k] == s[1..][k - 1];
      }
    }
  }

  predicate IsOctalDigit(c: char) { '0' <= c <= '7' }

  /**
   * A legacy octal literal of sloppy-mode JavaScript: a `0` followed by one or more digits,
   * all of them octal. `08` and `09` are not octal and stay decimal.
   */
  predicate LegacyOctal(s: string) {
    |s| >= 2 && s[0] == '0' && forall k | 0 <= k < |s| :: IsOctalDigit(s[k])
  }

  /** The value of a run of octal digits, read in base 8. */
  function OctalValue(s: string): (v: nat)
    requires forall k | 0 <= k < |s| :: IsOctalDigit(s[k])
    ensures s == [] ==> v == 0
  {
    if s == [] then 0
    else
      assert IsOctalDigit(s[|s| - 1]);
      8 * OctalValue(s[..|s| - 1]) + (s[|s| - 1] as int - '0' as int)
  }

  /**
   * The value of a literal as the engine reads it. The compiled condition becomes the body
   * of a `Function`, which is sloppy-mode JavaScript: a literal with a leading zero and
   * only octal digits is read in base 8; every other literal is decimal.
   */
  function LiteralValue(s: Literal): (v: nat)
    ensures !LegacyOctal(s) ==> AllDigits(s) && v == DigitsValue(s)
    ensures LegacyOctal(s) ==> v == OctalValue(s[1..])
  {
    LiteralDigits(s);
    if LegacyOctal(s) then
      assert s == [s[0]] + s[1..];
      OctalPrefix(s);
      OctalValue(s)
    else DigitsValue(s)
  }

  /** A leading zero adds nothing to an octal value. */
  lemma {:induction false} OctalPrefix(s: string)
    requires |s| >= 1 && s[0] == '0' && forall k | 0 <= k < |s| :: IsOctalDigit(s[k])
    ensures OctalValue(s) == OctalValue(s[1..])
  {
    if |s| > 1 {
      OctalPrefix(s[..|s| - 1]);
      assert s[..|s| - 1][1..] == s[1..][..|s[1..]| - 1];
    }
  }

  /**
   * `010` is eight in a rule, `08` is eight as well (not octal), `10` is ten, and `00` and
   * `0` are zero.
   */
  lemma LegacyOctalLiteral()
    ensures LiteralValue("010") == 8 && LiteralValue("017") == 15
    ensures LiteralValue("08") == 8 && LiteralValue("10") == 10
    ensures LiteralValue("00") == 0 && LiteralValue("0") == 0
  {
    assert LegacyOctal("010") && LegacyOctal("017") && LegacyOctal("00");
    assert "08"[1] == '8' && !LegacyOctal("08");
    assert "010"[1..] == "10" && "10"[..1] == "1" && "1"[..0] == "";
    assert "017"[1..] == "17" && "17"[..1] == "1";
    assert "00"[1..] == "0" && "0"[..0] == "";
    assert "08"[1..] == "8" && "10"[1..] == "0" && "8"[1..] == "" && "0"[1..] == "";
  }

  function DigitChar(d: nat): (c: char)
    requires d < 10
    ensures IsDigit(c) && DigitValue(c) == d
  {
    "0123456789"[d]
  }

  /** The canonical decimal text of a natural number (no leading zeros). */
  function NatText(k: nat): string {
    if k < 10 then [DigitChar(k)] else NatText(k / 10) + [DigitChar(k % 10)]
  }

  /** The text of `k` is a non-empty run of digits without a leading zero. */
  lemma {:induction false} NatTextCanonical(k: nat)
    ensures |NatText(k)| > 0 && AllDigits(NatText(k))
    ensures |NatText(k)| > 1 ==> NatText(k)[0] != '0'
  {
    if k >= 10 {
      NatTextCanonical(k / 10);
      DigitsValueSnoc(NatText(k / 10), DigitChar(k % 10));
      if |NatText(k / 10)| == 1 {
        assert k / 10 != 0;
      }
    }
  }

  lemma {:induction false} DigitsValueSnoc(s: string, c: char)
    requires AllDigits(s) && IsDigit(c)
    ensures AllDigits(s + [c])
    ensures DigitsValue(s + [c]) == 10 * DigitsValue(s) + DigitValue(c)
  {
    var t := s + [c];
    if s != [] {
      assert t[0] == s[0] && t[1..] == s[1..] + [c];
      DigitsValueSnoc(s[1..], c);
      var d, p := DigitValue(s[0]), Pow10(|s| - 1);
      assert Pow10(|t| - 1) == 10 * p;
      ShiftDigit(d, p, DigitsValue(s[1..]), DigitValue(c));
    } else {
      assert t[1..] == [];
    }
  }

  /** Appending a digit scales the leading digit's weight and the rest alike by ten. */
  lemma ShiftDigit(d: int, p: int, rest: int, e: int)
    ensures d * (10 * p) + (10 * rest + e) == 10 * (d * p + rest) + e
  {
  }

  /** Reading the canonical text of `k` back gives `k`. */
  lemma {:induction false} NatTextRoundTrip(k: nat)
    ensures AllDigits(NatText(k)) && DigitsValue(NatText(k)) == k
  {
    NatTextCanonical(k);
    if k >= 10 {
      NatTextRoundTrip(k / 10);
      NatTextCanonical(k / 10);
      DigitsValueSnoc(NatText(k / 10), DigitChar(k % 10));
    }
  }

  lemma DivBelowOne(q: real, p: real)
    requires 0.0 <= q < p
    ensures 0.0 <= q / p < 1.0
  {
    var r := q / p;
    assert r * p == q;
  }

  /** The value of `.ddd`: the digits read as a fraction, in [0, 1). */
  function Fraction(d: string): (r: real)
    requires AllDigits(d)
    ensures 0.0 <= r < 1.0
  {
    var p := Pow10(|d|) as real;
    var q := DigitsValue(d) as real;
    DivBelowOne(q, p);
    q / p
  }

  lemma DotSplit(s: Numeral, dot: nat)
    requires dot < |s| && s[dot] == '.'
    ensures AllDigits(s[..dot]) && AllDigits(s[dot + 1..])
    ensures '.' !in s[dot + 1..]
  {
  }

  /** JavaScript's unary `+` on a numeric text. */
  function ToNumber(s: Numeral): (x: JsNum)
    ensures x.NaN? <==> s == "."
    ensures '.' !in s ==> x == Num(DigitsValue(s) as real)
    ensures x.Num? ==> x.r >= 0.0
    ensures '.' in s && s != "." ==>
      var dot := IndexOf(s, '.');
      x == Num(DigitsValue(s[..dot]) as real + Fraction(s[dot + 1..]))
  {
    var dot := IndexOf(s, '.');
    if dot < 0 then Num(DigitsValue(s) as real)
    else if |s| == 1 then NaN
    else
      DotSplit(s, dot);
      Num(DigitsValue(s[..dot]) as real + Fraction(s[dot + 1..]))
  }

  /** The integer text of `k` reads back as `k`. */
  lemma NatTextToNumber(k: nat)
    ensures NumericText(NatText(k))
    ensures ToNumber(NatText(k)) == Num(k as real)
  {
    NatTextCanonical(k);
    NatTextRoundTrip(k);
  }

  /**
   * The plural operands handed to a categorizer: `n` is the text itself (JavaScript
   * compares it numerically), `i`, `f` and `v` are derived from it.
   */
  datatype Operands = Operands(n: Numeral, i: JsNum, f: nat, v: nat)

  /** The fraction digits of a text: everything after its dot. */
  function FractionDigits(text: Numeral): (d: string)
    requires '.' in text
    ensures AllDigits(d) && |d| < |text|
  {
    var dot := IndexOf(text, '.');
    text[dot + 1..]
  }

  /**
   * Operand derivation as the categorizers write it. Without a dot, `i` is the value,
   * `f` and `v` are 0. With a dot, `f` is the fraction digits read as an integer, `v`
   * counts the fraction digits AND the dot, and `i` is the value of the tail starting
   * at the dot (for instance `.01`), not the integer part.
   */
  function Derive(text: Numeral): (x: Operands)
    ensures x.n == text
    ensures x.v == 0 <==> '.' !in text
    ensures '.' !in text ==> x.f == 0 && x.i == Num(DigitsValue(text) as real)
    ensures '.' in text ==> x.v == |FractionDigits(text)| + 1 && x.f == DigitsValue(FractionDigits(text))
    ensures '.' in text && text[|text| - 1] == '.' ==> x.i == NaN
    ensures '.' in text && text[|text| - 1] != '.' ==> x.i == Num(Fraction(FractionDigits(text)))
  {
    var dot := IndexOf(text, '.');
    if dot > -1 then
      var tail := text[dot..];
      DotSplit(text, dot);
      IndexOfAt(tail, '.', 0);
      assert tail[..0] == [] && tail[1..] == text[dot + 1..];
      Operands(text, ToNumber(tail), DigitsValue(text[dot + 1..]), |text| - dot)
    else
      Operands(text, ToNumber(text), 0, 0)
  }

  /**
   * With a dot in the text, the `i` operand is never a positive whole number: it is NaN
   * (text ending in the dot) or a fraction in [0, 1).
   */
  lemma DottedIntegerOperand(text: Numeral)
    requires '.' in text
    ensures Derive(text).i.NaN? <==> text[|text| - 1] == '.'
    ensures Derive(text).i.Num? ==> 0.0 <= Derive(text).i.r < 1.0
  {
  }

  /**
   * The operands as UTS #35 Part 3, section 5.1 defines them: `i` is the integer
   * part and `v` the number of visible fraction digits; `n` and `f` as above.
   */
  function CldrOperands(text: Numeral): (x: Operands)
    ensures x.n == text
    ensures '.' !in text ==> x == Derive(text)
    ensures '.' in text ==> x.i.Num? && x.i.r >= 0.0 && x.i.r.Floor as real == x.i.r
    ensures '.' in text ==> x.v + IndexOf(text, '.') + 1 == |text|
  {
    var dot := IndexOf(text, '.');
    if dot > -1 then
      DotSplit(text, dot);
      Operands(text, Num(DigitsValue(text[..dot]) as real), DigitsValue(text[dot + 1..]), |text| - dot - 1)
    else
      Derive(text)
  }

  /** In the text `a.d` of digit runs `a` and `d`, the dot at `|a|` is the only one. */
  lemma DecimalChars(a: string, d: string)
    requires AllDigits(a) && AllDigits(d)
    ensures forall j | 0 <= j < |a + "." + d| ::
      ((a + "." + d)[j] == '.' <==> j == |a|) && (IsDigit((a + "." + d)[j]) || (a + "." + d)[j] == '.')
  {
    var s := a + "." + d;
    forall j | 0 <= j < |s|
      ensures s[j] == '.' <==> j == |a|
      ensures IsDigit(s[j]) || s[j] == '.'
    {
      if j < |a| {
        assert s[j] == a[j];
      } else if j > |a| {
        assert s[j] == d[j - |a| - 1];
      }
    }
  }

  /** The text `a.d` of digit runs `a` and `d` is numeric, with its dot at `|a|`. */
  lemma DecimalText(a: string, d: string)
    requires AllDigits(a) && AllDigits(d)
    ensures NumericText(a + "." + d)
    ensures IndexOf(a + "." + d, '.') == |a|
    ensures (a + "." + d)[..|a|] == a && (a + "." + d)[|a| + 1..] == d
  {
    var s := a + "." + d;
    DecimalChars(a, d);
    assert s[..|a|] == a && s[|a| + 1..] == d;
    assert '.' !in a;
    IndexOfAt(s, '.', |a|);
  }

  /** The operands of `k.d` are the integer part `k` and the fraction digits `d`, counted. */
  lemma CldrOperandsOfDecimal(k: nat, d: string)
    requires AllDigits(d)
    ensures NumericText(NatText(k) + "." + d)
    ensures CldrOperands(NatText(k) + "." + d) == Operands(NatText(k) + "." + d, Num(k as real), DigitsValue(d), |d|)
  {
    NatTextCanonical(k);
    NatTextRoundTrip(k);
    DecimalText(NatText(k), d);
  }

  /**
   * As written, the operands of `k.d` for `k >= 1` have an `i` that is not `k` (it is
   * the value of `.d`) and a `v` that counts the dot as well as the digits.
   */
  lemma DecimalOperandsAsWritten(k: nat, d: string)
    requires AllDigits(d) && k >= 1
    ensures NumericText(NatText(k) + "." + d)
    ensures Derive(NatText(k) + "." + d).i != Num(k as real)
    ensures Derive(NatText(k) + "." + d).v == |d| + 1
    ensures d != "" ==> Derive(NatText(k) + "." + d).i == Num(Fraction(d))
  {
    NatTextCanonical(k);
    var text := NatText(k) + "." + d;
    DecimalText(NatText(k), d);
    DottedIntegerOperand(text);
    assert FractionDigits(text) == d;
  }

  /** Both derivations agree on a text without a dot, and both give `v > 0` to one with fraction digits. */
  lemma OperandsAgree(text: Numeral)
    ensures '.' !in text ==> CldrOperands(text) == Derive(text)
    ensures '.' in text && text[|text| - 1] != '.' ==> CldrOperands(text).v > 0 && Derive(text).v > 0
  {
    if '.' in text {
      var dot := IndexOf(text, '.');
      assert dot < |text| - 1 ==> CldrOperands(text).v > 0;
    }
  }
}
