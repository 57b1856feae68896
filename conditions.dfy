/**
 * Plural-rule conditions over the operands n, i, f, v (the relation grammar of
 * LDML, UTS #35 Part 3, section 5.1 "Plural rules syntax").
 *
 * The source rewrites a condition text with two regular expressions (ranges first,
 * then `=`, `and`, `or`) and hands the result to the JavaScript engine. The model
 * keeps both halves apart: `Compile` is the text rewrite, `Parse` reads a condition
 * of the modelled grammar (an or of and-chains of relations `expr (=|!=) value` or
 * `expr (=|!=) lo..hi`) into a syntax tree, and `Eval` is the engine's evaluation of
 * that tree. `CompileIsRenderOfParse` ties the two together: on every condition that
 * parses, the rewritten text is the tree's JavaScript text.
 *
 * `Err(SyntaxError)` from `Parse` means "outside the modelled grammar". For most such
 * conditions the engine rejects the rewritten text too (a range at the very start,
 * see `LeadingRangeIsRejected`), but not for all: value and range lists, chained `=`,
 * a double `%` and connective words before an `=` give text the engine may accept
 * (see `ValueListOutsideGrammar`). Those conditions are not modelled.
 *
 * A condition is modelled as the sequence of its space-separated words, each word
 * already classified by its spelling (see `WordText`).
 */
module Conditions {
  import opened Wrappers
  import opened Numbers

  datatype Operand = N | I | F | V

  datatype Word =
    | OperandWord(o: Operand)     // n, i, f, v
    | Number(digits: Literal)             // a run of decimal digits
    | RangeWord(lo: Literal, hi: Literal) // lo..hi
    | Percent                     // %
    | Equals                      // =
    | NotEquals                   // !=
    | AndWord                     // and
    | OrWord                      // or
    | Verbatim(text: string)      // any other word, carried as written

  function OperandName(o: Operand): string {
    match o
    case N => "n"
    case I => "i"
    case F => "f"
    case V => "v"
  }

  /** How the word is spelled in the condition text. */
  function WordText(w: Word): string {
    match w
    case OperandWord(o) => OperandName(o)
    case Number(d) => d
    case RangeWord(lo, hi) => lo + ".." + hi
    case Percent => "%"
    case Equals => "="
    case NotEquals => "!="
    case AndWord => "and"
    case OrWord => "or"
    case Verbatim(t) => t
  }

  /** The words ws[i..j] joined by single spaces. */
  function Join(ws: seq<Word>, i: nat, j: nat): string
    requires i <= j <= |ws|
    decreases j - i
  {
    if i == j then ""
    else if i + 1 == j then WordText(ws[i])
    else WordText(ws[i]) + " " + Join(ws, i + 1, j)
  }

  // ---------------------------------------------------------------------------
  // The text rewrite

  /** The words the operator pass rewrites, and what it writes for them. */
  predicate IsRewrittenOperator(w: Word) {
    w == Equals || w == AndWord || w == OrWord
  }

  function JsOperator(w: Word): string
    requires IsRewrittenOperator(w)
  {
    if w == Equals then "==" else if w == AndWord then "&&" else "||"
  }

  /** A word that holds an `=` sign, where the range pattern's `[^=]*?` must stop. */
  predicate HasEqualsSign(w: Word) {
    w == Equals || w == NotEquals || (w.Verbatim? && '=' in w.text)
  }

  /** The position of the first word from ws[i] on that holds an `=` sign, or |ws|. */
  function EqualsAt(ws: seq<Word>, i: nat): (j: nat)
    requires i <= |ws|
    ensures i <= j <= |ws|
    decreases |ws| - i
  {
    if i == |ws| then i
    else if HasEqualsSign(ws[i]) then i
    else EqualsAt(ws, i + 1)
  }

  /** None of the words ws[i..j] is `and` or `or`. */
  predicate NoConnective(ws: seq<Word>, i: nat, j: nat)
    requires i <= j <= |ws|
    decreases j - i
  {
    i == j || (ws[i] != AndWord && ws[i] != OrWord && NoConnective(ws, i + 1, j))
  }

  /**
   * The range pattern matches at ws[i]: an operand, then words up to the first `=`
   * sign, which is a whole `=` or `!=`, then a word `lo..hi`. With an `and` or `or`
   * between the operand and the sign the regular expression would still match; such a
   * condition lies outside the modelled grammar, and the model does not rewrite it.
   */
  predicate RangeAt(ws: seq<Word>, i: nat)
    requires i <= |ws|
  {
    && i < |ws|
    && ws[i].OperandWord?
    && var j := EqualsAt(ws, i);
    && j + 1 < |ws|
    && (ws[j] == Equals || ws[j] == NotEquals)
    && ws[j + 1].RangeWord?
    && NoConnective(ws, i + 1, j)
  }

  /** The replacement text for a range test on the expression text `lhs`. */
  function RangeText(lhs: string, negated: bool, lo: Literal, hi: Literal): string {
    (if negated then "!" else "") + "(" + lhs + "  >= " + lo + " && " + lhs + "  <= " + hi + ")"
  }

  /**
   * What both regular-expression passes make of the words from ws[i] on: the text
   * written, the index of the first word not replaced, and whether that word's
   * leading whitespace was consumed by a rewritten operator.
   * `atStart`: no whitespace precedes ws[i] (it opens the condition), so neither
   * the range pattern nor the operator pattern can match there.
   * `glued`: the whitespace before ws[i] was consumed by a rewritten operator.
   */
  function RewriteStep(ws: seq<Word>, i: nat, atStart: bool, glued: bool): (r: (string, nat, bool))
    requires i < |ws|
    ensures i < r.1 <= |ws|
  {
    var sep := if atStart || glued then "" else " ";
    if !atStart && RangeAt(ws, i) then
      var j := EqualsAt(ws, i);
      (sep + RangeText(Join(ws, i, j), ws[j] == NotEquals, ws[j + 1].lo, ws[j + 1].hi), j + 2, false)
    else if !atStart && !glued && IsRewrittenOperator(ws[i]) && i + 1 < |ws| then
      (" " + JsOperator(ws[i]) + " ", i + 1, true)
    else
      (sep + WordText(ws[i]), i + 1, false)
  }

  /** Both passes over the words from ws[i] on, left to right. */
  function Rewrite(ws: seq<Word>, i: nat, atStart: bool, glued: bool): string
    requires i <= |ws|
    decreases |ws| - i
  {
    if i == |ws| then ""
    else
      var (text, next, nextGlued) := RewriteStep(ws, i, atStart, glued);
      text + Rewrite(ws, next, false, nextGlued)
  }

  /**
   * `compile`: the JavaScript text of a condition; the empty condition is `true`.
   * Both patterns need whitespace before what they replace, so the first word is
   * always copied as it is.
   */
  function Compile(ws: seq<Word>): (s: string)
    ensures ws == [] ==> s == "true"
    ensures ws != [] ==> WordText(ws[0]) <= s
  {
    if ws == [] then "true" else Rewrite(ws, 0, true, false)
  }

  // ---------------------------------------------------------------------------
  // The modelled grammar and the syntax tree of a condition

  datatype Expr = Plain(o: Operand) | Mod(o: Operand, m: Literal)
  datatype Rhs = Value(k: Literal) | Between(lo: Literal, hi: Literal)
  datatype Relation = Relation(e: Expr, negated: bool, rhs: Rhs)
  datatype Cond =
    | Always
    | Holds(r: Relation)
    | And(left: Cond, right: Cond)
    | Or(left: Cond, right: Cond)

  /** A chain of relations joined by `&&` only. */
  predicate Conjunction(c: Cond) {
    match c
    case Holds(_) => true
    case And(l, r) => Conjunction(l) && Conjunction(r)
    case _ => false
  }

  /** `&&`-chains joined by `||`: the shape precedence gives an unparenthesised condition. */
  predicate Disjunction(c: Cond) {
    match c
    case Or(l, r) => Disjunction(l) && Disjunction(r)
    case _ => Conjunction(c)
  }

  function ExprText(e: Expr): string {
    match e
    case Plain(o) => OperandName(o)
    case Mod(o, m) => OperandName(o) + " % " + m
  }

  function RelationText(r: Relation): string {
    match r.rhs
    case Value(k) => ExprText(r.e) + (if r.negated then " != " else " == ") + k
    case Between(lo, hi) => RangeText(ExprText(r.e), r.negated, lo, hi)
  }

  /** JavaScript text for a tree, parenthesising `||` under `&&` as precedence needs. */
  function Render(c: Cond): string
    decreases c, 0
  {
    match c
    case Always => "true"
    case Holds(r) => RelationText(r)
    case And(l, r) => Grouped(l) + " && " + Grouped(r)
    case Or(l, r) => Render(l) + " || " + Render(r)
  }

  function Grouped(c: Cond): string
    decreases c, 1
  {
    if c.Or? then "(" + Render(c) + ")" else Render(c)
  }

  /** The words of an expression and of a whole relation, as written in a rule. */
  function ExprWords(e: Expr): seq<Word> {
    match e
    case Plain(o) => [OperandWord(o)]
    case Mod(o, m) => [OperandWord(o), Percent, Number(m)]
  }

  function RelationWords(r: Relation): seq<Word> {
    ExprWords(r.e)
    + [if r.negated then NotEquals else Equals]
    + [match r.rhs case Value(k) => Number(k) case Between(lo, hi) => RangeWord(lo, hi)]
  }

  /** The expression at ws[i]: an operand, optionally followed by `% value`. */
  function ParseExpr(ws: seq<Word>, i: nat): (r: Option<(Expr, nat)>)
    requires i <= |ws|
    ensures r.Some? ==> r.value.1 == i + |ExprWords(r.value.0)| <= |ws|
  {
    if i + 2 < |ws| && ws[i].OperandWord? && ws[i + 1] == Percent && ws[i + 2].Number? then
      Some((Mod(ws[i].o, ws[i + 2].digits), i + 3))
    else if i < |ws| && ws[i].OperandWord? then
      Some((Plain(ws[i].o), i + 1))
    else
      None
  }

  /**
   * One relation at ws[i]: `expr (=|!=) value` or, when it was rewritten (not at the
   * start of the condition), `expr (=|!=) lo..hi`. Returns the relation and the index
   * of the word after it.
   */
  function ParseRelation(ws: seq<Word>, i: nat, atStart: bool): (r: Result<(Relation, nat)>)
    requires i <= |ws|
    ensures r.Ok? ==> i + 3 <= r.value.1 <= |ws|
    ensures r.Ok? && r.value.0.rhs.Between? ==> !atStart
  {
    match ParseExpr(ws, i)
    case None => Err(SyntaxError)
    case Some((e, j)) =>
      if j + 1 < |ws| && (ws[j] == Equals || ws[j] == NotEquals) then
        var negated := ws[j] == NotEquals;
        if ws[j + 1].Number? then Ok((Relation(e, negated, Value(ws[j + 1].digits)), j + 2))
        else if ws[j + 1].RangeWord? && !atStart then
          Ok((Relation(e, negated, Between(ws[j + 1].lo, ws[j + 1].hi)), j + 2))
        else Err(SyntaxError)
      else Err(SyntaxError)
  }

  /** relation (`and` relation)* at ws[i]. */
  function ParseAnd(ws: seq<Word>, i: nat, atStart: bool): (r: Result<(Cond, nat)>)
    requires i <= |ws|
    ensures r.Ok? ==> i < r.value.1 <= |ws| && Conjunction(r.value.0)
    decreases |ws| - i
  {
    match ParseRelation(ws, i, atStart)
    case Err(e) => Err(e)
    case Ok((rel, j)) =>
      if j < |ws| && ws[j] == AndWord then
        match ParseAnd(ws, j + 1, false)
        case Err(e) => Err(e)
        case Ok((rest, k)) => Ok((And(Holds(rel), rest), k))
      else
        Ok((Holds(rel), j))
  }

  /** and-chain (`or` and-chain)* at ws[i]: `and` binds tighter than `or`. */
  function ParseOr(ws: seq<Word>, i: nat, atStart: bool): (r: Result<(Cond, nat)>)
    requires i <= |ws|
    ensures r.Ok? ==> i < r.value.1 <= |ws| && Disjunction(r.value.0)
    decreases |ws| - i
  {
    match ParseAnd(ws, i, atStart)
    case Err(e) => Err(e)
    case Ok((left, j)) =>
      if j < |ws| && ws[j] == OrWord then
        match ParseOr(ws, j + 1, false)
        case Err(e) => Err(e)
        case Ok((rest, k)) => Ok((Or(left, rest), k))
      else
        Ok((left, j))
  }

  /**
   * The modelled grammar: the empty condition is `true`; otherwise the whole word
   * sequence must be an or-of-ands of relations. `Err` means the condition lies
   * outside this grammar, not that the engine rejects its rewritten text.
   */
  function Parse(ws: seq<Word>): (r: Result<Cond>)
    ensures ws == [] ==> r == Ok(Always)
    ensures r.Ok? && ws != [] ==> Disjunction(r.value)
  {
    if ws == [] then Ok(Always)
    else
      match ParseOr(ws, 0, true)
      case Err(e) => Err(e)
      case Ok((c, n)) => if n == |ws| then Ok(c) else Err(SyntaxError)
  }

  // ---------------------------------------------------------------------------
  // Evaluation with JavaScript's arithmetic

  /** Truncation toward zero, as JavaScript's `%` uses it. */
  function Trunc(r: real): int {
    if r >= 0.0 then r.Floor else -((-r).Floor)
  }

  /** `a - m * q` lies in `[0, m)` when `q` is the whole part of `a / m`. */
  lemma BetweenMultiples(a: real, m: real, q: real)
    requires m > 0.0 && q <= a / m < q + 1.0
    ensures 0.0 <= a - m * q < m
  {
    var y := a / m;
    assert a == m * y;
    var lo, hi := y - q, q + 1.0 - y;
    assert m * lo >= 0.0;
    assert m * hi > 0.0;
    assert m * lo == m * y - m * q;
    assert m * hi == m - m * lo;
  }

  /** The truncated quotient leaves a remainder with the sign of `a`, below `m` in size. */
  lemma TruncRemainder(a: real, m: real)
    requires m > 0.0
    ensures a >= 0.0 ==> 0.0 <= a - m * (Trunc(a / m) as real) < m
    ensures a <= 0.0 ==> -m < a - m * (Trunc(a / m) as real) <= 0.0
  {
    if a >= 0.0 {
      BetweenMultiples(a, m, (a / m).Floor as real);
    } else {
      assert (-a) / m == -(a / m);
      BetweenMultiples(-a, m, ((-a) / m).Floor as real);
    }
  }

  /**
   * JavaScript's `x % m` for a literal modulus `m`: NaN for a NaN operand or a zero
   * modulus, otherwise a remainder with the sign of `x` and below `m` in size.
   */
  function JsMod(x: JsNum, m: nat): (r: JsNum)
    ensures r.NaN? <==> x.NaN? || m == 0
    ensures r.Num? && x.r >= 0.0 ==> 0.0 <= r.r < m as real
    ensures r.Num? && x.r <= 0.0 ==> -(m as real) < r.r <= 0.0
  {
    if x.NaN? || m == 0 then NaN
    else
      TruncRemainder(x.r, m as real);
      Num(x.r - (m as real) * (Trunc(x.r / (m as real)) as real))
  }

  /** An operand's numeric value; `n` is a string that JavaScript compares as a number. */
  function OperandValue(o: Operand, x: Operands): JsNum {
    match o
    case N => ToNumber(x.n)
    case I => x.i
    case F => Num(x.f as real)
    case V => Num(x.v as real)
  }

  function ExprValue(e: Expr, x: Operands): JsNum {
    match e
    case Plain(o) => OperandValue(o, x)
    case Mod(o, m) => JsMod(OperandValue(o, x), LiteralValue(m))
  }

  /**
   * `e == k` (loose equality: NaN equals nothing), `e != k` its negation;
   * a range test `(e >= lo && e <= hi)` and its negation `!(...)`.
   */
  function Satisfies(r: Relation, x: Operands): (holds: bool)
    ensures ExprValue(r.e, x).NaN? ==> (holds <==> r.negated)
  {
    var val := ExprValue(r.e, x);
    var test :=
      match r.rhs
      case Value(k) => val == Num(LiteralValue(k) as real)
      case Between(lo, hi) => val.Num? && LiteralValue(lo) as real <= val.r <= LiteralValue(hi) as real;
    if r.negated then !test else test
  }

  /**
   * `i = 010` holds for 8 and not for 10, since the engine reads `010` in base 8, while
   * `i = 08` holds for 8.
   */
  lemma LeadingZeroLiteral()
    ensures Satisfies(Relation(Plain(I), false, Value("010")), Derive("8"))
    ensures !Satisfies(Relation(Plain(I), false, Value("010")), Derive("10"))
    ensures Satisfies(Relation(Plain(I), false, Value("08")), Derive("8"))
  {
    LegacyOctalLiteral();
    assert "8"[1..] == "" && "10"[1..] == "0" && "0"[1..] == "";
    assert '.' !in "8" && '.' !in "10";
    assert Derive("8").i == Num(8.0) && Derive("10").i == Num(10.0);
  }

  /** `i % 010 = 1` holds for 9: the modulus is eight. */
  lemma LeadingZeroModulus()
    ensures Satisfies(Relation(Mod(I, "010"), false, Value("1")), Derive("9"))
  {
    LegacyOctalLiteral();
    assert LiteralValue("1") == 1 by { assert !LegacyOctal("1"); }
    assert "9"[1..] == "" && '.' !in "9" && Derive("9").i == Num(9.0);
    assert (9.0 / 8.0).Floor == 1 by { assert 1.0 <= 9.0 / 8.0 < 2.0; }
    assert JsMod(Num(9.0), 8) == Num(1.0);
  }

  /** The relations of an `&&`-chain, left to right. */
  function Relations(c: Cond): seq<Relation> {
    match c
    case Holds(r) => [r]
    case And(l, r) => Relations(l) + Relations(r)
    case _ => []
  }

  /** The `&&`-chains of an or-of-ands, left to right. */
  function Chains(c: Cond): seq<Cond> {
    match c
    case Or(l, r) => Chains(l) + Chains(r)
    case _ => [c]
  }

  /** A condition's truth: an `&&`-chain holds exactly when every one of its relations does. */
  function Eval(c: Cond, x: Operands): (holds: bool)
    ensures c.Always? ==> holds
    ensures Conjunction(c) ==> (holds <==> forall k | 0 <= k < |Relations(c)| :: Satisfies(Relations(c)[k], x))
  {
    match c
    case Always => true
    case Holds(r) =>
      assert Relations(c)[0] == r;
      Satisfies(r, x)
    case And(l, r) =>
      var rl, rr := Relations(l), Relations(r);
      assert forall k | 0 <= k < |rl| :: Relations(c)[k] == rl[k];
      assert forall k | 0 <= k < |rr| :: Relations(c)[|rl| + k] == rr[k];
      Eval(l, x) && Eval(r, x)
    case Or(l, r) => Eval(l, x) || Eval(r, x)
  }

  /**
   * An or-of-ands holds exactly when one of its `&&`-chains does, each chain being
   * a conjunction of relations.
   */
  lemma {:induction false} DisjunctionHolds(c: Cond, x: Operands)
    requires Disjunction(c)
    ensures forall k | 0 <= k < |Chains(c)| :: Conjunction(Chains(c)[k])
    ensures Eval(c, x) <==> exists k | 0 <= k < |Chains(c)| :: Eval(Chains(c)[k], x)
  {
    match c
    case Or(l, r) =>
      DisjunctionHolds(l, x);
      DisjunctionHolds(r, x);
      var cl, cr := Chains(l), Chains(r);
      assert forall k | 0 <= k < |cr| :: Chains(c)[|cl| + k] == cr[k];
      assert forall k | 0 <= k < |cl| :: Chains(c)[k] == cl[k];
    case Holds(_) =>
      assert Chains(c)[0] == c;
    case And(_, _) =>
      assert Chains(c)[0] == c;
  }

  // ---------------------------------------------------------------------------
  // The rewritten text is the JavaScript text of the parsed tree

  /** A word that neither pattern rewrites is copied after its separator. */
  lemma CopiedWord(ws: seq<Word>, i: nat, atStart: bool, glued: bool)
    requires i < |ws| && (atStart || !RangeAt(ws, i))
    requires atStart || glued || !IsRewrittenOperator(ws[i]) || i + 1 == |ws|
    ensures Rewrite(ws, i, atStart, glued)
         == (if atStart || glued then "" else " ") + WordText(ws[i]) + Rewrite(ws, i + 1, false, false)
  {
    var r := RewriteStep(ws, i, atStart, glued);
    assert r.0 == (if atStart || glued then "" else " ") + WordText(ws[i]);
    assert r.1 == i + 1 && !r.2;
  }

  /** The operator pass turns ` op ` into the JavaScript operator and eats the next separator. */
  lemma OperatorWord(ws: seq<Word>, i: nat)
    requires i + 1 < |ws| && IsRewrittenOperator(ws[i])
    ensures Rewrite(ws, i, false, false) == " " + JsOperator(ws[i]) + " " + Rewrite(ws, i + 1, false, true)
  {
    var r := RewriteStep(ws, i, false, false);
    assert r.0 == " " + JsOperator(ws[i]) + " ";
    assert r.1 == i + 1 && r.2;
  }

  /** The range pattern replaces the words up to and including `lo..hi`. */
  lemma RangeWords(ws: seq<Word>, i: nat, glued: bool)
    requires i <= |ws| && RangeAt(ws, i)
    ensures var j := EqualsAt(ws, i);
      Rewrite(ws, i, false, glued)
      == (if glued then "" else " ") + RangeText(Join(ws, i, j), ws[j] == NotEquals, ws[j + 1].lo, ws[j + 1].hi)
       + Rewrite(ws, j + 2, false, false)
  {
    var j := EqualsAt(ws, i);
    var r := RewriteStep(ws, i, false, glued);
    assert r.0 == (if glued then "" else " ") + RangeText(Join(ws, i, j), ws[j] == NotEquals, ws[j + 1].lo, ws[j + 1].hi);
    assert r.1 == j + 2 && !r.2;
  }

  /** Two rewrite facts in a row: `r1` is `p` then `r2`, and `r2` is `q` then `r3`. */
  lemma Chain(r1: string, p: string, r2: string, q: string, r3: string)
    requires r1 == p + r2 && r2 == q + r3
    ensures r1 == (p + q) + r3
  {
    assert p + (q + r3) == (p + q) + r3;
  }

  lemma Regroup(a: string, b: string, c: string)
    ensures a + (b + c) == a + b + c
  {
  }

  /** `= k` after a relation's expression becomes ` == k`. */
  lemma EqualsValue(ws: seq<Word>, i: nat)
    requires i + 1 < |ws| && ws[i] == Equals && ws[i + 1].Number?
    ensures Rewrite(ws, i, false, false) == " == " + ws[i + 1].digits + Rewrite(ws, i + 2, false, false)
  {
    OperatorWord(ws, i);
    CopiedWord(ws, i + 1, false, true);
    Chain(Rewrite(ws, i, false, false), " " + JsOperator(ws[i]) + " ", Rewrite(ws, i + 1, false, true),
          "" + WordText(ws[i + 1]), Rewrite(ws, i + 2, false, false));
    EqualsText(ws[i + 1].digits);
  }

  lemma EqualsText(d: Literal)
    ensures " " + JsOperator(Equals) + " " + ("" + WordText(Number(d))) == " == " + d
  {
  }

  /** `!= k` after a relation's expression is left as it is. */
  lemma NotEqualsValue(ws: seq<Word>, i: nat)
    requires i + 1 < |ws| && ws[i] == NotEquals && ws[i + 1].Number?
    ensures Rewrite(ws, i, false, false) == " != " + ws[i + 1].digits + Rewrite(ws, i + 2, false, false)
  {
    CopiedWord(ws, i, false, false);
    CopiedWord(ws, i + 1, false, false);
    Chain(Rewrite(ws, i, false, false), " " + WordText(ws[i]), Rewrite(ws, i + 1, false, false),
          " " + WordText(ws[i + 1]), Rewrite(ws, i + 2, false, false));
    NotEqualsText(ws[i + 1].digits);
  }

  lemma NotEqualsText(d: Literal)
    ensures " " + WordText(NotEquals) + (" " + WordText(Number(d))) == " != " + d
  {
  }

  /** The facts about an expression's words that the range pattern looks at. */
  lemma ExprScan(ws: seq<Word>, i: nat)
    requires i <= |ws| && ParseExpr(ws, i).Some?
    ensures var (e, j) := ParseExpr(ws, i).value;
      && (j < |ws| && HasEqualsSign(ws[j]) ==> EqualsAt(ws, i) == j)
      && NoConnective(ws, i + 1, j)
      && Join(ws, i, j) == ExprText(e)
  {
    var (e, j) := ParseExpr(ws, i).value;
    if e.Mod? {
      assert EqualsAt(ws, i) == EqualsAt(ws, i + 2);
      assert Join(ws, i + 1, j) == "%" + " " + e.m;
      ModText(OperandName(e.o), e.m);
    }
  }

  lemma ModText(o: string, m: string)
    ensures o + " " + ("%" + " " + m) == o + " % " + m
  {
  }

  /** The expression `o` or `o % m` at the head of a relation that is not a range test. */
  lemma ExprCopied(ws: seq<Word>, i: nat, atStart: bool)
    requires i <= |ws| && ParseExpr(ws, i).Some?
    requires atStart || !RangeAt(ws, i)
    ensures Rewrite(ws, i, atStart, !atStart)
         == ExprText(ParseExpr(ws, i).value.0) + Rewrite(ws, ParseExpr(ws, i).value.1, false, false)
  {
    var (e, j) := ParseExpr(ws, i).value;
    CopiedWord(ws, i, atStart, !atStart);
    if e.Mod? {
      ModulusCopied(ws, i + 1);
      Chain(Rewrite(ws, i, atStart, !atStart), "" + WordText(ws[i]), Rewrite(ws, i + 1, false, false),
            " % " + e.m, Rewrite(ws, j, false, false));
    }
    ExprWordsText(ws[i], e);
  }

  lemma ExprWordsText(w: Word, e: Expr)
    requires w == OperandWord(e.o)
    ensures e.Plain? ==> "" + WordText(w) == ExprText(e)
    ensures e.Mod? ==> "" + WordText(w) + (" % " + e.m) == ExprText(e)
  {
  }

  /** The words `% m` after an operand are copied as they are. */
  lemma ModulusCopied(ws: seq<Word>, i: nat)
    requires i + 1 < |ws| && ws[i] == Percent && ws[i + 1].Number?
    ensures Rewrite(ws, i, false, false) == " % " + ws[i + 1].digits + Rewrite(ws, i + 2, false, false)
  {
    CopiedWord(ws, i, false, false);
    CopiedWord(ws, i + 1, false, false);
    Chain(Rewrite(ws, i, false, false), " " + WordText(ws[i]), Rewrite(ws, i + 1, false, false),
          " " + WordText(ws[i + 1]), Rewrite(ws, i + 2, false, false));
    PercentText(ws[i + 1].digits);
  }

  lemma PercentText(d: Literal)
    ensures " " + WordText(Percent) + (" " + WordText(Number(d))) == " % " + d
  {
  }

  /** A relation's words, rewritten at the start of the condition or right after an operator. */
  lemma RelationRewrite(ws: seq<Word>, i: nat, atStart: bool)
    requires i <= |ws| && ParseRelation(ws, i, atStart).Ok?
    ensures Rewrite(ws, i, atStart, !atStart)
         == RelationText(ParseRelation(ws, i, atStart).value.0)
          + Rewrite(ws, ParseRelation(ws, i, atStart).value.1, false, false)
  {
    if ParseRelation(ws, i, atStart).value.0.rhs.Value? {
      ValueRelationRewrite(ws, i, atStart);
    } else {
      RangeRelationRewrite(ws, i, atStart);
    }
  }

  /** A comparison with a value: the operand, then its operator and the value. */
  lemma ValueRelationRewrite(ws: seq<Word>, i: nat, atStart: bool)
    requires i <= |ws| && ParseRelation(ws, i, atStart).Ok?
    requires ParseRelation(ws, i, atStart).value.0.rhs.Value?
    ensures Rewrite(ws, i, atStart, !atStart)
         == RelationText(ParseRelation(ws, i, atStart).value.0)
          + Rewrite(ws, ParseRelation(ws, i, atStart).value.1, false, false)
  {
    var (rel, n) := ParseRelation(ws, i, atStart).value;
    var (e, j) := ParseExpr(ws, i).value;
    ValueShape(ws, i, atStart);
    ExprScan(ws, i);
    var k := rel.rhs.k;
    assert !RangeAt(ws, i);
    ExprCopied(ws, i, atStart);
    var op := if rel.negated then " != " else " == ";
    if rel.negated {
      NotEqualsValue(ws, j);
    } else {
      EqualsValue(ws, j);
    }
    Chain(Rewrite(ws, i, atStart, !atStart), ExprText(e), Rewrite(ws, j, false, false),
          op + k, Rewrite(ws, n, false, false));
    Regroup(ExprText(e), op, k);
  }

  /** A value relation is the expression, then `=` or `!=`, then the number. */
  lemma ValueShape(ws: seq<Word>, i: nat, atStart: bool)
    requires i <= |ws| && ParseRelation(ws, i, atStart).Ok?
    requires ParseRelation(ws, i, atStart).value.0.rhs.Value?
    ensures ParseExpr(ws, i).Some?
    ensures var (rel, n) := ParseRelation(ws, i, atStart).value;
      var (e, j) := ParseExpr(ws, i).value;
      && n == j + 2 && j + 1 < |ws| && (ws[j] == Equals || ws[j] == NotEquals)
      && ws[j + 1].Number?
      && rel == Relation(e, ws[j] == NotEquals, Value(ws[j + 1].digits))
  {
  }

  /** A comparison with a range: the whole relation becomes one range test. */
  lemma RangeRelationRewrite(ws: seq<Word>, i: nat, atStart: bool)
    requires i <= |ws| && ParseRelation(ws, i, atStart).Ok?
    requires ParseRelation(ws, i, atStart).value.0.rhs.Between?
    ensures Rewrite(ws, i, atStart, !atStart)
         == RelationText(ParseRelation(ws, i, atStart).value.0)
          + Rewrite(ws, ParseRelation(ws, i, atStart).value.1, false, false)
  {
    var (rel, n) := ParseRelation(ws, i, atStart).value;
    var (e, j) := ParseExpr(ws, i).value;
    BetweenShape(ws, i, atStart);
    ExprScan(ws, i);
    RangeWords(ws, i, true);
    BetweenText(rel);
  }

  /** A range relation is the expression, then `=` or `!=`, then the range word; never at the start. */
  lemma BetweenShape(ws: seq<Word>, i: nat, atStart: bool)
    requires i <= |ws| && ParseRelation(ws, i, atStart).Ok?
    requires ParseRelation(ws, i, atStart).value.0.rhs.Between?
    ensures ParseExpr(ws, i).Some?
    ensures var (rel, n) := ParseRelation(ws, i, atStart).value;
      var (e, j) := ParseExpr(ws, i).value;
      && !atStart && n == j + 2 && j + 1 < |ws| && (ws[j] == Equals || ws[j] == NotEquals)
      && ws[j + 1].RangeWord?
      && rel == Relation(e, ws[j] == NotEquals, Between(ws[j + 1].lo, ws[j + 1].hi))
  {
  }

  lemma BetweenText(rel: Relation)
    requires rel.rhs.Between?
    ensures "" + RangeText(ExprText(rel.e), rel.negated, rel.rhs.lo, rel.rhs.hi) == RelationText(rel)
  {
  }

  /**
   * An `or` chain parses as its first conjunction `left`, ending before word `j`,
   * joined to the rest of the chain when `or` follows.
   */
  lemma ParseOrSteps(ws: seq<Word>, i: nat, atStart: bool) returns (left: Cond, j: nat)
    requires i <= |ws| && ParseOr(ws, i, atStart).Ok?
    ensures ParseAnd(ws, i, atStart) == Ok((left, j)) && j <= |ws|
    ensures j < |ws| && ws[j] == OrWord ==>
      && ParseOr(ws, j + 1, false).Ok?
      && ParseOr(ws, i, atStart) == Ok((Or(left, ParseOr(ws, j + 1, false).value.0), ParseOr(ws, j + 1, false).value.1))
    ensures !(j < |ws| && ws[j] == OrWord) ==> ParseOr(ws, i, atStart) == Ok((left, j))
  {
    match ParseAnd(ws, i, atStart)
    case Ok((l, k)) =>
      left, j := l, k;
  }

  /** An and-chain's words rewritten to its rendering. */
  lemma {:induction false} AndRewrite(ws: seq<Word>, i: nat, atStart: bool)
    requires i <= |ws| && ParseAnd(ws, i, atStart).Ok?
    ensures Rewrite(ws, i, atStart, !atStart)
         == Render(ParseAnd(ws, i, atStart).value.0)
          + Rewrite(ws, ParseAnd(ws, i, atStart).value.1, false, false)
    decreases |ws| - i, 1
  {
    var rel, j := ParseAndSteps(ws, i, atStart);
    RelationRewrite(ws, i, atStart);
    if j < |ws| && ws[j] == AndWord {
      AndChainRewrite(ws, i, atStart, rel, j);
    }
  }

  /**
   * The inductive step: a relation rewritten up to word `j`, then `and` and the
   * rest of the chain.
   */
  lemma {:induction false} AndChainRewrite(ws: seq<Word>, i: nat, atStart: bool, rel: Relation, j: nat)
    requires i < j + 1 < |ws| && ws[j] == AndWord && ParseAnd(ws, j + 1, false).Ok?
    requires Rewrite(ws, i, atStart, !atStart) == RelationText(rel) + Rewrite(ws, j, false, false)
    ensures var rest := ParseAnd(ws, j + 1, false).value;
      Rewrite(ws, i, atStart, !atStart) == Render(And(Holds(rel), rest.0)) + Rewrite(ws, rest.1, false, false)
    decreases |ws| - i, 0
  {
    var (c, k) := ParseAnd(ws, j + 1, false).value;
    RenderAnd(rel, c);
    AndRewrite(ws, j + 1, false);
    OperatorWord(ws, j);
    OperatorTexts();
    Joined(Rewrite(ws, i, atStart, !atStart), RelationText(rel), Rewrite(ws, j, false, false), " && ",
           Rewrite(ws, j + 1, false, true), Render(c), Rewrite(ws, k, false, false));
  }

  /** An `and` chain parses as its first relation, joined to the rest of the chain when `and` follows. */
  lemma ParseAndSteps(ws: seq<Word>, i: nat, atStart: bool) returns (rel: Relation, j: nat)
    requires i <= |ws| && ParseAnd(ws, i, atStart).Ok?
    ensures ParseRelation(ws, i, atStart) == Ok((rel, j)) && i < j <= |ws|
    ensures j < |ws| && ws[j] == AndWord ==>
      && ParseAnd(ws, j + 1, false).Ok?
      && ParseAnd(ws, i, atStart) == Ok((And(Holds(rel), ParseAnd(ws, j + 1, false).value.0), ParseAnd(ws, j + 1, false).value.1))
    ensures !(j < |ws| && ws[j] == AndWord) ==> ParseAnd(ws, i, atStart) == Ok((Holds(rel), j))
  {
    rel, j := ParseRelation(ws, i, atStart).value.0, ParseRelation(ws, i, atStart).value.1;
    assert ParseRelation(ws, i, atStart) == Ok((rel, j));
    if j < |ws| && ws[j] == AndWord {
      var rest := ParseAnd(ws, j + 1, false);
      assert rest.Ok?;
      assert ParseAnd(ws, i, atStart) == Ok((And(Holds(rel), rest.value.0), rest.value.1));
    }
  }

  /** A relation joined to a conjunction renders without parentheses. */
  lemma RenderAnd(rel: Relation, c: Cond)
    requires Conjunction(c)
    ensures Render(And(Holds(rel), c)) == RelationText(rel) + " && " + Render(c)
  {
    assert !c.Or? && Grouped(c) == Render(c);
    assert Grouped(Holds(rel)) == RelationText(rel);
  }

  /** An or-of-ands' words rewritten to its rendering. */
  lemma {:induction false} OrRewrite(ws: seq<Word>, i: nat, atStart: bool)
    requires i <= |ws| && ParseOr(ws, i, atStart).Ok?
    ensures Rewrite(ws, i, atStart, !atStart)
         == Render(ParseOr(ws, i, atStart).value.0)
          + Rewrite(ws, ParseOr(ws, i, atStart).value.1, false, false)
    decreases |ws| - i, 1
  {
    var left, j := ParseOrSteps(ws, i, atStart);
    AndRewrite(ws, i, atStart);
    if j < |ws| && ws[j] == OrWord {
      OrChainRewrite(ws, i, atStart, left, j);
    }
  }

  /**
   * The inductive step: a conjunction rewritten up to word `j`, then `or` and the
   * rest of the chain.
   */
  lemma {:induction false} OrChainRewrite(ws: seq<Word>, i: nat, atStart: bool, left: Cond, j: nat)
    requires i < j + 1 < |ws| && ws[j] == OrWord && ParseOr(ws, j + 1, false).Ok?
    requires Rewrite(ws, i, atStart, !atStart) == Render(left) + Rewrite(ws, j, false, false)
    ensures var rest := ParseOr(ws, j + 1, false).value;
      Rewrite(ws, i, atStart, !atStart) == Render(Or(left, rest.0)) + Rewrite(ws, rest.1, false, false)
    decreases |ws| - i, 0
  {
    var rest := ParseOr(ws, j + 1, false).value;
    OrRewrite(ws, j + 1, false);
    OperatorWord(ws, j);
    OperatorTexts();
    Joined(Rewrite(ws, i, atStart, !atStart), Render(left), Rewrite(ws, j, false, false), " || ",
           Rewrite(ws, j + 1, false, true), Render(rest.0), Rewrite(ws, rest.1, false, false));
  }

  /** The operator words' rewritten texts, with the spaces around them. */
  lemma OperatorTexts()
    ensures " " + JsOperator(AndWord) + " " == " && "
    ensures " " + JsOperator(OrWord) + " " == " || "
  {
  }

  /**
   * Three rewrite facts in a row, the left operand, the operator and the right
   * operand, give the whole joined text.
   */
  lemma Joined(whole: string, l: string, atOp: string, op: string, afterOp: string, r: string, rest: string)
    requires whole == l + atOp && atOp == op + afterOp && afterOp == r + rest
    ensures whole == l + op + r + rest
  {
    assert l + (op + (r + rest)) == l + op + r + rest;
  }

  /**
   * Whenever a condition parses, the text `compile` produces is exactly
   * the JavaScript rendering of the tree `Parse` builds: every `=`, `and`, `or` became
   * `==`, `&&`, `||`, every range test after the first relation became a pair of
   * comparisons, and `and` groups tighter than `or`.
   */
  lemma CompileIsRenderOfParse(ws: seq<Word>)
    requires Parse(ws).Ok?
    ensures Compile(ws) == Render(Parse(ws).value)
  {
    if ws != [] {
      OrRewrite(ws, 0, true);
    }
  }

  /**
   * A range test that opens the condition has no whitespace before it, so the range
   * pattern skips it: only its `=` is rewritten and the engine rejects `lo..hi`.
   */
  lemma LeadingRangeIsRejected(ws: seq<Word>)
    requires |ws| >= 3 && ws[0].OperandWord? && ws[1] == Equals && ws[2].RangeWord?
    ensures Parse(ws) == Err(SyntaxError)
    ensures Compile(ws) == OperandName(ws[0].o) + " == " + WordText(ws[2]) + Rewrite(ws, 3, false, false)
  {
    CopiedWord(ws, 0, true, false);
    OperatorWord(ws, 1);
    CopiedWord(ws, 2, false, true);
    Chain(Rewrite(ws, 1, false, false), " " + JsOperator(ws[1]) + " ", Rewrite(ws, 2, false, true),
          "" + WordText(ws[2]), Rewrite(ws, 3, false, false));
    Chain(Rewrite(ws, 0, true, false), "" + WordText(ws[0]), Rewrite(ws, 1, false, false),
          " " + JsOperator(ws[1]) + " " + ("" + WordText(ws[2])), Rewrite(ws, 3, false, false));
    LeadingRangeText(OperandName(ws[0].o), WordText(ws[2]));
  }

  lemma LeadingRangeText(o: string, r: string)
    ensures "" + o + (" " + JsOperator(Equals) + " " + ("" + r)) == o + " == " + r
  {
  }

  /**
   * A value list such as `i = 0,1` lies outside the modelled grammar, yet the rewrite
   * passes `0,1` through unchanged: the text `i == 0,1` is a JavaScript comma
   * expression whose value is the last operand, 1, so the engine accepts it and the
   * condition holds for every number.
   */
  lemma ValueListOutsideGrammar()
    ensures Parse([OperandWord(I), Equals, Verbatim("0,1")]) == Err(SyntaxError)
    ensures Compile([OperandWord(I), Equals, Verbatim("0,1")]) == "i == 0,1"
  {
    var ws := [OperandWord(I), Equals, Verbatim("0,1")];
    CopiedWord(ws, 0, true, false);
    OperatorWord(ws, 1);
    CopiedWord(ws, 2, false, true);
    assert Rewrite(ws, 3, false, false) == "";
  }
}
