/**
 * The categorizer source text generated from a cardinal rule table by
 * `src/plural/internal.ts`: a function header, one `if (condition) { return 'key'; }`
 * block per rule in declared order, the `return 'other';` fallback, and then the
 * removal of the first block whose condition is the constant `true`.
 */
module Generator {
  import opened Wrappers
  import opened Categories
  import opened Numbers
  import opened Conditions
  import opened Rules

  /** The first line: the arrow function's typed parameters `n, i, f, v`, one at a time. */
  const Header: string := "(n: string, " + "i: number, " + "f: number, " + "v: number) => {"

  /** The last three lines, `  return 'other';`, `}` and the empty line, joined. */
  const Footer: string := "  return 'other';\n}\n"

  /** A rule as the generator writes it: its key and its compiled condition text. */
  type Clause = (Category, string)

  function Clauses(rules: seq<Rule>): (cs: seq<Clause>)
    ensures |cs| == |rules|
    ensures forall k | 0 <= k < |rules| :: cs[k] == (rules[k].0, Compile(rules[k].1))
  {
    if rules == [] then [] else [(rules[0].0, Compile(rules[0].1))] + Clauses(rules[1..])
  }

  /** The four lines of a rule's block joined by newlines (the fourth is empty). */
  function Block(c: Clause): string {
    "  if (" + c.1 + ") {\n    return '" + Name(c.0) + "';\n  }\n"
  }

  /** The blocks, each followed by the newline that joins it to the next line. */
  function Blocks(cs: seq<Clause>): string {
    if cs == [] then "" else Block(cs[0]) + "\n" + Blocks(cs[1..])
  }

  /** The whole text before the replacement: header, blocks and fallback joined by newlines. */
  function Code(cs: seq<Clause>): string {
    Header + "\n" + Blocks(cs) + Footer
  }

  /** The position of the first clause whose condition text is `true`, or -1. */
  function FirstTrue(cs: seq<Clause>): (k: int)
    ensures -1 <= k < |cs|
    ensures k >= 0 ==> cs[k].1 == "true"
    ensures forall j | 0 <= j < |cs| && (k < 0 || j < k) :: cs[j].1 != "true"
  {
    if cs == [] then -1
    else if cs[0].1 == "true" then 0
    else
      var k := FirstTrue(cs[1..]);
      assert forall j | 1 <= j < |cs| :: cs[j] == cs[1..][j - 1];
      if k < 0 then -1 else k + 1
  }

  /** The sequence without its element at `k`. */
  function Without<T>(s: seq<T>, k: int): seq<T>
    requires -1 <= k < |s|
  {
    if k < 0 then s else s[..k] + s[k + 1..]
  }

  /**
   * The generated categorizer text: the code without the first always-true block.
   * With such a block, the text is the code with its span cut out at the position
   * where that block's `if` starts; without one, it is the code itself.
   */
  function Generate(rules: seq<Rule>): (text: string)
    ensures var cs := Clauses(rules); FirstTrue(cs) < 0 ==> text == Code(cs)
    ensures var cs := Clauses(rules); var k := FirstTrue(cs);
      k >= 0 ==>
        var i := |Header + "\n" + Blocks(cs[..k]) + "  "|;
        var j := i + |Span(cs[k].0)|;
        && j <= |Code(cs)|
        && Code(cs)[i..j] == Span(cs[k].0)
        && text == Code(cs)[..i] + Code(cs)[j..]
  {
    var cs := Clauses(rules);
    var k := FirstTrue(cs);
    if k >= 0 then
      SpanCut(cs, k);
      Code(Without(cs, k))
    else
      Code(cs)
  }

  // ---------------------------------------------------------------------------
  // The replacement removes exactly the text the pattern `if\s*\(true\)[^}]+.\s+` matches

  /** The text the pattern matches for an always-true block keyed `key`. */
  function Span(key: Category): string {
    "if (true) {\n    return '" + Name(key) + "';\n  }\n\n  "
  }

  /** JavaScript's `\s`: the white-space and line-terminator characters. */
  predicate IsSpace(c: char) {
    || c == ' ' || c == '\t' || c == '\n' || c == '\r' || c == '\U{B}' || c == '\U{C}'
    || c == '\U{A0}' || c == '\U{1680}' || ('\U{2000}' <= c <= '\U{200A}')
    || c == '\U{2028}' || c == '\U{2029}' || c == '\U{202F}' || c == '\U{205F}'
    || c == '\U{3000}' || c == '\U{FEFF}'
  }

  lemma {:induction false} BlocksAppend(a: seq<Clause>, b: seq<Clause>)
    ensures Blocks(a + b) == Blocks(a) + Blocks(b)
  {
    if a == [] {
      assert a + b == b;
    } else {
      assert (a + b)[1..] == a[1..] + b;
      BlocksAppend(a[1..], b);
    }
  }

  /** What follows a block (the next block or the fallback) starts with two spaces and a letter. */
  lemma Indented(cs: seq<Clause>)
    ensures |Blocks(cs) + Footer| > 2
    ensures (Blocks(cs) + Footer)[..2] == "  "
    ensures (Blocks(cs) + Footer)[2] in "ir"
  {
    if cs != [] {
      var s := Block(cs[0]);
      assert s[..3] == "  i";
      assert (Blocks(cs) + Footer)[..3] == s[..3];
    }
  }

  /** An always-true block is two spaces, the span's opening and two newlines. */
  lemma TrueBlockText(c: Clause)
    requires c.1 == "true"
    ensures Block(c) + "\n" == "  " + Opening(c.0)
    ensures Opening(c.0) + "  " == Span(c.0)
  {
  }

  function Opening(key: Category): string {
    "if (true) {\n    return '" + Name(key) + "';\n  }\n\n"
  }

  lemma Assemble(h: string, pre: string, block: string, rest: string, f: string, opening: string)
    requires block + "\n" == "  " + opening
    requires |rest + f| >= 2 && (rest + f)[..2] == "  "
    ensures h + (pre + (block + "\n" + rest)) + f == (h + pre + "  ") + (opening + "  ") + (rest + f)[2..]
    ensures h + (pre + rest) + f == (h + pre + "  ") + (rest + f)[2..]
  {
    var t := rest + f;
    assert t == "  " + t[2..];
    calc {
      h + (pre + (block + "\n" + rest)) + f;
      h + pre + (block + "\n") + t;
      h + pre + ("  " + opening) + ("  " + t[2..]);
      (h + pre + "  ") + (opening + "  ") + t[2..];
    }
  }

  /**
   * The replacement as the pattern performs it: the text before it is `A + span + X`
   * and the text after it is `A + X`, where the span starts with `if (true)`, holds a
   * single `}` followed only by blanks, and `X` starts with a non-blank, so the
   * greedy trailing blanks stop exactly at the end of the span.
   */
  lemma {:induction false} ReplacementRemovesSpan(cs: seq<Clause>, k: nat)
    requires k < |cs| && k == FirstTrue(cs)
    ensures var a := Header + "\n" + Blocks(cs[..k]) + "  ";
      var x := (Blocks(cs[k + 1..]) + Footer)[2..];
      && Code(cs) == a + Span(cs[k].0) + x
      && Code(Without(cs, k)) == a + x
      && |x| > 0 && !IsSpace(x[0])
  {
    var pre, rest := cs[..k], cs[k + 1..];
    assert cs == pre + ([cs[k]] + rest);
    BlocksAppend(pre, [cs[k]] + rest);
    assert ([cs[k]] + rest)[1..] == rest;
    assert Blocks([cs[k]] + rest) == Block(cs[k]) + "\n" + Blocks(rest);
    TrueBlockText(cs[k]);
    Indented(rest);
    BlocksAppend(pre, rest);
    Assemble(Header + "\n", Blocks(pre), Block(cs[k]), Blocks(rest), Footer, Opening(cs[k].0));
  }

  /** The removal, as positions in the code: the span sits at `|a|` and is cut out. */
  lemma SpanCut(cs: seq<Clause>, k: nat)
    requires k < |cs| && k == FirstTrue(cs)
    ensures var i := |Header + "\n" + Blocks(cs[..k]) + "  "|;
      var j := i + |Span(cs[k].0)|;
      && j <= |Code(cs)|
      && Code(cs)[i..j] == Span(cs[k].0)
      && Code(Without(cs, k)) == Code(cs)[..i] + Code(cs)[j..]
  {
    ReplacementRemovesSpan(cs, k);
    var a := Header + "\n" + Blocks(cs[..k]) + "  ";
    var x := (Blocks(cs[k + 1..]) + Footer)[2..];
    var span := Span(cs[k].0);
    Regroup(a, span, x);
    assert (a + (span + x))[..|a|] == a;
    assert (a + (span + x))[|a|..] == span + x;
    assert (span + x)[..|span|] == span && (span + x)[|span|..] == x;
  }

  /** The span starts with `if (true)`, and its only `}` is followed by blanks alone. */
  lemma SpanShape(key: Category)
    ensures Span(key)[..9] == "if (true)"
    ensures var close := |Span(key)| - 5;
      && Span(key)[close] == '}'
      && '}' !in Span(key)[9..close]
      && forall j | close < j < |Span(key)| :: IsSpace(Span(key)[j])
  {
    assert '}' !in Name(key) by {
      match key
      case Zero => case One => case Two => case Few => case Many => case Other =>
    }
    SpanText(Name(key));
  }

  /** The span's shape for any name without a `}`. */
  lemma SpanText(name: string)
    requires '}' !in name
    ensures var s := "if (true) {\n    return '" + name + "';\n  }\n\n  ";
      var close := |s| - 5;
      && s[..9] == "if (true)"
      && s[close] == '}'
      && '}' !in s[9..close]
      && forall j | close < j < |s| :: IsSpace(s[j])
  {
    var s := "if (true) {\n    return '" + name + "';\n  }\n\n  ";
    var close := |s| - 5;
    assert s[9..close] == " {\n    return '" + name + "';\n  ";
  }

  // ---------------------------------------------------------------------------
  // No earlier text matches the pattern's head `if\s*\(true\)`

  /** The first position from `j` on that is not a blank: where the greedy `\s*` stops. */
  function SkipBlanks(s: string, j: nat): (k: nat)
    requires j <= |s|
    ensures j <= k <= |s|
    ensures k < |s| ==> !IsSpace(s[k])
    ensures forall m | j <= m < k :: IsSpace(s[m])
    decreases |s| - j
  {
    if j < |s| && IsSpace(s[j]) then SkipBlanks(s, j + 1) else j
  }

  /**
   * The head `if\s*\(true\)` of the pattern matches `s` at `p`: `if`, then the
   * blanks, then `(true)` right where the blanks end.
   */
  predicate TrueTestAt(s: string, p: nat) {
    && p + 2 <= |s| && s[p..p + 2] == "if"
    && var q := SkipBlanks(s, p + 2);
    q + 6 <= |s| && s[q..q + 6] == "(true)"
  }

  /**
   * Reading `\s*` greedily loses no match: `(` is not a blank, so any run of blanks
   * after `if` that is followed by `(true)` is the run `SkipBlanks` finds.
   */
  lemma TrueTestAtAnyBlanks(s: string, p: nat, q: nat)
    requires p + 2 <= q && q + 6 <= |s| && s[p..p + 2] == "if"
    requires forall m | p + 2 <= m < q :: IsSpace(s[m])
    requires s[q..q + 6] == "(true)"
    ensures TrueTestAt(s, p)
  {
    assert s[q] == s[q..q + 6][0] == '(';
  }

  /** If `s[p]` is `i` and not the last character, a blank follows it. */
  predicate BlankAfterIAt(s: string, p: nat)
    requires p < |s|
  {
    s[p] == 'i' && p + 1 < |s| ==> s[p + 1] == ' '
  }

  predicate BlankAfterI(s: string) {
    forall p: nat | p < |s| :: BlankAfterIAt(s, p)
  }

  predicate EndsInI(s: string) {
    |s| > 0 && s[|s| - 1] == 'i'
  }

  lemma BlankAfterIAppend(a: string, b: string)
    requires BlankAfterI(a) && BlankAfterI(b)
    requires EndsInI(a) ==> |b| > 0 && b[0] == ' '
    ensures BlankAfterI(a + b)
    ensures |b| > 0 ==> (EndsInI(a + b) <==> EndsInI(b))
  {
    var s := a + b;
    forall p: nat | p < |s|
      ensures BlankAfterIAt(s, p)
    {
      if p + 1 < |a| {
        assert BlankAfterIAt(a, p);
      } else if p >= |a| {
        assert BlankAfterIAt(b, p - |a|);
      }
    }
  }

  /** If `s[p]` is `i`, it is not the last character, and an `if` there is followed by ` (` and a non-`t`. */
  predicate GuardedAt(s: string, p: nat)
    requires p < |s|
  {
    s[p] == 'i' ==>
      p + 1 < |s| && (s[p + 1] == 'f' ==> p + 4 < |s| && s[p + 2] == ' ' && s[p + 3] == '(' && s[p + 4] != 't')
  }

  predicate IfGuarded(s: string) {
    forall p: nat | p < |s| :: GuardedAt(s, p)
  }

  lemma GuardedAppend(a: string, b: string)
    requires IfGuarded(a) && IfGuarded(b)
    ensures IfGuarded(a + b)
  {
    var s := a + b;
    forall p: nat | p < |s|
      ensures GuardedAt(s, p)
    {
      if p < |a| {
        assert GuardedAt(a, p);
        if p + 4 < |a| {
          assert s[p..p + 5] == a[p..p + 5];
        } else if p + 1 < |a| {
          assert s[p..p + 2] == a[p..p + 2];
        }
      } else {
        var q := p - |a|;
        assert GuardedAt(b, q);
        if q + 4 < |b| {
          assert s[p..p + 5] == b[q..q + 5];
        } else if q + 1 < |b| {
          assert s[p..p + 2] == b[q..q + 2];
        }
      }
    }
  }

  lemma GuardedAppend4(a: string, b: string, c: string, d: string)
    requires IfGuarded(a) && IfGuarded(b) && IfGuarded(c) && IfGuarded(d)
    ensures IfGuarded(a + b + c + d)
  {
    GuardedAppend(a, b);
    GuardedAppend(a + b, c);
    GuardedAppend(a + b + c, d);
  }

  lemma NoLetterI(s: string)
    requires 'i' !in s
    ensures BlankAfterI(s) && !EndsInI(s) && IfGuarded(s)
  {
  }

  lemma LiteralNoLetterI(k: Literal)
    ensures BlankAfterI(k) && !EndsInI(k) && |k| > 0
  {
    LiteralDigits(k);
    assert forall p | 0 <= p < |k| :: IsDigit(k[p]);
    NoLetterI(k);
  }

  lemma NameNoLetterI(c: Category)
    ensures 'i' !in Name(c)
  {
  }

  /** The header's two `i`s are followed by `n` and `:`. */
  lemma HeaderGuarded()
    ensures IfGuarded(Header)
  {
    assert IfGuarded("(n: string, ");
    assert IfGuarded("i: number, ");
    assert IfGuarded("f: number, ") && IfGuarded("v: number) => {");
    GuardedAppend4("(n: string, ", "i: number, ", "f: number, ", "v: number) => {");
  }

  /** A condition text in which no `if` can begin, and which does not start with `t`. */
  predicate SafeCondition(t: string) {
    BlankAfterI(t) && !EndsInI(t) && |t| > 0 && t[0] != 't'
  }

  lemma ExprTextShape(e: Expr)
    ensures BlankAfterI(ExprText(e)) && |ExprText(e)| > 0 && ExprText(e)[0] != 't'
  {
    match e
    case Plain(o) =>
    case Mod(o, m) =>
      NoLetterI(" % ");
      LiteralNoLetterI(m);
      BlankAfterIAppend(OperandName(o), " % ");
      BlankAfterIAppend(OperandName(o) + " % ", m);
  }

  lemma RangeTextShape(lhs: string, negated: bool, lo: Literal, hi: Literal)
    requires BlankAfterI(lhs) && |lhs| > 0
    ensures SafeCondition(RangeText(lhs, negated, lo, hi))
  {
    var neg := if negated then "!" else "";
    NoLetterI(neg);
    NoLetterI("(");
    NoLetterI("  >= ");
    NoLetterI(" && ");
    NoLetterI("  <= ");
    NoLetterI(")");
    LiteralNoLetterI(lo);
    LiteralNoLetterI(hi);
    BlankAfterIAppend(neg, "(");
    BlankAfterIAppend(neg + "(", lhs);
    BlankAfterIAppend(neg + "(" + lhs, "  >= ");
    BlankAfterIAppend(neg + "(" + lhs + "  >= ", lo);
    BlankAfterIAppend(neg + "(" + lhs + "  >= " + lo, " && ");
    BlankAfterIAppend(neg + "(" + lhs + "  >= " + lo + " && ", lhs);
    BlankAfterIAppend(neg + "(" + lhs + "  >= " + lo + " && " + lhs, "  <= ");
    BlankAfterIAppend(neg + "(" + lhs + "  >= " + lo + " && " + lhs + "  <= ", hi);
    BlankAfterIAppend(neg + "(" + lhs + "  >= " + lo + " && " + lhs + "  <= " + hi, ")");
  }

  lemma RelationTextShape(r: Relation)
    ensures SafeCondition(RelationText(r))
  {
    var lhs := ExprText(r.e);
    ExprTextShape(r.e);
    match r.rhs
    case Value(k) =>
      var op := if r.negated then " != " else " == ";
      NoLetterI(op);
      LiteralNoLetterI(k);
      BlankAfterIAppend(lhs, op);
      BlankAfterIAppend(lhs + op, k);
    case Between(lo, hi) =>
      RangeTextShape(lhs, r.negated, lo, hi);
  }

  lemma {:induction false} ConjunctionShape(c: Cond)
    requires Conjunction(c)
    ensures SafeCondition(Render(c))
  {
    match c
    case Holds(r) =>
      RelationTextShape(r);
    case And(l, r) =>
      ConjunctionShape(l);
      ConjunctionShape(r);
      assert Grouped(l) == Render(l) && Grouped(r) == Render(r);
      NoLetterI(" && ");
      BlankAfterIAppend(Render(l), " && ");
      BlankAfterIAppend(Render(l) + " && ", Render(r));
  }

  lemma {:induction false} DisjunctionShape(c: Cond)
    requires Disjunction(c)
    ensures SafeCondition(Render(c))
  {
    if c.Or? {
      DisjunctionShape(c.left);
      DisjunctionShape(c.right);
      NoLetterI(" || ");
      BlankAfterIAppend(Render(c.left), " || ");
      BlankAfterIAppend(Render(c.left) + " || ", Render(c.right));
    } else {
      ConjunctionShape(c);
    }
  }

  /** The compiled text of a condition that parses is `true` or a safe condition. */
  lemma ClauseSafe(rules: seq<Rule>, j: nat)
    requires CompileRules(rules).Ok? && j < |rules| && Clauses(rules)[j].1 != "true"
    ensures SafeCondition(Clauses(rules)[j].1)
  {
    var ws := rules[j].1;
    assert Parse(ws).Ok?;
    CompileIsRenderOfParse(ws);
    DisjunctionShape(Parse(ws).value);
  }

  lemma BlockGuarded(c: Clause)
    requires SafeCondition(c.1)
    ensures IfGuarded(Block(c) + "\n")
  {
    var s := "  if (" + c.1;
    forall p: nat | p < |s|
      ensures GuardedAt(s, p)
    {
      if p >= 6 {
        assert s[p] == c.1[p - 6];
        assert BlankAfterIAt(c.1, p - 6);
        if p + 1 < |s| {
          assert s[p + 1] == c.1[p - 5];
        }
      } else if p == 2 {
        assert s[6] == c.1[0];
      }
    }
    NameNoLetterI(c.0);
    NoLetterI(") {\n    return '");
    NoLetterI(Name(c.0));
    NoLetterI("';\n  }\n");
    NoLetterI("\n");
    GuardedAppend4(s, ") {\n    return '", Name(c.0), "';\n  }\n");
    GuardedAppend(s + ") {\n    return '" + Name(c.0) + "';\n  }\n", "\n");
  }

  lemma {:induction false} BlocksGuarded(cs: seq<Clause>)
    requires forall j | 0 <= j < |cs| :: SafeCondition(cs[j].1)
    ensures IfGuarded(Blocks(cs))
  {
    if cs == [] {
      NoLetterI("");
    } else {
      BlockGuarded(cs[0]);
      BlocksGuarded(cs[1..]);
      GuardedAppend(Block(cs[0]) + "\n", Blocks(cs[1..]));
    }
  }

  /** At a position of a guarded prefix, the pattern's head cannot match. */
  lemma GuardedNoMatch(a: string, rest: string, p: nat)
    requires IfGuarded(a) && p < |a|
    ensures !TrueTestAt(a + rest, p)
  {
    var s := a + rest;
    if p + 2 <= |s| && s[p..p + 2] == "if" {
      assert GuardedAt(a, p);
      assert s[p] == 'i' && s[p + 1] == 'f';
      assert s[p + 2] == ' ' && s[p + 3] == '(' && s[p + 4] != 't';
      assert SkipBlanks(s, p + 2) == p + 3;
    }
  }

  /** The pattern's head matches where the span begins. */
  lemma SpanMatches(a: string, key: Category, x: string)
    ensures TrueTestAt(a + Span(key) + x, |a|)
  {
    var s := a + Span(key) + x;
    var q := |a|;
    SpanShape(key);
    var w := s[q..q + 9];
    assert w == Span(key)[..9] == "if (true)";
    assert s[q..q + 2] == w[..2] == "if";
    assert s[q + 2] == w[2] == ' ' && s[q + 3] == w[3] == '(';
    assert SkipBlanks(s, q + 2) == q + 3;
    assert s[q + 3..q + 9] == w[3..] == "(true)";
  }

  /** The clauses before the first `true` one (all of them when there is none) have safe conditions. */
  lemma ClausesSafe(rules: seq<Rule>, n: nat)
    requires CompileRules(rules).Ok?
    requires n <= |rules| && (FirstTrue(Clauses(rules)) < 0 || n <= FirstTrue(Clauses(rules)))
    ensures forall j | 0 <= j < n :: SafeCondition(Clauses(rules)[j].1)
  {
    forall j | 0 <= j < n
      ensures SafeCondition(Clauses(rules)[j].1)
    {
      ClauseSafe(rules, j);
    }
  }

  /** Before the first `true` block, every `if` opens a block with a safe condition. */
  lemma GuardedBeforeFirstTrue(rules: seq<Rule>)
    requires CompileRules(rules).Ok? && FirstTrue(Clauses(rules)) >= 0
    ensures var cs := Clauses(rules);
      IfGuarded(Header + "\n" + Blocks(cs[..FirstTrue(cs)]) + "  ")
  {
    var cs := Clauses(rules);
    var pre := cs[..FirstTrue(cs)];
    PrefixSafe(rules);
    BlocksGuarded(pre);
    GuardedFrame(Blocks(pre), "  ");
  }

  lemma PrefixSafe(rules: seq<Rule>)
    requires CompileRules(rules).Ok? && FirstTrue(Clauses(rules)) >= 0
    ensures var pre := Clauses(rules)[..FirstTrue(Clauses(rules))];
      forall j | 0 <= j < |pre| :: SafeCondition(pre[j].1)
  {
    var cs := Clauses(rules);
    var k := FirstTrue(cs);
    ClausesSafe(rules, k);
    forall j | 0 <= j < k
      ensures SafeCondition(cs[..k][j].1)
    {
      assert cs[..k][j] == cs[j];
    }
  }

  /** The header, a newline, a guarded middle and a text without `i`. */
  lemma GuardedFrame(middle: string, tail: string)
    requires IfGuarded(middle) && 'i' !in tail
    ensures IfGuarded(Header + "\n" + middle + tail)
  {
    HeaderGuarded();
    NoLetterI("\n");
    NoLetterI(tail);
    GuardedAppend4(Header, "\n", middle, tail);
  }

  /** In a guarded text the pattern's head matches nowhere. */
  lemma GuardedNoMatchAll(s: string)
    requires IfGuarded(s)
    ensures forall p: nat :: !TrueTestAt(s, p)
  {
    forall p: nat
      ensures !TrueTestAt(s, p)
    {
      if p < |s| {
        GuardedNoMatch(s, [], p);
        assert s + [] == s;
      }
    }
  }

  /** A guarded text before the first `true` block leaves the span as the first match. */
  lemma SpanIsFirstMatch(cs: seq<Clause>, k: nat, a: string)
    requires k < |cs| && k == FirstTrue(cs)
    requires a == Header + "\n" + Blocks(cs[..k]) + "  " && IfGuarded(a)
    ensures TrueTestAt(Code(cs), |a|)
    ensures forall p: nat | p < |a| :: !TrueTestAt(Code(cs), p)
  {
    ReplacementRemovesSpan(cs, k);
    var x := (Blocks(cs[k + 1..]) + Footer)[2..];
    SpanMatches(a, cs[k].0, x);
    Regroup(a, Span(cs[k].0), x);
    forall p: nat | p < |a|
      ensures !TrueTestAt(Code(cs), p)
    {
      GuardedNoMatch(a, Span(cs[k].0) + x, p);
    }
  }

  /** Without a `true` block the whole text is guarded: the pattern matches nowhere. */
  lemma NoTrueBlockNoMatch(rules: seq<Rule>)
    requires CompileRules(rules).Ok? && FirstTrue(Clauses(rules)) < 0
    ensures Generate(rules) == Code(Clauses(rules))
    ensures forall p: nat :: !TrueTestAt(Code(Clauses(rules)), p)
  {
    var cs := Clauses(rules);
    ClausesSafe(rules, |rules|);
    BlocksGuarded(cs);
    GuardedFrame(Blocks(cs), Footer);
    GuardedNoMatchAll(Code(cs));
  }

  /**
   * For a table that compiles, the pattern first matches at the first `true` block:
   * before it every `if` opens a block whose condition does not start with `true`,
   * and the compiled conditions, the header and the keys hold no `if` of their own.
   * With no `true` block the pattern matches nowhere and the text is left as it is.
   */
  lemma FirstTrueIsFirstMatch(rules: seq<Rule>)
    requires CompileRules(rules).Ok?
    ensures var cs := Clauses(rules);
      var k := FirstTrue(cs);
      k >= 0 ==>
        var a := Header + "\n" + Blocks(cs[..k]) + "  ";
        TrueTestAt(Code(cs), |a|) && forall p: nat | p < |a| :: !TrueTestAt(Code(cs), p)
    ensures var cs := Clauses(rules);
      FirstTrue(cs) < 0 ==> Generate(rules) == Code(cs) && forall p: nat :: !TrueTestAt(Code(cs), p)
  {
    var cs := Clauses(rules);
    var k := FirstTrue(cs);
    if k >= 0 {
      GuardedBeforeFirstTrue(rules);
      SpanIsFirstMatch(cs, k, Header + "\n" + Blocks(cs[..k]) + "  ");
    } else {
      NoTrueBlockNoMatch(rules);
    }
  }

  // ---------------------------------------------------------------------------
  // What the generated categorizer computes

  /**
   * The category the generated text returns for `x`: the kept blocks are tried in
   * order and `other` is the fallback. Each condition text is the rendering of its
   * parse (`CompileIsRenderOfParse`), so a block's test is `Eval` of that parse.
   */
  function GeneratedCategory(rules: seq<Rule>, x: Operands): (o: Outcome)
    ensures CompileRules(rules).Ok? ==> o.Categorized?
  {
    WithoutCompiles(rules, FirstTrue(Clauses(rules)));
    match CompileRules(Without(rules, FirstTrue(Clauses(rules))))
    case Err(_) => Broken
    case Ok(p) => Categorized(FirstMatch(p, x))
  }

  /** Each element of `Without(s, k)` is the element of `s` at the same place or the next. */
  lemma WithoutIndex<T>(s: seq<T>, k: int, j: nat)
    requires -1 <= k < |s| && j < |Without(s, k)|
    ensures Without(s, k)[j] == if k < 0 || j < k then s[j] else s[j + 1]
  {
  }

  /** Removing one rule from a table that compiles leaves a table that compiles. */
  lemma WithoutCompiles(rules: seq<Rule>, k: int)
    requires -1 <= k < |rules|
    ensures CompileRules(rules).Ok? ==> CompileRules(Without(rules, k)).Ok?
  {
    if CompileRules(rules).Ok? {
      var w := Without(rules, k);
      forall j | 0 <= j < |w|
        ensures Parse(w[j].1).Ok?
      {
        WithoutIndex(rules, k, j);
      }
    }
  }

  /**
   * As written, the removal also drops an always-true block that is not the
   * fallback: for the table `{one: ''}` every input is `one` by the rules, but the
   * generated text has no block left and answers `other`.
   */
  lemma RemovalChangesCategory(x: Operands)
    ensures var rules: seq<Rule> := [(One, [])];
      && Categorize(CompileRules(rules), x.n) == Categorized(One)
      && Generate(rules) == Header + "\n" + Footer
      && GeneratedCategory(rules, x) == Categorized(Other)
  {
    var rules: seq<Rule> := [(One, [])];
    assert Parse(rules[0].1) == Ok(Always);
    assert CompileRules(rules).value[0] == (One, Always);
    OneTrueBlockRemoved();
  }

  /** The table `{one: ''}` has its only block removed, in the text and in the rules. */
  lemma OneTrueBlockRemoved()
    ensures var rules: seq<Rule> := [(One, [])];
      && FirstTrue(Clauses(rules)) == 0
      && Without(rules, 0) == []
      && Generate(rules) == Header + "\n" + Footer
  {
    var rules: seq<Rule> := [(One, [])];
    assert FirstTrue(Clauses(rules)) == 0;
    assert Without(Clauses(rules), 0) == [];
  }

  /** The removal as evidently intended: only a final always-true `other` block goes. */
  function CorrectedIndex(cs: seq<Clause>): (k: int)
    ensures -1 <= k < |cs|
    ensures k >= 0 ==> k == |cs| - 1 && cs[k].0 == Other && cs[k].1 == "true"
  {
    var k := FirstTrue(cs);
    if k >= 0 && k == |cs| - 1 && cs[k].0 == Other then k else -1
  }

  function GenerateCorrected(rules: seq<Rule>): string {
    var cs := Clauses(rules);
    Code(Without(cs, CorrectedIndex(cs)))
  }

  /** The corrected text categorizes every input exactly as the rules do. */
  lemma CorrectedKeepsCategories(rules: seq<Rule>)
    requires CompileRules(rules).Ok?
    ensures CompileRules(Without(rules, CorrectedIndex(Clauses(rules)))).Ok?
    ensures forall x :: FirstMatch(CompileRules(Without(rules, CorrectedIndex(Clauses(rules)))).value, x)
                        == FirstMatch(CompileRules(rules).value, x)
  {
    var k := CorrectedSplit(rules);
    if k >= 0 {
      DropTrailingOther(Without(rules, k), rules[k]);
    }
  }

  /** Where the corrected removal applies, it removes a final `other` rule. */
  lemma CorrectedSplit(rules: seq<Rule>) returns (k: int)
    ensures k == CorrectedIndex(Clauses(rules)) && -1 <= k < |rules|
    ensures k >= 0 ==> rules[k].0 == Other && rules == Without(rules, k) + [rules[k]]
  {
    var cs := Clauses(rules);
    k := CorrectedIndex(cs);
    if k >= 0 {
      assert cs[k].0 == rules[k].0;
      assert rules[k + 1..] == [];
      assert Without(rules, k) == rules[..k];
      assert rules == rules[..k] + [rules[k]];
    }
  }

  /** Dropping a final `other` rule keeps the table compiling and every category unchanged. */
  lemma DropTrailingOther(pre: seq<Rule>, last: Rule)
    requires last.0 == Other && CompileRules(pre + [last]).Ok?
    ensures CompileRules(pre).Ok?
    ensures forall x :: FirstMatch(CompileRules(pre).value, x) == FirstMatch(CompileRules(pre + [last]).value, x)
  {
    CompileRulesAppend(pre, [last]);
    var p := CompileRules(pre).value;
    var c := Parse(last.1).value;
    assert CompileRules([last]).value == [(Other, c)];
    assert CompileRules(pre + [last]).value == p + [(Other, c)];
    forall x
      ensures FirstMatch(p, x) == FirstMatch(p + [(Other, c)], x)
    {
      TrailingOtherIsRedundant(p, c, x);
    }
  }
}
