/**
 * A cardinal rule set and the categorizer it defines: the rules are tried in their
 * declared order, the first whose condition holds gives the category, and `other`
 * is the fallback when none does.
 */
module Rules {
  import opened Wrappers
  import opened Categories
  import opened Numbers
  import opened Conditions

  /** One entry of a cardinal rule table: a category and its condition's words. */
  type Rule = (Category, seq<Word>)

  /** The compiled form of a rule table: each category with its parsed condition. */
  type Program = seq<(Category, Cond)>

  /**
   * Compiling a rule table: the table is rejected as a whole as soon as one condition
   * lies outside the modelled grammar (in the source, the engine rejects the generated
   * function when one rewritten condition is not valid JavaScript).
   */
  function CompileRules(rules: seq<Rule>): (r: Result<Program>)
    ensures r.Ok? <==> forall k | 0 <= k < |rules| :: Parse(rules[k].1).Ok?
    ensures r.Ok? ==> |r.value| == |rules|
    ensures r.Ok? ==> forall k | 0 <= k < |rules| ::
      r.value[k] == (rules[k].0, Parse(rules[k].1).value)
  {
    if rules == [] then Ok([])
    else
      match Parse(rules[0].1)
      case Err(e) => Err(e)
      case Ok(c) =>
        match CompileRules(rules[1..])
        case Err(e) => Err(e)
        case Ok(rest) =>
          assert forall k | 1 <= k < |rules| :: rules[k] == rules[1..][k - 1];
          Ok([(rules[0].0, c)] + rest)
  }

  /** A table compiles when both its parts do, to the two programs one after the other. */
  lemma {:induction false} CompileRulesAppend(a: seq<Rule>, b: seq<Rule>)
    ensures CompileRules(a + b).Ok? <==> CompileRules(a).Ok? && CompileRules(b).Ok?
    ensures CompileRules(a + b).Ok? ==>
      CompileRules(a + b).value == CompileRules(a).value + CompileRules(b).value
  {
    if a == [] {
      assert a + b == b;
    } else {
      assert (a + b)[0] == a[0] && (a + b)[1..] == a[1..] + b;
      CompileRulesAppend(a[1..], b);
      if CompileRules(a + b).Ok? {
        var head := [(a[0].0, Parse(a[0].1).value)];
        assert head + (CompileRules(a[1..]).value + CompileRules(b).value)
          == (head + CompileRules(a[1..]).value) + CompileRules(b).value;
      }
    }
  }

  /** A table compiles to the program that pairs each category with its parsed condition. */
  lemma CompilesTo(rules: seq<Rule>, p: Program)
    requires |rules| == |p|
    requires forall k | 0 <= k < |rules| :: rules[k].0 == p[k].0 && Parse(rules[k].1) == Ok(p[k].1)
    ensures CompileRules(rules) == Ok(p)
  {
    var r := CompileRules(rules);
    assert r.Ok?;
    assert |r.value| == |p|;
    assert forall k | 0 <= k < |p| :: r.value[k] == p[k];
    assert r.value == p;
  }

  /**
   * The category of the first entry whose condition holds, or `other`: a category
   * other than `other` is the category of an entry that holds, and when no entry
   * holds the answer is `other`.
   */
  function FirstMatch(p: Program, x: Operands): (c: Category)
    ensures c != Other ==> exists k | 0 <= k < |p| :: p[k].0 == c && Eval(p[k].1, x)
    ensures (forall k | 0 <= k < |p| :: !Eval(p[k].1, x)) ==> c == Other
  {
    if p == [] then Other
    else if Eval(p[0].1, x) then p[0].0
    else
      assert forall k | 1 <= k < |p| :: p[k] == p[1..][k - 1];
      FirstMatch(p[1..], x)
  }

  /** The position of the first entry whose condition holds, or -1. */
  function MatchIndex(p: Program, x: Operands): (k: int)
    ensures -1 <= k < |p|
    ensures k >= 0 ==> Eval(p[k].1, x)
    ensures forall j | 0 <= j < |p| && (k < 0 || j < k) :: !Eval(p[j].1, x)
  {
    if p == [] then -1
    else if Eval(p[0].1, x) then 0
    else
      var k := MatchIndex(p[1..], x);
      assert forall j | 1 <= j < |p| :: p[j] == p[1..][j - 1];
      if k < 0 then -1 else k + 1
  }

  /**
   * First match wins: the categorizer returns the category of the first entry whose
   * condition holds, and `other` exactly when no condition holds (or `other` itself
   * is the first one that does).
   */
  lemma {:induction false} FirstMatchIsFirst(p: Program, x: Operands)
    ensures MatchIndex(p, x) >= 0 ==> FirstMatch(p, x) == p[MatchIndex(p, x)].0
    ensures MatchIndex(p, x) < 0 ==> FirstMatch(p, x) == Other
  {
    if p != [] && !Eval(p[0].1, x) {
      FirstMatchIsFirst(p[1..], x);
    }
  }

  /** An entry whose condition is `true` ends the search: nothing after it is reached. */
  lemma {:induction false} AlwaysEndsSearch(p: Program, k: nat, x: Operands)
    requires k < |p| && p[k].1 == Always
    ensures 0 <= MatchIndex(p, x) <= k
    ensures FirstMatch(p, x) == p[MatchIndex(p, x)].0
  {
    FirstMatchIsFirst(p, x);
  }

  /** A trailing `other` entry never changes the result, whatever its condition. */
  lemma {:induction false} TrailingOtherIsRedundant(p: Program, c: Cond, x: Operands)
    ensures FirstMatch(p + [(Other, c)], x) == FirstMatch(p, x)
  {
    if p != [] {
      assert (p + [(Other, c)])[1..] == p[1..] + [(Other, c)];
      TrailingOtherIsRedundant(p[1..], c, x);
    }
  }

  /** The categorizer outcome of a rule table: a category, or a broken function. */
  datatype Outcome = Categorized(c: Category) | Broken

  /**
   * What the function compiled from `rules` returns for the text `num`. A rule table
   * that does not compile yields a function that answers every call with the error
   * and the code instead of a category (the source catches the engine's error when
   * the function is built and substitutes one that returns it).
   */
  function Categorize(program: Result<Program>, num: Numeral): (o: Outcome)
    ensures o.Broken? <==> program.Err?
  {
    match program
    case Err(_) => Broken
    case Ok(p) => Categorized(FirstMatch(p, Derive(num)))
  }
}
