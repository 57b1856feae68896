/**
 * The English cardinal rules used throughout the tests: `one` for `i = 1 and v = 0`,
 * `other` otherwise. Their parse, the categorizer text generated from them, and the
 * hand-written categorizer both agree with.
 */
module English {
  import opened Wrappers
  import opened Categories
  import opened Numbers
  import opened Conditions
  import opened Rules
  import opened Generator

  /** `i = 1 and v = 0` */
  const OneWords: seq<Word> := [OperandWord(I), Equals, Number("1"), AndWord, OperandWord(V), Equals, Number("0")]

  const CardinalRules: seq<Rule> := [(One, OneWords), (Other, [])]

  const OneCond: Cond :=
    And(Holds(Relation(Plain(I), false, Value("1"))), Holds(Relation(Plain(V), false, Value("0"))))

  const Program: Rules.Program := [(One, OneCond), (Other, Always)]

  /** The categorizer written by hand in the generator's test. */
  function HandWritten(x: Operands): Category {
    if x.i == Num(1.0) && x.v == 0 then One else Other
  }

  lemma OneParses(ws: seq<Word>)
    requires ws == OneWords
    ensures Parse(ws) == Ok(OneCond)
  {
    assert ParseExpr(ws, 0) == Some((Plain(I), 1));
    assert ParseExpr(ws, 4) == Some((Plain(V), 5));
    assert ParseAnd(ws, 4, false) == Ok((OneCond.right, 7));
    assert ParseAnd(ws, 0, true) == Ok((OneCond, 7));
  }

  lemma Compiles()
    ensures CompileRules(CardinalRules) == Ok(Program)
  {
    var rules, p := CardinalRules, Program;
    assert rules[0] == (One, OneWords) && p[0] == (One, OneCond);
    assert rules[1] == (Other, []) && p[1] == (Other, Always);
    OneParses(rules[0].1);
    CompilesTo(rules, p);
  }

  /** The program answers `one` exactly when the `one` condition holds. */
  lemma ProgramCategory(x: Operands)
    ensures FirstMatch(Program, x) == if Eval(OneCond, x) then One else Other
  {
    var p1: Rules.Program := [(Other, Always)];
    assert Program == [(One, OneCond)] + p1;
    assert Program[1..] == p1 && p1[1..] == [];
  }

  /** The condition `i = 1 and v = 0` holds exactly when the hand-written test does. */
  lemma OneCondIsHandWritten(x: Operands)
    ensures Eval(OneCond, x) <==> x.i == Num(1.0) && x.v == 0
  {
    assert LiteralValue("1") == 1 && LiteralValue("0") == 0;
  }

  /** The rules categorize every number as the hand-written categorizer does. */
  lemma RulesAreHandWritten(num: Numeral)
    ensures Categorize(CompileRules(CardinalRules), num) == Categorized(HandWritten(Derive(num)))
  {
    Compiles();
    ProgramCategory(Derive(num));
    OneCondIsHandWritten(Derive(num));
  }

  /** A whole number is `one` exactly when it is 1. */
  lemma WholeNumber(num: Numeral)
    requires '.' !in num
    ensures Categorize(CompileRules(CardinalRules), num) ==
      Categorized(if DigitsValue(num) == 1 then One else Other)
  {
    RulesAreHandWritten(num);
  }

  /** A number written with a dot is never `one`: its `v` counts the dot. */
  lemma Dotted(num: Numeral)
    requires '.' in num
    ensures Categorize(CompileRules(CardinalRules), num) == Categorized(Other)
  {
    RulesAreHandWritten(num);
  }

  /** 1 is `one`; 0 and 18 are `other`. */
  lemma WholeExamples(num: Numeral)
    ensures num == "1" ==> Categorize(CompileRules(CardinalRules), num) == Categorized(One)
    ensures num == "0" ==> Categorize(CompileRules(CardinalRules), num) == Categorized(Other)
    ensures num == "18" ==> Categorize(CompileRules(CardinalRules), num) == Categorized(Other)
  {
    if num == "1" {
      assert '.' !in num && DigitsValue(num) == 1;
      WholeNumber(num);
    } else if num == "0" {
      assert '.' !in num && DigitsValue(num) == 0;
      WholeNumber(num);
    } else if num == "18" {
      assert '.' !in num && DigitsValue(num) == 18;
      WholeNumber(num);
    }
  }

  /** 0.0 and 1.0 are `other`. */
  lemma DottedExamples(num: Numeral)
    ensures num == "0.0" ==> Categorize(CompileRules(CardinalRules), num) == Categorized(Other)
    ensures num == "1.0" ==> Categorize(CompileRules(CardinalRules), num) == Categorized(Other)
  {
    if num == "0.0" || num == "1.0" {
      assert num[1] == '.';
      Dotted(num);
    }
  }

  /**
   * On every text with fraction digits or without a dot, the operands as UTS #35 defines
   * them give the same category as the operands as written.
   */
  lemma CorrectedOperandsSameCategory(num: Numeral)
    requires '.' !in num || num[|num| - 1] != '.'
    ensures HandWritten(CldrOperands(num)) == HandWritten(Derive(num))
  {
    OperandsAgree(num);
  }

  /** The table of the self-contained pluralizer's test: the `one` rule alone. */
  const OneRule: seq<Rule> := [(One, OneWords)]

  /** Leaving out the empty `other` rule changes no category: `other` is the fallback anyway. */
  lemma OneRuleOnly(num: Numeral)
    ensures CompileRules(OneRule).Ok?
    ensures Categorize(CompileRules(OneRule), num) == Categorize(CompileRules(CardinalRules), num)
  {
    Compiles();
    assert CardinalRules == OneRule + [(Other, [])];
    DropTrailingOther(OneRule, (Other, []));
  }

  /** With the `one` rule alone: 1 is `one`; 0, 2 and 2.01 are `other`. */
  lemma OneRuleExamples(num: Numeral)
    ensures num == "1" ==> Categorize(CompileRules(OneRule), num) == Categorized(One)
    ensures num == "0" || num == "2" ==> Categorize(CompileRules(OneRule), num) == Categorized(Other)
    ensures num == "2.01" ==> Categorize(CompileRules(OneRule), num) == Categorized(Other)
  {
    OneRuleOnly(num);
    if num == "1" {
      assert '.' !in num && DigitsValue(num) == 1;
      WholeNumber(num);
    } else if num == "0" || num == "2" {
      assert '.' !in num && DigitsValue(num) != 1;
      WholeNumber(num);
    } else if num == "2.01" {
      assert num[1] == '.';
      Dotted(num);
    }
  }

  /** The JavaScript text of the `one` condition. */
  lemma OneRendered()
    ensures Render(OneCond) == "i == 1 && v == 0"
  {
  }

  /** The clauses of the table: `one` with its text, then `other` with `true`. */
  lemma TableClauses(rules: seq<Rule>)
    requires rules == CardinalRules
    ensures Clauses(rules) == [(One, "i == 1 && v == 0"), (Other, "true")]
    ensures FirstTrue(Clauses(rules)) == 1
  {
    OneParses(rules[0].1);
    CompileIsRenderOfParse(rules[0].1);
    OneRendered();
    var cs := Clauses(rules);
    assert rules[0] == (One, OneWords) && rules[1] == (Other, []);
    assert cs[0] == (One, "i == 1 && v == 0") && cs[1] == (Other, "true");
    assert cs[0].1 != "true" by {
      assert cs[0].1[0] == 'i';
    }
  }

  /**
   * The generated text keeps one block, `if (i == 1 && v == 0) { return 'one'; }`,
   * between the header and the fallback: the `other` block is removed.
   */
  lemma GeneratedText(rules: seq<Rule>)
    requires rules == CardinalRules
    ensures Generate(rules) == Code([(One, "i == 1 && v == 0")])
    ensures Generate(rules) == Header + "\n" + Block((One, "i == 1 && v == 0")) + "\n" + Footer
  {
    TableClauses(rules);
    var c: Clause := (One, "i == 1 && v == 0");
    assert Without(Clauses(rules), 1) == [c];
    assert Blocks([c]) == Block(c) + "\n" by {
      assert [c][1..] == [];
    }
  }

  /** The generated categorizer answers exactly as the hand-written one. */
  lemma GeneratedIsHandWritten(rules: seq<Rule>, x: Operands)
    requires rules == CardinalRules
    ensures GeneratedCategory(rules, x) == Categorized(HandWritten(x))
  {
    TableClauses(rules);
    var kept := Without(rules, 1);
    assert kept == [(One, OneWords)];
    OneParses(kept[0].1);
    CompilesTo(kept, [(One, OneCond)]);
    OneCondIsHandWritten(x);
    var p: Rules.Program := [(One, OneCond)];
    assert FirstMatch(p, x) == if Eval(OneCond, x) then One else Other by {
      assert p[1..] == [];
    }
    assert GeneratedCategory(rules, x) == Categorized(FirstMatch(p, x));
  }
}
