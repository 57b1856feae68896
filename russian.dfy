/**
 * The Russian cardinal rules (`src/plural/fixture/ru.ts`) as rule tables: their
 * parse, the categories they give, the grouping `and`-before-`or` they rely on,
 * and their range table.
 */
module Russian {
  import opened Wrappers
  import opened Categories
  import opened Numbers
  import opened Conditions
  import opened Rules
  import Generator

  /** `v = 0 and i % 10 = 1 and i % 100 != 11` */
  const OneWords: seq<Word> := [
    OperandWord(V), Equals, Number("0"), AndWord,
    OperandWord(I), Percent, Number("10"), Equals, Number("1"), AndWord,
    OperandWord(I), Percent, Number("100"), NotEquals, Number("11")]

  /** `v = 0 and i % 10 = 2..4 and i % 100 != 12..14` */
  const FewWords: seq<Word> := [
    OperandWord(V), Equals, Number("0"), AndWord,
    OperandWord(I), Percent, Number("10"), Equals, RangeWord("2", "4"), AndWord,
    OperandWord(I), Percent, Number("100"), NotEquals, RangeWord("12", "14")]

  /** `v = 0 and i % 10 = 0 or v = 0 and i % 10 = 5..9 or v = 0 and i % 100 = 11..14` */
  const ManyWords: seq<Word> := [
    OperandWord(V), Equals, Number("0"), AndWord,
    OperandWord(I), Percent, Number("10"), Equals, Number("0"), OrWord,
    OperandWord(V), Equals, Number("0"), AndWord,
    OperandWord(I), Percent, Number("10"), Equals, RangeWord("5", "9"), OrWord,
    OperandWord(V), Equals, Number("0"), AndWord,
    OperandWord(I), Percent, Number("100"), Equals, RangeWord("11", "14")]

  /** The cardinal table in its declared order: one, few, many, then the empty `other`. */
  const CardinalRules: seq<Rule> := [(One, OneWords), (Few, FewWords), (Many, ManyWords), (Other, [])]

  const IsInteger: Relation := Relation(Plain(V), false, Value("0"))

  const OneCond: Cond :=
    And(Holds(IsInteger),
      And(Holds(Relation(Mod(I, "10"), false, Value("1"))),
        Holds(Relation(Mod(I, "100"), true, Value("11")))))

  const FewCond: Cond :=
    And(Holds(IsInteger),
      And(Holds(Relation(Mod(I, "10"), false, Between("2", "4"))),
        Holds(Relation(Mod(I, "100"), true, Between("12", "14")))))

  const ManyCond: Cond :=
    Or(And(Holds(IsInteger), Holds(Relation(Mod(I, "10"), false, Value("0")))),
      Or(And(Holds(IsInteger), Holds(Relation(Mod(I, "10"), false, Between("5", "9")))),
        And(Holds(IsInteger), Holds(Relation(Mod(I, "100"), false, Between("11", "14"))))))

  const Program: Rules.Program := [(One, OneCond), (Few, FewCond), (Many, ManyCond), (Other, Always)]

  /** `expr (=|!=) rhs` at ws[i] followed by `and` and a relation at ws[i + 4]. */
  lemma OneParses()
    ensures Parse(OneWords) == Ok(OneCond)
  {
    var ws := OneWords;
    var r2 := Relation(Mod(I, "10"), false, Value("1"));
    var r3 := Relation(Mod(I, "100"), true, Value("11"));
    assert ParseExpr(ws, 0) == Some((Plain(V), 1));
    assert ParseRelation(ws, 0, true) == Ok((IsInteger, 3));
    assert ParseExpr(ws, 4) == Some((Mod(I, "10"), 7));
    assert ParseRelation(ws, 4, false) == Ok((r2, 9));
    assert ParseExpr(ws, 10) == Some((Mod(I, "100"), 13));
    assert ParseRelation(ws, 10, false) == Ok((r3, 15));
    assert ParseAnd(ws, 10, false) == Ok((Holds(r3), 15));
    assert ParseAnd(ws, 4, false) == Ok((And(Holds(r2), Holds(r3)), 15));
    assert ParseAnd(ws, 0, true) == Ok((OneCond, 15));
    assert ParseOr(ws, 0, true) == Ok((OneCond, 15));
  }

  /** The range tests of `few` follow the first relation, so they are rewritten and accepted. */
  lemma FewParses()
    ensures Parse(FewWords) == Ok(FewCond)
  {
    var ws := FewWords;
    var r2 := Relation(Mod(I, "10"), false, Between("2", "4"));
    var r3 := Relation(Mod(I, "100"), true, Between("12", "14"));
    assert ParseExpr(ws, 0) == Some((Plain(V), 1));
    assert ParseRelation(ws, 0, true) == Ok((IsInteger, 3));
    assert ParseExpr(ws, 4) == Some((Mod(I, "10"), 7));
    assert ParseRelation(ws, 4, false) == Ok((r2, 9));
    assert ParseExpr(ws, 10) == Some((Mod(I, "100"), 13));
    assert ParseRelation(ws, 10, false) == Ok((r3, 15));
    assert ParseAnd(ws, 10, false) == Ok((Holds(r3), 15));
    assert ParseAnd(ws, 4, false) == Ok((And(Holds(r2), Holds(r3)), 15));
    assert ParseAnd(ws, 0, true) == Ok((FewCond, 15));
    assert ParseOr(ws, 0, true) == Ok((FewCond, 15));
  }

  /**
   * A chain `v = 0 and i % m = rhs` at ws[i] that ends at ws[i + 9]: a range on the
   * right is accepted only away from the start of the condition.
   */
  lemma IntegerChain(ws: seq<Word>, i: nat, atStart: bool, m: Literal, last: Word, rhs: Rhs)
    requires i + 9 <= |ws|
    requires ws[i] == OperandWord(V) && ws[i + 1] == Equals && ws[i + 2] == Number("0") && ws[i + 3] == AndWord
    requires ws[i + 4] == OperandWord(I) && ws[i + 5] == Percent && ws[i + 6] == Number(m) && ws[i + 7] == Equals
    requires ws[i + 8] == last
    requires (rhs.Value? && last == Number(rhs.k)) || (rhs.Between? && last == RangeWord(rhs.lo, rhs.hi))
    requires i + 9 == |ws| || ws[i + 9] != AndWord
    ensures ParseAnd(ws, i, atStart) ==
      Ok((And(Holds(IsInteger), Holds(Relation(Mod(I, m), false, rhs))), i + 9))
  {
    assert ParseExpr(ws, i) == Some((Plain(V), i + 1));
    assert ParseRelation(ws, i, atStart) == Ok((IsInteger, i + 3));
    assert ParseExpr(ws, i + 4) == Some((Mod(I, m), i + 7));
    assert ParseRelation(ws, i + 4, false) == Ok((Relation(Mod(I, m), false, rhs), i + 9));
  }

  /** `left or rest` at ws[i], from the parses of its two sides. */
  lemma OrStep(ws: seq<Word>, i: nat, atStart: bool, left: Cond, j: nat, rest: Cond, k: nat)
    requires i <= |ws|
    requires ParseAnd(ws, i, atStart) == Ok((left, j))
    requires j < |ws| && ws[j] == OrWord
    requires ParseOr(ws, j + 1, false) == Ok((rest, k))
    ensures ParseOr(ws, i, atStart) == Ok((Or(left, rest), k))
  {
    var r := ParseOr(ws, i, atStart);
    assert ParseAnd(ws, i, atStart).Ok? && ParseAnd(ws, i, atStart).value == (left, j);
    assert r == Ok((Or(left, rest), k));
  }

  /** A word sequence spelled like `many`'s parses to its condition. */
  lemma ManyShape(ws: seq<Word>)
    requires |ws| == 29 && ws[9] == OrWord && ws[19] == OrWord
    requires ws[0] == OperandWord(V) && ws[1] == Equals && ws[2] == Number("0") && ws[3] == AndWord
    requires ws[4] == OperandWord(I) && ws[5] == Percent && ws[6] == Number("10") && ws[7] == Equals
    requires ws[8] == Number("0")
    requires ws[10] == OperandWord(V) && ws[11] == Equals && ws[12] == Number("0") && ws[13] == AndWord
    requires ws[14] == OperandWord(I) && ws[15] == Percent && ws[16] == Number("10") && ws[17] == Equals
    requires ws[18] == RangeWord("5", "9")
    requires ws[20] == OperandWord(V) && ws[21] == Equals && ws[22] == Number("0") && ws[23] == AndWord
    requires ws[24] == OperandWord(I) && ws[25] == Percent && ws[26] == Number("100") && ws[27] == Equals
    requires ws[28] == RangeWord("11", "14")
    ensures Parse(ws) == Ok(ManyCond)
  {
    var c1 := And(Holds(IsInteger), Holds(Relation(Mod(I, "10"), false, Value("0"))));
    var c2 := And(Holds(IsInteger), Holds(Relation(Mod(I, "10"), false, Between("5", "9"))));
    var c3 := And(Holds(IsInteger), Holds(Relation(Mod(I, "100"), false, Between("11", "14"))));
    IntegerChain(ws, 0, true, "10", Number("0"), Value("0"));
    IntegerChain(ws, 10, false, "10", RangeWord("5", "9"), Between("5", "9"));
    IntegerChain(ws, 20, false, "100", RangeWord("11", "14"), Between("11", "14"));
    OrStep(ws, 10, false, c2, 19, c3, 29);
    OrStep(ws, 0, true, c1, 9, Or(c2, c3), 29);
  }

  lemma ManyFirstChain()
    ensures |ManyWords| == 29 && ManyWords[9] == OrWord && ManyWords[19] == OrWord
    ensures ManyWords[0] == OperandWord(V) && ManyWords[1] == Equals && ManyWords[2] == Number("0")
    ensures ManyWords[3] == AndWord && ManyWords[4] == OperandWord(I) && ManyWords[5] == Percent
    ensures ManyWords[6] == Number("10") && ManyWords[7] == Equals && ManyWords[8] == Number("0")
  {
  }

  lemma ManySecondChain()
    ensures ManyWords[10] == OperandWord(V) && ManyWords[11] == Equals && ManyWords[12] == Number("0")
    ensures ManyWords[13] == AndWord && ManyWords[14] == OperandWord(I) && ManyWords[15] == Percent
    ensures ManyWords[16] == Number("10") && ManyWords[17] == Equals && ManyWords[18] == RangeWord("5", "9")
  {
  }

  lemma ManyThirdChain()
    ensures ManyWords[20] == OperandWord(V) && ManyWords[21] == Equals && ManyWords[22] == Number("0")
    ensures ManyWords[23] == AndWord && ManyWords[24] == OperandWord(I) && ManyWords[25] == Percent
    ensures ManyWords[26] == Number("100") && ManyWords[27] == Equals && ManyWords[28] == RangeWord("11", "14")
  {
  }

  /** The three chains of `many` are joined by `or`, each grouped as a whole. */
  lemma ManyParses()
    ensures Parse(ManyWords) == Ok(ManyCond)
  {
    ManyFirstChain();
    ManySecondChain();
    ManyThirdChain();
    ManyShape(ManyWords);
  }

  /** The whole table compiles to the program above. */
  lemma Compiles()
    ensures CompileRules(CardinalRules) == Ok(Program)
  {
    var rules, p := CardinalRules, Program;
    assert rules[0] == (One, OneWords) && p[0] == (One, OneCond);
    assert rules[1] == (Few, FewWords) && p[1] == (Few, FewCond);
    assert rules[2] == (Many, ManyWords) && p[2] == (Many, ManyCond);
    assert rules[3] == (Other, []) && p[3] == (Other, Always);
    forall k | 0 <= k < |rules|
      ensures rules[k].0 == p[k].0 && Parse(rules[k].1) == Ok(p[k].1)
    {
      if k == 0 {
        OneParses();
      } else if k == 1 {
        FewParses();
      } else if k == 2 {
        ManyParses();
      }
    }
    CompilesTo(rules, p);
  }

  // ---------------------------------------------------------------------------
  // The categories the rules give

  /** JavaScript's `%` on a whole number is the remainder of integer division. */
  lemma JsModNat(k: nat, m: nat)
    requires m > 0
    ensures JsMod(Num(k as real), m) == Num((k % m) as real)
  {
    var q, r := k / m, k % m;
    assert k == q * m + r;
    var x := (k as real) / (m as real);
    assert x == q as real + (r as real) / (m as real);
    DivBelowOne(r as real, m as real);
    assert x.Floor == q;
  }

  /** The text `num + ''` of a whole number. */
  function Integer(k: nat): (s: Numeral)
    ensures '.' !in s && ToNumber(s) == Num(k as real)
    ensures Derive(s) == Operands(s, Num(k as real), 0, 0)
  {
    NatTextToNumber(k);
    NatTextCanonical(k);
    NatText(k)
  }

  /** The Russian category of a whole number, as CLDR describes it by its last two digits. */
  function IntegerCategory(k: nat): Category {
    if k % 10 == 1 && k % 100 != 11 then One
    else if 2 <= k % 10 <= 4 && !(12 <= k % 100 <= 14) then Few
    else Many
  }

  /** The program gives the category of the first of one, few, many whose condition holds. */
  lemma ProgramCategory(x: Operands)
    ensures FirstMatch(Program, x) ==
      if Eval(OneCond, x) then One
      else if Eval(FewCond, x) then Few
      else if Eval(ManyCond, x) then Many
      else Other
  {
    var p3: Rules.Program := [(Other, Always)];
    var p2: Rules.Program := [(Many, ManyCond)] + p3;
    var p1: Rules.Program := [(Few, FewCond)] + p2;
    assert Program == [(One, OneCond)] + p1;
    assert FirstMatch(p3, x) == Other by {
      assert p3[1..] == [];
    }
    assert p2[1..] == p3 && p1[1..] == p2 && Program[1..] == p1;
    assert FirstMatch(p2, x) == if Eval(ManyCond, x) then Many else Other;
    assert FirstMatch(p1, x) == if Eval(FewCond, x) then Few else FirstMatch(p2, x);
  }

  /** The value of `i % m` for a whole number `i`. */
  lemma WholeRemainder(x: Operands, k: nat, m: Literal)
    requires x.i == Num(k as real) && LiteralValue(m) > 0
    ensures ExprValue(Mod(I, m), x) == Num((k % LiteralValue(m)) as real)
  {
    JsModNat(k, LiteralValue(m));
  }

  /** The literals of the rules, read as numbers. */
  lemma LiteralValues()
    ensures LiteralValue("10") == 10 && LiteralValue("100") == 100
    ensures LiteralValue("0") == 0 && LiteralValue("1") == 1 && LiteralValue("11") == 11
    ensures LiteralValue("2") == 2 && LiteralValue("4") == 4 && LiteralValue("5") == 5 && LiteralValue("9") == 9
    ensures LiteralValue("12") == 12 && LiteralValue("14") == 14
  {
  }

  /** For a whole number, `one` and `few` test its last one and two digits. */
  lemma WholeNumberOneFew(x: Operands, k: nat)
    requires x.i == Num(k as real) && x.v == 0
    ensures Eval(OneCond, x) <==> k % 10 == 1 && k % 100 != 11
    ensures Eval(FewCond, x) <==> 2 <= k % 10 <= 4 && !(12 <= k % 100 <= 14)
  {
    LiteralValues();
    WholeRemainder(x, k, "10");
    WholeRemainder(x, k, "100");
    var d, h := k % 10, k % 100;
    assert Satisfies(IsInteger, x);
    assert Satisfies(Relation(Mod(I, "10"), false, Value("1")), x) <==> d == 1;
    assert Satisfies(Relation(Mod(I, "100"), true, Value("11")), x) <==> h != 11;
    assert Satisfies(Relation(Mod(I, "10"), false, Between("2", "4")), x) <==> 2 <= d <= 4;
    assert Satisfies(Relation(Mod(I, "100"), true, Between("12", "14")), x) <==> !(12 <= h <= 14);
    assert Eval(OneCond.right, x) <==> d == 1 && h != 11;
    assert Eval(FewCond.right, x) <==> 2 <= d <= 4 && !(12 <= h <= 14);
  }

  /** For a whole number, `many` tests its last digit and its last two digits. */
  lemma WholeNumberMany(x: Operands, k: nat)
    requires x.i == Num(k as real) && x.v == 0
    ensures Eval(ManyCond, x) <==> k % 10 == 0 || 5 <= k % 10 <= 9 || 11 <= k % 100 <= 14
  {
    LiteralValues();
    WholeRemainder(x, k, "10");
    WholeRemainder(x, k, "100");
    var d, h := k % 10, k % 100;
    assert Satisfies(IsInteger, x);
    assert Satisfies(Relation(Mod(I, "10"), false, Value("0")), x) <==> d == 0;
    assert Satisfies(Relation(Mod(I, "10"), false, Between("5", "9")), x) <==> 5 <= d <= 9;
    assert Satisfies(Relation(Mod(I, "100"), false, Between("11", "14")), x) <==> 11 <= h <= 14;
    assert Eval(ManyCond.right.right, x) <==> 11 <= h <= 14;
    assert Eval(ManyCond.right.left, x) <==> 5 <= d <= 9;
    assert Eval(ManyCond.right, x) <==> 5 <= d <= 9 || 11 <= h <= 14;
    assert Eval(ManyCond.left, x) <==> d == 0;
  }

  /** With `v > 0` no condition but the empty one holds. */
  lemma FractionConditions(x: Operands)
    requires x.v != 0
    ensures !Eval(OneCond, x) && !Eval(FewCond, x) && !Eval(ManyCond, x)
  {
    assert LiteralValue("0") == 0;
    assert !Satisfies(IsInteger, x);
    assert !Eval(ManyCond.right.right, x) && !Eval(ManyCond.right.left, x);
    assert !Eval(ManyCond.right, x) && !Eval(ManyCond.left, x);
  }

  /** The compiled rules categorize every whole number by its last two digits; none is `other`. */
  lemma IntegersByLastDigits(num: Numeral)
    requires '.' !in num
    ensures Categorize(CompileRules(CardinalRules), num) == Categorized(IntegerCategory(DigitsValue(num)))
  {
    Compiles();
    WholeNumberCategory(Derive(num), DigitsValue(num));
  }

  /** Operands of a whole number `k` are categorized by `k`'s last two digits. */
  lemma WholeNumberCategory(x: Operands, k: nat)
    requires x.i == Num(k as real) && x.v == 0
    ensures FirstMatch(Program, x) == IntegerCategory(k)
  {
    ProgramCategory(x);
    WholeNumberOneFew(x, k);
    WholeNumberMany(x, k);
  }

  /** A number written with a dot has `v > 0`, so every rule but the empty one fails: `other`. */
  lemma DottedIsOther(num: Numeral)
    requires '.' in num
    ensures Categorize(CompileRules(CardinalRules), num) == Categorized(Other)
  {
    Compiles();
    var x := Derive(num);
    ProgramCategory(x);
    FractionConditions(x);
  }

  /**
   * On every text with fraction digits or without a dot, the operands as UTS #35 defines
   * them give the same category as the operands as written.
   */
  lemma CorrectedOperandsSameCategory(num: Numeral)
    requires '.' !in num || num[|num| - 1] != '.'
    ensures FirstMatch(Program, CldrOperands(num)) == FirstMatch(Program, Derive(num))
  {
    OperandsAgree(num);
    if '.' in num {
      ProgramCategory(CldrOperands(num));
      ProgramCategory(Derive(num));
      FractionConditions(CldrOperands(num));
      FractionConditions(Derive(num));
    }
  }

  /** 0 is `many`, 1 and 21 are `one`, 2 is `few` and 2.01 is `other`. */
  lemma Examples(num: Numeral)
    ensures num == "0" ==> Categorize(CompileRules(CardinalRules), num) == Categorized(Many)
    ensures num == "1" ==> Categorize(CompileRules(CardinalRules), num) == Categorized(One)
    ensures num == "2" ==> Categorize(CompileRules(CardinalRules), num) == Categorized(Few)
    ensures num == "2.01" ==> Categorize(CompileRules(CardinalRules), num) == Categorized(Other)
    ensures num == "21" ==> Categorize(CompileRules(CardinalRules), num) == Categorized(One)
  {
    if num == "0" {
      assert '.' !in num && DigitsValue(num) == 0 && IntegerCategory(0) == Many;
      IntegersByLastDigits(num);
    } else if num == "1" {
      assert '.' !in num && DigitsValue(num) == 1 && IntegerCategory(1) == One;
      IntegersByLastDigits(num);
    } else if num == "2" {
      assert '.' !in num && DigitsValue(num) == 2 && IntegerCategory(2) == Few;
      IntegersByLastDigits(num);
    } else if num == "2.01" {
      assert num[1] == '.';
      DottedIsOther(num);
    } else if num == "21" {
      assert '.' !in num && DigitsValue(num) == 21;
      assert 21 % 10 == 1 && 21 % 100 == 21;
      IntegersByLastDigits(num);
    }
  }

  /** The table of the pluralizer's own test: one, few and many, with no `other` entry. */
  const TestedRules: seq<Rule> := [(One, OneWords), (Few, FewWords), (Many, ManyWords)]

  /** Leaving out the empty `other` entry changes no category: `other` is the fallback anyway. */
  lemma TestedRulesOnly(num: Numeral)
    ensures CompileRules(TestedRules).Ok?
    ensures Categorize(CompileRules(TestedRules), num) == Categorize(CompileRules(CardinalRules), num)
  {
    Compiles();
    assert CardinalRules == TestedRules + [(Other, [])];
    Generator.DropTrailingOther(TestedRules, (Other, []));
  }

  /** With the tested table: 1 is `one`, 0 is `many`, 2 is `few` and 2.01 is `other`. */
  lemma TestedExamples(num: Numeral)
    ensures num == "1" ==> Categorize(CompileRules(TestedRules), num) == Categorized(One)
    ensures num == "0" ==> Categorize(CompileRules(TestedRules), num) == Categorized(Many)
    ensures num == "2" ==> Categorize(CompileRules(TestedRules), num) == Categorized(Few)
    ensures num == "2.01" ==> Categorize(CompileRules(TestedRules), num) == Categorized(Other)
  {
    TestedRulesOnly(num);
    Examples(num);
  }

  /**
   * `and` binds tighter than `or`: read left to right, `many`'s words would group as
   * `((((v = 0 and A) or v = 0) and B) or v = 0) and C`, which fails for 0, while the
   * parsed condition holds for it.
   */
  lemma GroupingMatters()
    ensures var x := Derive(Integer(0));
      var a := Holds(Relation(Mod(I, "10"), false, Value("0")));
      var b := Holds(Relation(Mod(I, "10"), false, Between("5", "9")));
      var c := Holds(Relation(Mod(I, "100"), false, Between("11", "14")));
      var v0 := Holds(IsInteger);
      && Eval(ManyCond, x)
      && !Eval(And(Or(And(Or(And(v0, a), v0), b), v0), c), x)
  {
    var x := Derive(Integer(0));
    JsModNat(0, 10);
    JsModNat(0, 100);
    assert LiteralValue("10") == 10 && LiteralValue("100") == 100 && LiteralValue("0") == 0;
    assert LiteralValue("11") == 11 && LiteralValue("5") == 5;
    var ra := Relation(Mod(I, "10"), false, Value("0"));
    var rb := Relation(Mod(I, "10"), false, Between("5", "9"));
    var rc := Relation(Mod(I, "100"), false, Between("11", "14"));
    assert Satisfies(IsInteger, x);
    assert Satisfies(ra, x);
    assert !Satisfies(rb, x);
    assert !Satisfies(rc, x);
    assert Eval(And(Holds(IsInteger), Holds(ra)), x);
  }

  /** The categories the Russian rules name. */
  const Used: set<Category> := {One, Few, Many, Other}

  /** Two range keys with different end categories differ. */
  lemma EndsDiffer()
    ensures forall a, b, c, d :: RangeKey(a, b) == RangeKey(c, d) ==> b == d
  {
    forall a, b, c, d | RangeKey(a, b) == RangeKey(c, d)
      ensures b == d
    {
      RangeKeyInjective(a, b, c, d);
    }
  }

  /** A range table with an entry `start+end` for each pair of categories of `used`, giving the end's category. */
  function EndTable(used: set<Category>): map<string, Category> {
    EndsDiffer();
    map a: Category, b: Category | a in used && b in used :: RangeKey(a, b) := b
  }

  /** Every pair of categories of `used` has an entry, and it is the end's category. */
  lemma EndTableEntry(used: set<Category>, a: Category, b: Category)
    requires a in used && b in used
    ensures RangeKey(a, b) in EndTable(used) && EndTable(used)[RangeKey(a, b)] == b
  {
    EndsDiffer();
  }

  /** The range table: the category of every range is the category of its end. */
  const RangeRules: map<string, Category> := EndTable(Used)

  /** The categories the rules give: `one`, `few`, `many` or `other`, never a failure. */
  lemma CategoriesUsed(num: Numeral)
    ensures Categorize(CompileRules(CardinalRules), num).Categorized?
    ensures Categorize(CompileRules(CardinalRules), num).c in Used
  {
    Compiles();
    ProgramCategory(Derive(num));
  }

}
