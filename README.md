# Plural categories and localized messages, modelled in Dafny

This project models the core of a small TypeScript localization library built on
the CLDR plural rules (LDML, UTS #35 Part 3, section 5.1). It has five parts:

- **The self-contained pluralizer** (`src/pluralizer/pluralizer.ts`). `compile`
  rewrites each condition of a cardinal rule table with two regular expressions:
  first the ranges, then `=`, `and` and `or`. The rewritten conditions become the
  body of one JavaScript function. The model splits this into `Conditions.Compile`
  (the text rewrite), `Conditions.Parse` (the modelled grammar of a condition; `Err` means the
  condition lies outside it) and `Conditions.Eval` (how the engine evaluates it).
  `CompileIsRenderOfParse` ties them together: for every condition inside the
  grammar, the rewritten text is the condition's tree printed with JavaScript
  precedence.
  - The cardinal categorizer derives the operands `n, i, f, v` from the number's
    text. It returns the first category whose condition holds, else `other`, and
    caches the answer by text.
  - The range categorizer looks up the pair of endpoint categories in a range
    table and caches hits by the raw key `start+end`.
  - The variadic `plural` function dispatches on its arguments.
  - `getLocaleValue` turns a category into a message: the `'='` override for the
    key, else the category's template, with every `#` replaced by the key.
- **The plural function built around a given categorizer** (`src/plural/plural.ts`).
  It has the same cardinal, range and dispatch structure. The categorizer is a
  function of the operands, and a missing message is returned as undefined instead
  of failing.
- **The categorizer generator** (`src/plural/internal.ts`). It writes one
  `if (condition) { return 'key'; }` block per rule. Then it deletes the first
  block whose condition is `true` with a regular expression.
- **The message catalogue** (`src/i18n/i18n.ts`). It is a class holding a table of
  locale values and a pluralizer, with `set`, `get` and `plural`.
- **`select`** (`src/select/select.ts`).

The Russian and English rule tables of the tests are modelled as constants. The
tests' expectations are stated as lemmas about them, in `Russian`, `English` and
`Scenarios`. The two tests of `src/pluralizer/pluralizer.tests.ts` pass a bare
cardinal table to `createPlural`, which reads the table's `cardinal` member
(`src/pluralizer/pluralizer.ts:217`). As written, that member is undefined and
`Object.keys` throws a TypeError at `src/pluralizer/pluralizer.ts:126` before any
number is categorized. The lemmas for those tests state what the cardinal
categorizer built from each table answers, which is what the tests expect of it.

Classes model the objects the source updates in place:

- `CardinalPlural` and `RangePlural` in both the Pluralizer and Plural modules
  hold their caches as `map` fields. `Call` updates the cache, and its contract
  gives the new cache and the reply.
- `I18n` holds the catalogue; `Set` is a loop over the given ids.

Functions and lemmas model the pure parts.

The model follows the code where it departs from the library's documented
behaviour:

- **Precedence.** `and` binds tighter than `or`, as the rewritten `&&`/`||` do in
  JavaScript. Reading the connectives left to right would give other groupings.
  `Russian.GroupingMatters` shows that this decides the Russian `many` rule for 0.
- **Rule tables that do not compile.** In the source, a rewritten condition the
  engine rejects does not fail when the categorizer is built. Instead every call
  of the categorizer answers with the error and the code. In the model a table
  compiles exactly when every condition lies inside the modelled grammar, and
  otherwise every call answers `Rules.Outcome.Broken`.
- **No `other` template.** A table with no template for a category gets no check
  in advance:
  - `pluralizer.ts` fails with a TypeError on the missing template.
  - `plural.ts` returns undefined.
- **Numeric literals of a rule.** The rewritten conditions run as sloppy-mode
  JavaScript, so a literal with a leading zero and only the digits 0 to 7 is a
  legacy octal literal: `i = 010` holds for 8, not for 10. `08` and `09` stay
  decimal. `Numbers.LiteralValue` reads literals this way in values, range bounds
  and moduli.
- **Operands of a dotted number.** For a number written with a dot, `i` and `v`
  are computed as the code computes them, not as UTS #35 defines them. This is the
  third finding below.

## Model

| member | source | states |
|---|---|---|
| Text.IndexOf | src/pluralizer/pluralizer.ts:148 | the first position of the character, or -1 exactly when it is absent |
| Text.SplitJoined | src/pluralizer/pluralizer.ts:194 | a key `a+b` built from texts without `+` splits back into `a` and `b` |
| Text.JoinedInjective | src/pluralizer/pluralizer.ts:194 | distinct pairs of number texts give distinct range cache keys |
| Numbers.ToNumber | src/pluralizer/pluralizer.ts:154-158 | unary `+` on a numeric text: NaN exactly for `.`, the digit value for a text without a dot, the integer digits plus the fraction for a dotted text, never negative |
| Numbers.Fraction | src/pluralizer/pluralizer.ts:154 | the value of the digits after a dot lies in [0, 1) |
| Numbers.Derive | src/pluralizer/pluralizer.ts:142-160 | `n` is the text; `v` is 0 exactly without a dot; without a dot `i` is the value and `f` is 0; with one, `i` is NaN when the text ends in the dot and otherwise the value of `.d` for the fraction digits `d`, `f` reads `d` and `v` counts `d` plus the dot |
| Numbers.DottedIntegerOperand | src/pluralizer/pluralizer.ts:153-156 | with a dot, `i` is NaN exactly when the text ends in the dot, and otherwise lies in [0, 1) |
| Numbers.NatTextRoundTrip | src/pluralizer/pluralizer.ts:142 | the decimal text of a whole number reads back as that number |
| Numbers.NatTextCanonical | src/pluralizer/pluralizer.ts:142 | the decimal text of a whole number is non-empty digits with no leading zero |
| Numbers.NatTextToNumber | src/pluralizer/pluralizer.ts:142 | the text JavaScript writes for a whole number converts back to it |
| Numbers.CldrOperandsOfDecimal | src/pluralizer/pluralizer.ts:153-156 | corrected operands of `k.d`: `i` is `k`, `f` is the value of `d`, `v` is the number of digits of `d` |
| Numbers.CldrOperands | src/pluralizer/pluralizer.ts:148-159 | the corrected operands: `n` is the text; without a dot they are the derived ones; with a dot `i` is a non-negative whole number and `v` counts exactly the characters after the dot |
| Numbers.DecimalOperandsAsWritten | src/pluralizer/pluralizer.ts:153-156 | as written, for `k >= 1` the `i` of `k.d` is not `k` but the value of `.d` (so `2.5` gives `i = 0.5`), and `v` is one more than the number of fraction digits |
| Numbers.LiteralValue | src/pluralizer/pluralizer.ts:134 | a rule literal is read as sloppy-mode JavaScript reads it: in base 8 (its leading zero adding nothing) when it is a `0` followed only by the digits 0 to 7, and in decimal otherwise |
| Numbers.LegacyOctalLiteral | src/plural/internal.ts:47 | `010` is 8 and `017` is 15; `08` is 8 and `10` is 10; `00` and `0` are 0 |
| Numbers.OperandsAgree | src/plural/plural.ts:151-157 | both derivations agree without a dot; with fraction digits both give `v > 0` |
| Categories.Name | src/pluralizer/pluralizer.ts:1-8 | every category name is non-empty and free of `+` |
| Categories.NameInjective | src/pluralizer/pluralizer.ts:1-8 | two categories have the same name exactly when they are equal |
| Categories.RangeKey | src/pluralizer/pluralizer.ts:200 | the range key splits at its `+` into the start's and the end's names |
| Categories.RangeKeyInjective | src/pluralizer/pluralizer.ts:200-202 | two range keys are equal exactly when both endpoint categories are |
| Conditions.Parse | src/pluralizer/pluralizer.ts:110-113 | the modelled grammar: the empty condition is `true`; any other condition inside the grammar is an or of and-chains of relations; `Err` means the condition lies outside the grammar |
| Conditions.Compile | src/pluralizer/pluralizer.ts:110-122 | the empty condition becomes `true`; otherwise the rewritten text starts with the first word unchanged, since both patterns need blanks before what they replace |
| Conditions.CompileIsRenderOfParse | src/pluralizer/pluralizer.ts:110-122 | for every condition inside the modelled grammar, the rewritten text is the parsed tree printed with JavaScript precedence |
| Conditions.LeadingRangeIsRejected | src/pluralizer/pluralizer.ts:108-119 | a range test at the very start is missed by the range pattern (it needs a blank before it), so its `..` reaches the engine and the condition is a syntax error |
| Conditions.RangeWords | src/pluralizer/pluralizer.ts:116-119 | the range pattern replaces the words up to `lo..hi` by one parenthesised pair of bounds, negated for `!=` |
| Conditions.OperatorWord | src/pluralizer/pluralizer.ts:120 | `=`, `and` and `or` between blanks become JavaScript's equality, and and or operators, and the next separator is consumed |
| Conditions.EqualsValue | src/pluralizer/pluralizer.ts:120 | `= k` after an expression becomes ` == k` |
| Conditions.NotEqualsValue | src/pluralizer/pluralizer.ts:107 | `!= k` is not an operator of the rewrite and is copied unchanged |
| Conditions.ExprScan | src/pluralizer/pluralizer.ts:108 | the words of an expression hold no `=` sign and no connective, so the range pattern's lazy part spans them |
| Conditions.RelationRewrite | src/pluralizer/pluralizer.ts:115-121 | a parsed relation's words are rewritten to the relation's JavaScript text |
| Conditions.AndRewrite | src/pluralizer/pluralizer.ts:115-121 | a parsed and-chain's words are rewritten to the chain's JavaScript text |
| Conditions.OrRewrite | src/pluralizer/pluralizer.ts:115-121 | a parsed or-of-ands' words are rewritten to its JavaScript text |
| Conditions.ValueListOutsideGrammar | src/pluralizer/pluralizer.ts:110-122 | `i = 0,1` lies outside the modelled grammar, although the rewrite turns it into `i == 0,1`, which the engine accepts |
| Conditions.TruncRemainder | src/pluralizer/pluralizer.ts:127 | the remainder left by the truncated quotient has the sign of the dividend and is smaller than the modulus |
| Conditions.JsMod | src/pluralizer/pluralizer.ts:127 | JavaScript's `%` with a literal modulus: NaN exactly for a NaN operand or a zero modulus; otherwise a remainder with the operand's sign, smaller than the modulus |
| Conditions.Satisfies | src/pluralizer/pluralizer.ts:118-120 | a relation on a NaN operand holds exactly when it is negated: NaN fails `==`, `>=` and `<=` |
| Conditions.LeadingZeroLiteral | src/pluralizer/pluralizer.ts:134 | `i = 010` holds for 8 and fails for 10, since the engine reads `010` in base 8; `i = 08` holds for 8 |
| Conditions.LeadingZeroModulus | src/pluralizer/pluralizer.ts:134 | `i % 010 = 1` holds for 9, the modulus being eight |
| Conditions.Eval | src/pluralizer/pluralizer.ts:127 | the empty condition holds; an `&&`-chain holds exactly when every one of its relations does |
| Conditions.DisjunctionHolds | src/pluralizer/pluralizer.ts:102-106 | an or-of-ands holds exactly when one of its `&&`-chains does, each chain being a conjunction |
| Rules.CompileRules | src/pluralizer/pluralizer.ts:124-139 | a table compiles exactly when every condition parses, to the categories paired with their parsed conditions in declared order |
| Rules.CompileRulesAppend | src/pluralizer/pluralizer.ts:126-130 | compiling two tables one after the other is compiling each and concatenating |
| Rules.FirstMatch | src/pluralizer/pluralizer.ts:126-130 | a category other than `other` is that of an entry whose condition holds; when no condition holds the answer is `other` |
| Rules.MatchIndex | src/pluralizer/pluralizer.ts:126-130 | the position of an entry whose condition holds, with none before it holding; -1 when none holds |
| Rules.FirstMatchIsFirst | src/pluralizer/pluralizer.ts:126-130 | the category is the first matching entry's, and `other` when none matches |
| Rules.AlwaysEndsSearch | src/pluralizer/pluralizer.ts:126-130 | an entry with the empty condition ends the search: nothing after it is reached |
| Rules.TrailingOtherIsRedundant | src/pluralizer/pluralizer.ts:130 | a final `other` entry, whatever its condition, changes no category |
| Rules.Categorize | src/pluralizer/pluralizer.ts:131-139 | the categorizer answers with the error exactly when the table does not compile |
| Generator.Clauses | src/plural/internal.ts:31-36 | one clause per rule, in declared order, with the compiled condition text |
| Generator.FirstTrue | src/plural/internal.ts:42 | the first clause whose condition text is `true`, with none before it; -1 when there is none |
| Generator.Generate | src/plural/internal.ts:28-43 | without a `true` block the text is the code itself; with one, the span starting at the first `true` block's `if` is cut out of the code and nothing else changes |
| Generator.TrueTestAtAnyBlanks | src/plural/internal.ts:42 | reading `\s*` greedily loses no match: any run of blanks between `if` and `(true)` is the one the model finds |
| Generator.FirstTrueIsFirstMatch | src/plural/internal.ts:42 | for a table that compiles, the pattern's head `if\s*\(true\)` matches at the first `true` block's `if` and at no earlier position |
| Generator.NoTrueBlockNoMatch | src/plural/internal.ts:42 | for a table that compiles without a `true` block, the pattern matches nowhere and the text is left as it is |
| Generator.ReplacementRemovesSpan | src/plural/internal.ts:42 | with a `true` block at `k`, the text is `a + span + x` for the text `a` before the block's `if`, and removing the block leaves `a + x`; `x` starts with a non-blank, so the pattern's `\s+` stops where the span ends |
| Generator.SpanShape | src/plural/internal.ts:42 | a `true` block starts with `if (true)` and its only `}` is followed only by blanks, as the pattern requires |
| Generator.RemovalChangesCategory | src/plural/internal.ts:42 | as written, for the table `{one: ''}` the generated function says `other` where the rules say `one` |
| Generator.GeneratedCategory | src/plural/internal.ts:42-47 | for a table that compiles, the generated categorizer always answers with a category |
| Generator.CorrectedIndex | src/plural/internal.ts:42 | the corrected removal picks only a final `other` block whose condition is `true` |
| Generator.CorrectedKeepsCategories | src/plural/internal.ts:28-43 | with the corrected removal, the generated rules categorize every input exactly as the whole table does |
| Generator.DropTrailingOther | src/plural/internal.ts:37 | dropping a final `other` rule keeps the table compiling and every category unchanged |
| Templates.ReplaceHashAppend | src/pluralizer/pluralizer.ts:249-260 | replacing `#` works piecewise on a concatenation |
| Templates.ReplaceHash | src/pluralizer/pluralizer.ts:258-260 | every `#` is replaced: the length grows by the key's length less one per `#`, and with a key free of `#` none is left |
| Templates.Entry | src/pluralizer/pluralizer.ts:252-256 | an override for the key wins; otherwise the category's template; none exactly when neither exists; the entry is always one of the dictionary's texts |
| Templates.ReplaceHashNoHash | src/pluralizer/pluralizer.ts:258-260 | a text without `#` is unchanged |
| Templates.ReplaceHashByItself | src/pluralizer/pluralizer.ts:258-260 | replacing `#` by `#` is the identity |
| Arguments.ArgsOf | src/pluralizer/pluralizer.ts:220-226 | the argument list written for each overload is one the plural function accepts |
| Arguments.Dispatch | src/pluralizer/pluralizer.ts:220-226 | the cardinal categorizer exactly for one argument or two with an object second, with the leading numbers in order and the last argument as locale when it is a dictionary |
| Arguments.DispatchRoundTrip | src/pluralizer/pluralizer.ts:220-226 | each overload's argument list reaches its own categorizer with its arguments intact |
| Arguments.DispatchIsFaithful | src/pluralizer/pluralizer.ts:220-226 | every accepted argument list is exactly the one written for the call it dispatches to |
| Pluralizer.ExceptionWins | src/pluralizer/pluralizer.ts:251-256 | an override for the key wins whatever the category, with its `#`s replaced by the key |
| Pluralizer.TemplateUsed | src/pluralizer/pluralizer.ts:251-262 | without an override, the message is the category's template with `#` replaced; it fails exactly when the categorizer is broken or the template is missing |
| Pluralizer.LocaleValue | src/pluralizer/pluralizer.ts:251-262 | fails with a TypeError exactly when there is no override and the categorizer is broken or has no template; a key without `#` leaves no `#` in the message |
| Pluralizer.CardinalPlural.constructor | src/pluralizer/pluralizer.ts:124-139 | the categorizer holds the compiled table (or its error) and an empty cache |
| Pluralizer.CardinalPlural.Call | src/pluralizer/pluralizer.ts:141-169 | the reply is the compiled table's category for the text (or its message), and the cache then maps the text to that category |
| Pluralizer.RangePlural.AgreesJoined | src/pluralizer/pluralizer.ts:194 | a raw key `start+end` agrees with a category exactly when the table gives it for those texts |
| Pluralizer.RangePlural.constructor | src/pluralizer/pluralizer.ts:172-191 | the range categorizer holds the table, the cardinal categorizer and an empty cache |
| Pluralizer.RangePlural.Resolve | src/pluralizer/pluralizer.ts:194-206 | the category is the table entry for the endpoint categories, else `other`; only a table hit on an uncached key is cached, and the cardinal cache gains both endpoints unless the key was cached |
| Pluralizer.RangePlural.Call | src/pluralizer/pluralizer.ts:193-213 | the reply is the table entry for the endpoint categories, else `other`, bare or as the locale's message for the raw key; the caches change as `Resolve` says |
| Pluralizer.Plural.constructor | src/pluralizer/pluralizer.ts:216-228 | the plural function owns a fresh cardinal and range categorizer over the given tables, with empty caches |
| Pluralizer.Plural.Call | src/pluralizer/pluralizer.ts:220-226 | the call goes to the cardinal categorizer for one argument or two with an object second, and to the range categorizer otherwise, with the reply of that call |
| Plural.ExceptionWins | src/plural/plural.ts:122-127 | an override for the key wins whatever the category, with its `#`s replaced by the key |
| Plural.TemplateUsed | src/plural/plural.ts:122-134 | without an override, the message is the category's template with `#` replaced, and undefined exactly when the template is missing |
| Plural.LocaleValue | src/plural/plural.ts:122-134 | undefined exactly when there is neither an override nor a template; a key without `#` leaves no `#` in the message |
| Plural.GuardedResolver | src/plural/plural.ts:129-131 | the guarded lookup gives the unguarded one's message wherever that succeeds, and undefined exactly where that fails with a TypeError |
| Plural.CardinalPlural.constructor | src/plural/plural.ts:136-137 | the categorizer holds the given operand categorizer and an empty cache |
| Plural.CardinalPlural.Call | src/plural/plural.ts:139-167 | the reply is the given categorizer's category for the derived operands (or its message), and the cache then maps the text to it |
| Plural.RangePlural.AgreesJoined | src/plural/plural.ts:192 | a raw key `start+end` agrees with a category exactly when the table gives it for those texts |
| Plural.RangePlural.constructor | src/plural/plural.ts:170-189 | the range categorizer holds the table, the cardinal categorizer and an empty cache |
| Plural.RangePlural.Resolve | src/plural/plural.ts:192-204 | the category is the table entry for the endpoint categories, else `other`; only a table hit on an uncached key is cached, and the cardinal cache gains both endpoints unless the key was cached |
| Plural.RangePlural.Miss | src/plural/plural.ts:197-204 | for an uncached key, both endpoints are categorized into the cardinal cache, and only a table hit is stored under the raw key |
| Plural.RangePlural.Call | src/plural/plural.ts:191-211 | the reply is the table entry for the endpoint categories, else `other`, bare or as the locale's message for the raw key; the caches change as `Resolve` says |
| Plural.Plural.constructor | src/plural/plural.ts:218-236 | the plural function owns a fresh cardinal and range categorizer over the given categorizer and range table |
| Plural.Plural.Call | src/plural/plural.ts:224-231 | the call goes to the cardinal or the range categorizer by the same dispatch test, with the reply of that call |
| Russian.OneParses | src/plural/fixture/ru.ts:6 | the `one` condition parses to `v = 0 && i % 10 = 1 && i % 100 != 11` |
| Russian.FewParses | src/plural/fixture/ru.ts:11 | the `few` condition parses to its three relations, the last a negated range |
| Russian.ManyParses | src/plural/fixture/ru.ts:16 | the `many` condition parses to an or of three and-chains |
| Russian.GroupingMatters | src/plural/fixture/ru.ts:16 | for 0 the parsed `many` condition holds while the left-to-right grouping fails |
| Russian.Compiles | src/plural/fixture/ru.ts:4-25 | the Russian table, with `other` as the empty condition, compiles to the program of the three parsed conditions and `other` |
| Russian.ProgramCategory | src/pluralizer/pluralizer.ts:126-130 | the program gives the first of `one`, `few`, `many` whose condition holds, else `other` |
| Russian.WholeNumberOneFew | src/plural/fixture/ru.ts:6-11 | for a whole number, `one` and `few` hold exactly by the last one and two digits |
| Russian.WholeNumberMany | src/plural/fixture/ru.ts:16 | for a whole number, `many` holds exactly when the last digit is 0 or 5-9 or the last two are 11-14 |
| Russian.WholeNumberCategory | src/plural/fixture/ru.ts:5-19 | the operands of a whole number get the category its last two digits decide |
| Russian.FractionConditions | src/plural/fixture/ru.ts:5-19 | with `v > 0`, no condition but the empty one holds |
| Russian.IntegersByLastDigits | src/plural/fixture/ru.ts:5-19 | every whole number gets `one`, `few` or `many` by its last two digits |
| Russian.DottedIsOther | src/plural/fixture/ru.ts:20-24 | every number written with a dot is `other` |
| Russian.CorrectedOperandsSameCategory | src/plural/fixture/ru.ts:5-24 | on texts with fraction digits or without a dot, the corrected operands give the same Russian category |
| Russian.Examples | src/plural/plural.tests.ts:76-81 | 0 is `many`, 1 is `one`, 2 is `few`, 2.01 is `other`, and 21 (a test value of `src/plural/fixture/ru.ts:7`) is `one` |
| Russian.TestedRulesOnly | src/pluralizer/pluralizer.tests.ts:4-8 | the three-rule table of the test compiles and categorizes every text as the table with `other` added does |
| Russian.TestedExamples | src/pluralizer/pluralizer.tests.ts:10-13 | with the three-rule table of the test, 1 is `one`, 0 is `many`, 2 is `few`, 2.01 is `other` |
| Russian.EndTableEntry | src/plural/fixture/ru.ts:33-113 | every pair of the used categories has a range entry, and it is the end's category |
| Russian.CategoriesUsed | src/plural/fixture/ru.ts:4-25 | the compiled rules never fail and only give `one`, `few`, `many` or `other` |
| English.OneParses | src/plural/plural.tests.ts:125 | `i = 1 and v = 0` parses to the and of its two relations |
| English.Compiles | src/pluralizer/pluralizer.tests.ts:17-19 | the English table compiles to the `one` condition followed by `other` |
| English.OneRuleOnly | src/pluralizer/pluralizer.tests.ts:17-19 | the table with the `one` rule alone gives the same category as the table with `other` added |
| English.OneRuleExamples | src/pluralizer/pluralizer.tests.ts:21-26 | with the `one` rule alone, 1 is `one`; 0, 2 and 2.01 are `other` |
| English.RulesAreHandWritten | src/plural/plural.tests.ts:217-223 | the compiled table categorizes every text exactly as the hand-written categorizer |
| English.WholeNumber | src/pluralizer/pluralizer.tests.ts:21-26 | a whole number is `one` exactly when it is 1 |
| English.Dotted | src/pluralizer/pluralizer.tests.ts:21-26 | every number written with a dot is `other` |
| English.WholeExamples | src/plural/plural.tests.ts:107-113 | 1 is `one`, 0 and 18 are `other` |
| English.DottedExamples | src/plural/plural.tests.ts:110-111 | 0.0 and 1.0 are `other` |
| English.CorrectedOperandsSameCategory | src/plural/plural.tests.ts:217-223 | on texts with fraction digits or without a dot, the corrected operands give the same English category |
| English.OneRendered | src/pluralizer/pluralizer.ts:120 | the `one` condition prints as `i == 1 && v == 0` |
| English.TableClauses | src/plural/internal.ts:28-36 | the English table's clauses are `one` with `i == 1 && v == 0` and `other` with `true` |
| English.GeneratedText | src/plural/internal.ts:28-43 | the generated text is the header, the `one` block and the fallback: the `other` block is gone |
| English.GeneratedIsHandWritten | src/plural/plural.tests.ts:217-223 | the generated English categorizer agrees with the hand-written one on every input |
| Localization.Stored | src/i18n/i18n.ts:116-119 | a value is stored as it is, flagged computed exactly when it is a function |
| Localization.TokenOf | src/i18n/i18n.ts:91 | the token has an undefined id exactly for the empty bare target; otherwise its id is the target's text |
| Localization.KeyOf | src/i18n/i18n.ts:92-98 | a defined id is looked up as itself; the key is `undefined` exactly for an undefined id or the id `undefined` |
| Localization.EnPluralAsWritten | src/i18n/i18n.ts:49-51 | as written, zero gives `=0`; any other number reads the undeclared global `name`: `other` in a browser, where it is a string, and a ReferenceError under Node.js; `one` is never produced |
| Localization.EnPlural | src/i18n/i18n.ts:49-51 | as intended, zero gives `=0`, one gives `one`, everything else `other` |
| Localization.EnPluralMissesOne | src/i18n/i18n.ts:50 | for 1 the written default gives `other` in a browser and a ReferenceError under Node.js, and the intended one gives `one` |
| Localization.I18n.constructor | src/i18n/i18n.ts:60-62 | the catalogue holds every given value as stored and the given pluralizer |
| Localization.I18n.Set | src/i18n/i18n.ts:112-121 | every given id is stored with its flag, other ids keep their values, the pluralizer is unchanged |
| Localization.I18n.Plural | src/i18n/i18n.ts:65-87 | fails exactly when the name is bound to a value that is not a plural dictionary |
| Localization.I18n.Get | src/i18n/i18n.ts:90-109 | the answer is undefined exactly for the empty target when neither the call's dictionary nor the catalogue has the key `undefined`; a dictionary object comes only from a stored one |
| Localization.I18n.UnknownDictionary | src/i18n/i18n.ts:67-86 | an unknown dictionary gives the number's text |
| Localization.I18n.ExactEntryIgnoresGlue | src/i18n/i18n.ts:70-71 | an exact `=num` entry is returned verbatim, whatever the glue |
| Localization.I18n.GluePrefixes | src/i18n/i18n.ts:72-82 | otherwise the message is the pluralizer's entry, else `other`, and glue prefixes `num + glue` to it |
| Localization.I18n.DictionaryWins | src/i18n/i18n.ts:94-96 | a per-call dictionary entry for the id wins over everything stored |
| Localization.I18n.StoredValueNext | src/i18n/i18n.ts:98-105 | next, a stored text is returned and a stored getter is applied to the token |
| Localization.I18n.IdLast | src/i18n/i18n.ts:91-108 | with neither, the id itself is returned, and undefined for an empty target |
| Selection.Select | src/select/select.ts:7-12 | the value's own sub-message when there is one, else `other`'s; always one of the sub-messages |
| Selection.FallbackIsOther | src/select/select.ts:11 | selecting an absent value is selecting `other` |
| Selection.AddingSubMessage | src/select/select.ts:11 | adding a sub-message changes the selection of that value only |
| Scenarios.RussianRangeIsEnd | src/pluralizer/pluralizer.ts:200-203 | with the Russian tables, a range's category is its end's category |
| Scenarios.RussianRanges | src/plural/plural.tests.ts:83-86 | the Russian range 1-21 is `one` and 1-2 is `few` |
| Scenarios.RussianZero | src/plural/plural.tests.ts:78 | the Russian plural function answers `many` for 0 |
| Scenarios.RussianRange | src/plural/plural.tests.ts:84 | the Russian plural function answers `one` for the range 1-21 |
| Scenarios.EnglishAnswers | src/plural/plural.tests.ts:107-117 | the English categorizer answers `one` for 1; `other` for 0, 18, 0.0 and 1.0; and `other` for the range 1-2 |
| Scenarios.TemplateReply | src/plural/plural.ts:122-134 | a number without an override gets its category's template |
| Scenarios.OverrideReply | src/plural/plural.ts:125-126 | a number with an override gets it, whatever its category |
| Scenarios.LocaleOverrides | src/plural/plural.tests.ts:148-151 | 0 and 50 take their overrides |
| Scenarios.LocaleTemplates | src/plural/plural.tests.ts:149-150 | 1 takes `message`, 2 takes `messages` |
| Scenarios.PartialLocale | src/plural/plural.tests.ts:154-161 | without an `'='` table, 1 takes `message` |
| Scenarios.HashMessages | src/plural/plural.tests.ts:163-171 | `# message` for 1 is `1 message` and `# messages` for 2 is `2 messages` |
| Scenarios.HashReply | src/plural/plural.ts:129-131 | a template that is `#` and then text gives the number followed by the text |
| Scenarios.MissingTemplate | src/plural/plural.ts:123-133 | a category without a template gives undefined |
| Scenarios.HashFirst | src/pluralizer/pluralizer.ts:258-260 | a leading `#` followed by text without one becomes the key followed by that text |
| Scenarios.RangeMessages | src/plural/plural.tests.ts:186-197 | a range takes its category's template unless the raw key `1+5` has an override |
| Scenarios.RangeTemplate | src/plural/plural.tests.ts:195 | the range 1-2 takes the `other` template |
| Scenarios.RangeTemplateReply | src/plural/plural.ts:191-211 | a range without an override gets its category's template |
| Scenarios.EnglishRange | src/plural/plural.tests.ts:116 | with the English table the range 1-2 is `other` |
| Scenarios.Catalogue | src/i18n/i18n.tests.ts:45-53 | the catalogue stores the `items` dictionary and the English plural function |
| Scenarios.CatalogueExact | src/i18n/i18n.tests.ts:55-57 | an unknown dictionary gives `0`; the `=0` entry gives `no items`, with or without glue |
| Scenarios.CatalogueKeyed | src/i18n/i18n.tests.ts:58-60 | 1 gives `item`, and `1 item` with glue; 99 with glue gives `99 items` |
| Scenarios.KeyedEntry | src/i18n/i18n.ts:72-82 | a number whose key has an entry gets that entry, and the number, the glue and the entry with glue |
| Scenarios.CatalogueGet | src/i18n/i18n.tests.ts:17-20 | an unknown id is returned, a call's dictionary wins, a stored text is found |
| Scenarios.Select | src/select/select.tests.ts:14-18 | the value's sub-message when present, else `other`'s |

## Left out

- Getters are applied to the token alone. The catalogue instance that
  `src/i18n/i18n.ts:102` also passes is not modelled, so the `minLength` getter of
  the catalogue test (which calls `plural` through it) is not modelled either.
- The default `EN_PLURAL` argument of the catalogue constructor is not modelled.
  The constructor takes the pluralizer as a parameter. The default itself is
  modelled, in `EnPluralAsWritten` and `EnPlural`.
- Both categorizer constructors copy every range entry `a+b` into a nested entry
  `rules[a][b]` (`src/pluralizer/pluralizer.ts:179-189`,
  `src/plural/plural.ts:177-187`). This loop is not modelled. Lookups read only the
  flat `a+b` keys, and a category name holds no `+`, so the copies are never read.
- Turning the generated text into a function (`Function` in
  `src/plural/internal.ts:46-48`) and the type-annotation strip done there are not
  modelled. The generated text and the categories the rules give are modelled, with
  literals read as the function's sloppy-mode body reads them.
- The `create` method used by one test of `src/plural/plural.tests.ts` is not
  defined in `src/plural/plural.ts`, so it is not part of this model.
- Conditions are modelled as sequences of space-separated words that are already
  classified. Texts whose words the rewrite would split differently are not
  modelled: a connective inside a word, or blanks other than single spaces.
- Conditions outside the modelled grammar are not given the engine's meaning:
  value and range lists (`i = 0,1`, `n = 1..2,5`), chained `=`, a double `%`, and
  an `and` or `or` between an operand and its `=` sign. `Conditions.Parse` answers
  `Err` for them and a table holding one does not compile in the model, although
  the engine accepts some of the rewritten texts (`i = 0,1` becomes `i == 0,1`, a
  comma expression; see `Conditions.ValueListOutsideGrammar`).
- The `console.log` in `src/plural/internal.ts:12` is I/O and is not modelled.
- `setHiddenProp` makes properties read-only and non-enumerable. The model exposes
  the tables and categorizers as fields and never writes them after construction.
- The module-level default catalogue and its helpers (`src/i18n/i18n.ts:125-136`)
  are not modelled. They are the same class applied to an empty table.
- Numbers are modelled as their decimal text with digits and at most one dot. A
  sign, an exponent and non-finite values are not modelled. JavaScript writes these
  for negative, very large or very small numbers.
- Concurrency is not modelled. The caches are plain dictionaries with no locking.
- The categorizers are modelled with the operands derived as written. The corrected
  derivation `Numbers.CldrOperands` is proved to give the same category for the
  Russian and English tables on every text except one that ends in a dot.

## Findings

| source | as written | input that shows it | evidently intended | confidence | as-written member | corrected member |
|---|---|---|---|---|---|---|
| src/plural/internal.ts:42 | the pattern deletes the first block whose condition is `true`, wherever it stands | the rule table `{one: ''}`: the generated function answers `other`, the rules say `one` | delete only a final `other` block whose condition is `true` | not executed | Generator.RemovalChangesCategory | Generator.CorrectedKeepsCategories |
| src/i18n/i18n.ts:50 | the second test compares the global `name`, never declared in the module, with 1 | the number 1 gives `other` in a browser, where `name` is a string, and a ReferenceError under Node.js | compare `num` with 1, giving `one` | not executed | Localization.EnPluralMissesOne | Localization.EnPlural |
| src/pluralizer/pluralizer.ts:154-156 | `i` is the value of the text from the dot on, and `v` counts the dot as well as the fraction digits (the same at `src/plural/plural.ts:152-154`) | `2.5` gives `i = 0.5` and `v = 2` | `i` is the integer part and `v` the number of fraction digits (UTS #35 Part 3, section 5.1): `i = 2` and `v = 1` | not executed | Numbers.DecimalOperandsAsWritten | Numbers.CldrOperandsOfDecimal |
