/**
 * The behaviour the repository's tests describe, stated about the model: plural
 * functions built from the Russian and English rules and called with and without a
 * locale, the message catalogue's `plural` and `get`, and `select`.
 */
module Scenarios {
  import opened Wrappers
  import opened Categories
  import opened Numbers
  import opened Templates
  import opened Arguments
  import Rules
  import Pluralizer
  import Plural
  import Russian
  import English
  import Localization
  import Selection

  /** The English range table of the tests: every range is `other`. */
  const EnRangeRules: map<string, Category> :=
    map["one+other" := Other, "other+one" := Other, "other+other" := Other]

  /** Number texts the scenarios call with. */
  const Zero: Numeral := "0"
  const Unit: Numeral := "1"
  const TwentyOne: Numeral := "21"
  const NinetyNine: Numeral := "99"

  /** Facts about short number texts the scenarios use. */
  lemma WholeTexts()
    ensures '.' !in "0" && DigitsValue("0") == 0
    ensures '.' !in "1" && DigitsValue("1") == 1
    ensures '.' !in "2" && DigitsValue("2") == 2
    ensures '.' !in "5" && DigitsValue("5") == 5
    ensures '.' !in "18" && DigitsValue("18") == 18
    ensures '.' !in "50" && DigitsValue("50") == 50
    ensures '.' !in "99" && DigitsValue("99") == 99
  {
  }

  /** The hand-written English categorizer on the numbers of the tests. */
  lemma EnglishCategories(num: Numeral)
    ensures num == "1" ==> English.HandWritten(Derive(num)) == One
    ensures num in {"0", "2", "5", "18", "50", "99"} ==> English.HandWritten(Derive(num)) == Other
    ensures num in {"0.0", "1.0"} ==> English.HandWritten(Derive(num)) == Other
  {
    WholeTexts();
    if num in {"0.0", "1.0"} {
      assert num[1] == '.';
    }
  }

  /** With the Russian tables, the category of a range is the category of its end. */
  lemma RussianRangeIsEnd(r: Pluralizer.RangePlural, start: Numeral, end: Numeral)
    requires r.rules == Russian.RangeRules
    requires r.cardinal.program == Rules.CompileRules(Russian.CardinalRules)
    ensures Rules.Categorized(r.RangeCategory(start, end)) == Rules.Categorize(r.cardinal.program, end)
  {
    Russian.CategoriesUsed(start);
    Russian.CategoriesUsed(end);
    var a := Rules.Categorize(r.cardinal.program, start).c;
    var b := Rules.Categorize(r.cardinal.program, end).c;
    Russian.EndTableEntry(Russian.Used, a, b);
  }

  /** The Russian ranges of the tests: 1–21 is `one` and 1–2 is `few`. */
  lemma RussianRanges(r: Pluralizer.RangePlural, start: Numeral, end: Numeral)
    requires r.rules == Russian.RangeRules
    requires r.cardinal.program == Rules.CompileRules(Russian.CardinalRules)
    ensures start == "1" && end == "21" ==> r.Answer(start, end, None) == Pluralizer.Bare(Rules.Categorized(One))
    ensures start == "1" && end == "2" ==> r.Answer(start, end, None) == Pluralizer.Bare(Rules.Categorized(Few))
  {
    RussianRangeIsEnd(r, start, end);
    Russian.Examples(end);
  }

  /** The Russian plural function of the tests, built from the Russian tables. */
  method RussianPlural() returns (plural: Pluralizer.Plural)
    ensures fresh(plural) && fresh(plural.cardinal) && fresh(plural.range) && plural.Valid()
    ensures plural.cardinal.program == Rules.CompileRules(Russian.CardinalRules)
    ensures plural.range.rules == Russian.RangeRules
  {
    plural := new Pluralizer.Plural(Russian.CardinalRules, Russian.RangeRules);
  }

  /** The Russian plural function called with one number: 0 is `many`. */
  method RussianZero() returns (zero: Pluralizer.Reply)
    ensures zero == Pluralizer.Bare(Rules.Categorized(Many))
  {
    var plural := RussianPlural();
    Russian.Examples(Zero);
    zero := plural.cardinal.Call(Zero, None);
  }

  /** The Russian plural function called with two numbers: 1–21 is `one`. */
  method RussianRange() returns (range: Pluralizer.Reply)
    ensures range == Pluralizer.Bare(Rules.Categorized(One))
  {
    var plural := RussianPlural();
    RussianRanges(plural.range, Unit, TwentyOne);
    range := plural.range.Call(Unit, TwentyOne, None);
  }

  /**
   * The English categorizer on the tests' numbers: 1 is `one`; 0, 18, 0.0 and 1.0
   * are `other`; so is the range 1–2.
   */
  lemma EnglishAnswers(c: Plural.CardinalPlural, r: Plural.RangePlural, num: Numeral)
    requires c.categorizer == English.HandWritten
    requires r.cardinal == c && r.rules == EnRangeRules
    ensures num == "1" ==> c.Answer(num, None) == Plural.Bare(One)
    ensures num in {"0", "18", "0.0", "1.0"} ==> c.Answer(num, None) == Plural.Bare(Other)
    ensures num == "2" ==> r.Answer(Unit, num, None) == Plural.Bare(Other)
  {
    EnglishCategories(num);
    EnglishRange(r, num);
  }

  /** The locale of the tests' cardinal case. */
  const Messages: Locale :=
    Locale(map[One := "message", Other := "messages"], map["0" := "no message", "50" := "fifty messages"])

  /** A number without an override gets its category's template, here one without `#`. */
  lemma TemplateReply(c: Plural.CardinalPlural, num: Numeral, cat: Category, locale: Locale, message: string)
    requires c.categorizer(Derive(num)) == cat
    requires num !in locale.exceptions
    requires cat in locale.templates && locale.templates[cat] == message && '#' !in message
    ensures c.Answer(num, Some(locale)) == Plural.Localized(Some(message))
  {
    Plural.TemplateUsed(num, cat, locale);
    ReplaceHashNoHash(message, num);
  }

  /** A number with an override gets it, here one without `#`, whatever its category. */
  lemma OverrideReply(c: Plural.CardinalPlural, num: Numeral, locale: Locale, message: string)
    requires num in locale.exceptions && locale.exceptions[num] == message && '#' !in message
    ensures c.Answer(num, Some(locale)) == Plural.Localized(Some(message))
  {
    var cat := c.categorizer(Derive(num));
    Plural.ExceptionWins(num, cat, cat, locale);
    ReplaceHashNoHash(message, num);
  }

  /** Exact overrides win over templates: 0 and 50 take theirs. */
  lemma LocaleOverrides(c: Plural.CardinalPlural, num: Numeral)
    ensures num == "0" ==> c.Answer(num, Some(Messages)) == Plural.Localized(Some("no message"))
    ensures num == "50" ==> c.Answer(num, Some(Messages)) == Plural.Localized(Some("fifty messages"))
  {
    if num == "0" {
      PlainTexts();
      OverrideReply(c, num, Messages, "no message");
    } else if num == "50" {
      PlainTexts();
      OverrideReply(c, num, Messages, "fifty messages");
    }
  }

  /** Other numbers take their category's template: 1 is `message`, 2 is `messages`. */
  lemma LocaleTemplates(c: Plural.CardinalPlural, num: Numeral)
    requires c.categorizer == English.HandWritten
    ensures num == "1" ==> c.Answer(num, Some(Messages)) == Plural.Localized(Some("message"))
    ensures num == "2" ==> c.Answer(num, Some(Messages)) == Plural.Localized(Some("messages"))
  {
    if num == "1" {
      MessagesTemplate(c, num, One, "message");
    } else if num == "2" {
      MessagesTemplate(c, num, Other, "messages");
    }
  }

  /** A number other than 0 and 50 takes the template of its English category. */
  lemma MessagesTemplate(c: Plural.CardinalPlural, num: Numeral, cat: Category, message: string)
    requires c.categorizer == English.HandWritten
    requires num in {"1", "2"} && cat in Messages.templates && Messages.templates[cat] == message
    requires num == "1" <==> cat == One
    ensures c.Answer(num, Some(Messages)) == Plural.Localized(Some(message))
  {
    EnglishCategories(num);
    assert num !in Messages.exceptions by { assert Messages.exceptions.Keys == {"0", "50"}; }
    PlainTexts();
    TemplateReply(c, num, cat, Messages, message);
  }

  /** A locale without an `'='` table: 1 takes the `one` template. */
  lemma PartialLocale(c: Plural.CardinalPlural, num: Numeral)
    requires c.categorizer == English.HandWritten
    ensures num == "1" ==>
      c.Answer(num, Some(Locale(map[One := "message", Other := "messages"], map[]))) == Plural.Localized(Some("message"))
  {
    if num == "1" {
      EnglishCategories(num);
      PlainTexts();
      TemplateReply(c, num, One, Locale(map[One := "message", Other := "messages"], map[]), "message");
    }
  }

  /** The locale of the tests' case with the number in the message. */
  const HashLocale: Locale := Locale(map[One := "# message", Other := "# messages"], map[])

  /** Every `#` of a template becomes the number. */
  lemma HashMessages(c: Plural.CardinalPlural, num: Numeral)
    requires c.categorizer == English.HandWritten
    ensures num == "1" ==> c.Answer(num, Some(HashLocale)) == Plural.Localized(Some("1 message"))
    ensures num == "2" ==> c.Answer(num, Some(HashLocale)) == Plural.Localized(Some("2 messages"))
  {
    if num == "1" {
      HashOne(c, num);
    } else if num == "2" {
      HashTwo(c, num);
    }
  }

  /** 1 takes `# message` with `#` replaced: `1 message`. */
  lemma HashOne(c: Plural.CardinalPlural, num: Numeral)
    requires c.categorizer == English.HandWritten && num == "1"
    ensures c.Answer(num, Some(HashLocale)) == Plural.Localized(Some("1 message"))
  {
    HashTemplate(c, num, One, " message");
    HashTexts();
  }

  /** 2 takes `# messages` with `#` replaced: `2 messages`. */
  lemma HashTwo(c: Plural.CardinalPlural, num: Numeral)
    requires c.categorizer == English.HandWritten && num == "2"
    ensures c.Answer(num, Some(HashLocale)) == Plural.Localized(Some("2 messages"))
  {
    HashTemplate(c, num, Other, " messages");
    HashTexts();
  }

  /** A number of the tests gets `#` replaced by itself in its category's template. */
  lemma HashTemplate(c: Plural.CardinalPlural, num: Numeral, cat: Category, rest: string)
    requires c.categorizer == English.HandWritten
    requires num in {"1", "2"} && cat in HashLocale.templates && HashLocale.templates[cat] == "#" + rest
    requires rest in {" message", " messages"}
    requires num == "1" <==> cat == One
    ensures c.Answer(num, Some(HashLocale)) == Plural.Localized(Some(num + rest))
  {
    EnglishCategories(num);
    PlainTexts();
    HashReply(c, num, cat, HashLocale, rest);
  }

  /** A template that is `#` and then text without `#` gives the number followed by the text. */
  lemma HashReply(c: Plural.CardinalPlural, num: Numeral, cat: Category, locale: Locale, rest: string)
    requires c.categorizer(Derive(num)) == cat
    requires num !in locale.exceptions
    requires cat in locale.templates && locale.templates[cat] == "#" + rest && '#' !in rest
    ensures c.Answer(num, Some(locale)) == Plural.Localized(Some(num + rest))
  {
    Plural.TemplateUsed(num, cat, locale);
    HashFirst(rest, num);
  }

  /** A category without a template gives undefined rather than an error: 2 has no `other` here. */
  lemma MissingTemplate(c: Plural.CardinalPlural, num: Numeral)
    requires c.categorizer == English.HandWritten
    ensures num == "2" ==> c.Answer(num, Some(Locale(map[One := "message"], map[]))) == Plural.Localized(None)
  {
    EnglishCategories(num);
    if num == "2" {
      Plural.TemplateUsed(num, Other, Locale(map[One := "message"], map[]));
    }
  }

  /** A leading `#` followed by text without one becomes the key followed by that text. */
  lemma HashFirst(rest: string, key: string)
    requires '#' !in rest
    ensures ReplaceHash("#" + rest, key) == key + rest
  {
    assert ("#" + rest)[1..] == rest;
    ReplaceHashNoHash(rest, key);
  }

  /** The locale of the tests' range case: templates and an override for the raw key `1+5`. */
  const RangeLocale: Locale :=
    Locale(map[One := "message", Other := "messages"], map["1+5" := "1 & 5 messages"])

  /** A range takes its category's template unless the raw key `1+5` has an override. */
  lemma RangeMessages(r: Plural.RangePlural, end: Numeral)
    requires r.cardinal.categorizer == English.HandWritten && r.rules == EnRangeRules
    ensures end == "2" ==> r.Answer(Unit, end, Some(RangeLocale)) == Plural.Localized(Some("messages"))
    ensures end == "5" ==> r.Answer(Unit, end, Some(RangeLocale)) == Plural.Localized(Some("1 & 5 messages"))
  {
    if end == "2" {
      RangeTemplate(r, end);
    } else if end == "5" {
      var key := Unit + "+" + end;
      RangeTexts();
      Plural.ExceptionWins(key, Other, Other, RangeLocale);
      PlainTexts();
      ReplaceHashNoHash("1 & 5 messages", key);
    }
  }

  /** The range 1–2 has no override, so it takes the `other` template. */
  lemma RangeTemplate(r: Plural.RangePlural, end: Numeral)
    requires r.cardinal.categorizer == English.HandWritten && r.rules == EnRangeRules
    requires end == "2"
    ensures r.Answer(Unit, end, Some(RangeLocale)) == Plural.Localized(Some("messages"))
  {
    EnglishRange(r, end);
    NoRangeOverride(end);
    PlainTexts();
    RangeTemplateReply(r, Unit, end, Other, RangeLocale, "messages");
  }

  /** A range without an override gets its category's template, here one without `#`. */
  lemma RangeTemplateReply(r: Plural.RangePlural, start: Numeral, end: Numeral, cat: Category, locale: Locale, message: string)
    requires r.RangeCategory(start, end) == cat
    requires start + "+" + end !in locale.exceptions
    requires cat in locale.templates && locale.templates[cat] == message && '#' !in message
    ensures r.Answer(start, end, Some(locale)) == Plural.Localized(Some(message))
  {
    Plural.TemplateUsed(start + "+" + end, cat, locale);
    ReplaceHashNoHash(message, start + "+" + end);
  }

  /** Only the range 1–5 has an override. */
  lemma NoRangeOverride(end: Numeral)
    requires end == "2"
    ensures Unit + "+" + end !in RangeLocale.exceptions
  {
    RangeTexts();
    assert RangeLocale.exceptions.Keys == {"1+5"};
  }

  /** With the English table, the range 1–2 is `other`. */
  lemma EnglishRange(r: Plural.RangePlural, end: Numeral)
    requires r.cardinal.categorizer == English.HandWritten && r.rules == EnRangeRules
    ensures end == "2" ==> r.RangeCategory(Unit, end) == Other
  {
    EnglishCategories(Unit);
    EnglishCategories(end);
    RangeTexts();
  }

  /** The raw keys and table keys of the tests' ranges. */
  lemma RangeTexts()
    ensures Unit + "+" + "2" == "1+2" && Unit + "+" + "5" == "1+5" && "1+2" != "1+5"
    ensures RangeKey(One, Other) == "one+other"
  {
  }

  /** The English pluralizer the catalogue is given: the plural function without a locale. */
  function EnglishKey(num: Numeral): string {
    Name(English.HandWritten(Derive(num)))
  }

  /** The catalogue of the tests: an `items` dictionary with a `=0` entry. */
  method Catalogue() returns (en: Localization.I18n)
    ensures fresh(en) && en.Valid() && en.pluralizer == EnglishKey
    ensures en.locale == map["items" := Localization.Stored(Localization.PluralDict(ItemsDict))]
  {
    en := new Localization.I18n(map["items" := Localization.PluralDict(ItemsDict)], EnglishKey);
  }

  const ItemsDict: map<string, string> := map["=0" := "no items", "one" := "item", "other" := "items"]

  /** The only exact entry of the dictionary is `=0`. */
  lemma NoExactEntry(key: string)
    requires |key| >= 2 && key[0] == '=' && key[1] != '0'
    ensures key !in ItemsDict
  {
    assert ItemsDict.Keys == {"=0", "one", "other"};
    assert key != "=0" && key != "one" && key != "other" by {
      assert "=0"[1] == '0' && "one"[0] == 'o' && "other"[0] == 'o';
    }
  }

  /** An unknown dictionary gives the number; the `=0` entry is taken verbatim, with or without glue. */
  method CatalogueExact() returns (unknown: Result<string>, zero: Result<string>, zeroGlued: Result<string>)
    ensures unknown == Ok("0")
    ensures zero == Ok("no items") && zeroGlued == Ok("no items")
  {
    var en := Catalogue();
    assert "=" + "0" == "=0";
    unknown := en.Plural("not-exists", "0", None);
    zero := en.Plural("items", "0", None);
    zeroGlued := en.Plural("items", "0", Some(" "));
  }

  /** Otherwise the pluralizer's entry is used, prefixed by the number and the glue. */
  method CatalogueKeyed() returns (one: Result<string>, oneGlued: Result<string>, many: Result<string>)
    ensures one == Ok("item") && oneGlued == Ok("1 item")
    ensures many == Ok("99 items")
  {
    var en := Catalogue();
    EnglishCategories(Unit);
    EnglishCategories(NinetyNine);
    Glued();
    KeyedEntry(en, Unit, "one");
    KeyedEntry(en, NinetyNine, "other");
    one := en.Plural("items", Unit, None);
    oneGlued := en.Plural("items", Unit, Some(" "));
    many := en.Plural("items", NinetyNine, Some(" "));
  }

  /** For a number whose key has an entry, the entry is the message, glued after the number and a blank. */
  lemma KeyedEntry(en: Localization.I18n, num: Numeral, key: string)
    requires en.pluralizer == EnglishKey && EnglishKey(num) == key && key in {"one", "other"}
    requires en.locale == map["items" := Localization.Stored(Localization.PluralDict(ItemsDict))]
    requires num != [] && num[0] != '0'
    ensures en.Plural("items", num, None) == Ok(ItemsDict[key])
    ensures en.Plural("items", num, Some(" ")) == Ok(num + " " + ItemsDict[key])
  {
    assert ("=" + num)[1] == num[0];
    NoExactEntry("=" + num);
    assert ItemsDict.Keys == {"=0", "one", "other"};
    en.GluePrefixes("items", num, " ");
  }

  /** The tests' messages without `#`. */
  lemma PlainTexts()
    ensures '#' !in "message" && '#' !in "messages" && '#' !in " message" && '#' !in " messages"
    ensures '#' !in "no message" && '#' !in "fifty messages" && '#' !in "1 & 5 messages"
  {
  }

  /** The tests' messages with the number in front. */
  lemma HashTexts()
    ensures "1" + " message" == "1 message" && "2" + " messages" == "2 messages"
  {
  }

  lemma Glued()
    ensures "1" + " " + "item" == "1 item"
    ensures "99" + " " + "items" == "99 items"
  {
  }

  /** The catalogue's `get`: an unknown id is returned, a call's dictionary wins, a stored text is found. */
  method CatalogueGet() returns (unknown: Localization.Message, inline: Localization.Message, required: Localization.Message)
    ensures unknown == Localization.Found("not-exists")
    ensures inline == Localization.Found("Wow")
    ensures required == Localization.Found("No empty")
  {
    var en := new Localization.I18n(map["required" := Localization.Text("No empty")], Localization.EnPlural);
    unknown := en.Get(Localization.Named("not-exists"), None);
    inline := en.Get(Localization.Named("inline"), Some(map["inline" := "Wow"]));
    required := en.Get(Localization.Named("required"), None);
  }

  /** `select` returns the value's own sub-message when there is one, else `other`. */
  method Select() returns (found: string, fallback: string)
    ensures found == "Квадрат"
    ensures fallback == "unknown"
  {
    found := Selection.Select("rect", map["rect" := "Квадрат", "other" := "unknown"]);
    fallback := Selection.Select("rect", map["other" := "unknown"]);
  }
}
