/**
 * The self-contained plural function of `src/pluralizer/pluralizer.ts`: a cardinal
 * categorizer compiled from condition texts, a range categorizer over a table of
 * endpoint-category pairs, and the variadic function that dispatches between them.
 * Both categorizers memoise their answers in a dictionary they own.
 */
module Pluralizer {
  import opened Wrappers
  import opened Text
  import opened Categories
  import opened Numbers
  import opened Rules
  import opened Templates
  import opened Arguments

  /**
   * The message for `key` at `category`: the `'='` override for the key, else the
   * category's template, with every `#` replaced by the key. Nothing guards a missing
   * entry here, so reading `indexOf` of it fails with a TypeError: it fails exactly
   * when there is no override and the categorizer is broken or has no template. A key
   * without `#` leaves no `#` in the message.
   */
  function LocaleValue(key: string, category: Outcome, locale: Locale): (r: Result<string>)
    ensures r.Err? <==> key !in locale.exceptions && (category.Broken? || category.c !in locale.templates)
    ensures r.Err? ==> r.error == TypeError
    ensures r.Ok? && '#' !in key ==> '#' !in r.value
  {
    match Entry(key, if category.Categorized? then Some(category.c) else None, locale)
    case None => Err(TypeError)
    case Some(val) => Ok(if '#' in val then ReplaceHash(val, key) else val)
  }

  /** An override for the key wins, whatever the category, and all its `#`s become the key. */
  lemma ExceptionWins(key: string, a: Outcome, b: Outcome, locale: Locale)
    requires key in locale.exceptions
    ensures LocaleValue(key, a, locale) == LocaleValue(key, b, locale)
    ensures LocaleValue(key, a, locale) == Ok(ReplaceHash(locale.exceptions[key], key))
  {
    if '#' !in locale.exceptions[key] {
      ReplaceHashNoHash(locale.exceptions[key], key);
    }
  }

  /**
   * Without an override the category's template is used, with all its `#`s replaced;
   * a missing template (or a broken categorizer) is a TypeError.
   */
  lemma TemplateUsed(key: string, o: Outcome, locale: Locale)
    requires key !in locale.exceptions
    ensures LocaleValue(key, o, locale).Err? <==> o.Broken? || o.c !in locale.templates
    ensures LocaleValue(key, o, locale).Ok? ==>
      LocaleValue(key, o, locale).value == ReplaceHash(locale.templates[o.c], key)
  {
    if o.Categorized? && o.c in locale.templates && '#' !in locale.templates[o.c] {
      ReplaceHashNoHash(locale.templates[o.c], key);
    }
  }

  /** What a plural function call returns: a bare category, or a message from a locale. */
  datatype Reply = Bare(o: Outcome) | Localized(message: Result<string>)

  /** The cardinal categorizer: the compiled rules and the cache of answers by text. */
  class CardinalPlural {
    const program: Result<Program>
    var cache: map<Numeral, Outcome>

    /** Every cached answer is the one the compiled rules give for that text. */
    ghost predicate Valid()
      reads this
    {
      forall n | n in cache :: cache[n] == Categorize(program, n)
    }

    /** The reply to `num`, with a locale or without. */
    function Answer(num: Numeral, locale: Option<Locale>): Reply {
      var category := Categorize(program, num);
      if locale.Some? then Localized(LocaleValue(num, category, locale.value)) else Bare(category)
    }

    constructor (rules: seq<Rule>)
      ensures program == CompileRules(rules) && cache == map[]
      ensures Valid()
    {
      program := CompileRules(rules);
      cache := map[];
    }

    /**
     * A call: a cached text is answered from the cache, any other text is categorized
     * and its answer stored. Either way the answer is the rules' first match.
     */
    method Call(num: Numeral, locale: Option<Locale>) returns (r: Reply)
      requires Valid()
      modifies this
      ensures Valid()
      ensures cache == old(cache)[num := Categorize(program, num)]
      ensures r == Answer(num, locale)
    {
      var category: Outcome;
      if num in cache {
        category := cache[num];
      } else {
        category := Categorize(program, num);
        cache := cache[num := category];
      }
      if locale.Some? {
        r := Localized(LocaleValue(num, category, locale.value));
      } else {
        r := Bare(category);
      }
    }
  }

  /**
   * The range categorizer: the table of endpoint-category pairs, the cardinal
   * categorizer it asks for the endpoints, and the cache of answers by raw key.
   */
  class RangePlural {
    const rules: map<string, Category>
    const cardinal: CardinalPlural
    var cache: map<string, Category>

    /** The table entry for the categories of both endpoints, if there is one. */
    function Lookup(start: Numeral, end: Numeral): Option<Category> {
      match (Categorize(cardinal.program, start), Categorize(cardinal.program, end))
      case (Categorized(a), Categorized(b)) =>
        if RangeKey(a, b) in rules then Some(rules[RangeKey(a, b)]) else None
      case _ => None
    }

    /** The category of a range: the table entry, else `other`. */
    function RangeCategory(start: Numeral, end: Numeral): Category {
      Lookup(start, end).GetOr(Other)
    }

    /** `key` is `start+end` for texts whose table lookup gives `c`. */
    predicate Agrees(key: string, c: Category) {
      && NumericText(Before(key)) && NumericText(After(key))
      && Lookup(Before(key), After(key)) == Some(c)
    }

    predicate CacheAgrees(m: map<string, Category>) {
      forall key | key in m :: Agrees(key, m[key])
    }

    /** Every cached key is `start+end` for texts whose table lookup gave the cached value. */
    ghost predicate Valid()
      reads this, cardinal
    {
      cardinal.Valid() && CacheAgrees(cache)
    }

    /** The raw key of two texts splits back into them, so it agrees exactly with their lookup. */
    lemma AgreesJoined(start: Numeral, end: Numeral, c: Category)
      ensures Agrees(start + "+" + end, c) <==> Lookup(start, end) == Some(c)
    {
      SplitJoined(start, end);
    }

    lemma StoreAgrees(m: map<string, Category>, key: string, c: Category)
      requires CacheAgrees(m) && Agrees(key, c)
      ensures CacheAgrees(m[key := c])
    {
    }

    function Answer(start: Numeral, end: Numeral, locale: Option<Locale>): Reply {
      var category := Categorized(RangeCategory(start, end));
      if locale.Some? then Localized(LocaleValue(start + "+" + end, category, locale.value))
      else Bare(category)
    }

    /** The range cache after a call: a table hit on an uncached key is added, nothing else. */
    function CacheAfter(m: map<string, Category>, start: Numeral, end: Numeral): map<string, Category> {
      var key := start + "+" + end;
      if key in m || Lookup(start, end).None? then m else m[key := Lookup(start, end).value]
    }

    lemma CacheAfterCases(m: map<string, Category>, start: Numeral, end: Numeral)
      ensures start + "+" + end in m || Lookup(start, end).None? ==> CacheAfter(m, start, end) == m
      ensures start + "+" + end !in m && Lookup(start, end).Some? ==>
        CacheAfter(m, start, end) == m[start + "+" + end := Lookup(start, end).value]
    {
    }

    /** The cardinal cache after a call: both endpoints are categorized unless the key was cached. */
    function CardinalCacheAfter(m: map<string, Category>, cm: map<Numeral, Outcome>, start: Numeral, end: Numeral): map<Numeral, Outcome> {
      if start + "+" + end in m then cm
      else cm[start := Categorize(cardinal.program, start)][end := Categorize(cardinal.program, end)]
    }

    constructor (rules: map<string, Category>, cardinal: CardinalPlural)
      requires cardinal.Valid()
      ensures this.rules == rules && this.cardinal == cardinal && cache == map[]
      ensures Valid()
    {
      this.rules := rules;
      this.cardinal := cardinal;
      cache := map[];
    }

    /**
     * The category of a call, with both caches updated: a cached key is answered from
     * the cache; otherwise both endpoints are categorized (filling the cardinal cache)
     * and a table hit, only a hit, is stored under the raw key.
     */
    method Resolve(start: Numeral, end: Numeral) returns (category: Category)
      requires Valid()
      modifies this, cardinal
      ensures Valid()
      ensures cache == CacheAfter(old(cache), start, end)
      ensures cardinal.cache == CardinalCacheAfter(old(cache), old(cardinal.cache), start, end)
      ensures category == RangeCategory(start, end)
    {
      var key := start + "+" + end;
      category := Other;
      if key in cache {
        category := cache[key];
        AgreesJoined(start, end, category);
        CacheAfterCases(cache, start, end);
        assert CardinalCacheAfter(cache, cardinal.cache, start, end) == cardinal.cache;
      } else {
        var a := cardinal.Call(start, None);
        var b := cardinal.Call(end, None);
        assert a.o == Categorize(cardinal.program, start) && b.o == Categorize(cardinal.program, end);
        CacheAfterCases(cache, start, end);
        if a.o.Categorized? && b.o.Categorized? && RangeKey(a.o.c, b.o.c) in rules {
          category := rules[RangeKey(a.o.c, b.o.c)];
          AgreesJoined(start, end, category);
          StoreAgrees(cache, key, category);
          cache := cache[key := category];
        }
      }
    }

    /** A call: the category `Resolve` gives, bare or as the locale's message for the raw key. */
    method Call(start: Numeral, end: Numeral, locale: Option<Locale>) returns (r: Reply)
      requires Valid()
      modifies this, cardinal
      ensures Valid()
      ensures cache == CacheAfter(old(cache), start, end)
      ensures cardinal.cache == CardinalCacheAfter(old(cache), old(cardinal.cache), start, end)
      ensures r == Answer(start, end, locale)
    {
      var category := Resolve(start, end);
      if locale.Some? {
        r := Localized(LocaleValue(start + "+" + end, Categorized(category), locale.value));
      } else {
        r := Bare(Categorized(category));
      }
    }
  }

  /** The plural function: the cardinal and range categorizers and the rules, read-only. */
  class Plural {
    const cardinalRules: seq<Rule>
    const rangeRules: map<string, Category>
    const cardinal: CardinalPlural
    const range: RangePlural

    ghost predicate Valid()
      reads this, cardinal, range
    {
      range.cardinal == cardinal && range.Valid()
    }

    constructor (cardinalRules: seq<Rule>, rangeRules: map<string, Category>)
      ensures this.cardinalRules == cardinalRules && this.rangeRules == rangeRules
      ensures cardinal.program == CompileRules(cardinalRules) && range.rules == rangeRules
      ensures cardinal.cache == map[] && range.cache == map[]
      ensures fresh(cardinal) && fresh(range)
      ensures Valid()
    {
      this.cardinalRules := cardinalRules;
      this.rangeRules := rangeRules;
      var c := new CardinalPlural(cardinalRules);
      cardinal := c;
      range := new RangePlural(rangeRules, c);
    }

    /**
     * A call with any of the overloads: it is answered by the categorizer the
     * arguments dispatch to, and only that categorizer's cache (and, for a range,
     * the cardinal cache it fills) changes.
     */
    method Call(args: seq<Arg>) returns (r: Reply)
      requires Valid() && Overload(args)
      modifies cardinal, range
      ensures Valid()
      ensures match Dispatch(args)
        case CardinalTarget(num, locale) =>
          && r == cardinal.Answer(num, locale)
          && cardinal.cache == old(cardinal.cache)[num := Categorize(cardinal.program, num)]
          && range.cache == old(range.cache)
        case RangeTarget(start, end, locale) =>
          && r == range.Answer(start, end, locale)
          && range.cache == range.CacheAfter(old(range.cache), start, end)
          && cardinal.cache == range.CardinalCacheAfter(old(range.cache), old(cardinal.cache), start, end)
    {
      if CardinalCall(args) {
        r := cardinal.Call(args[0].text, LocaleOf(args, 1));
      } else {
        r := range.Call(args[0].text, args[1].text, LocaleOf(args, 2));
      }
    }
  }
}
