/**
 * The plural function of `src/plural/plural.ts`: the same cardinal, range and
 * dispatching functions as the self-contained pluralizer, except that the cardinal
 * categorizer is handed in as a function of the operands (n, i, f, v) rather than
 * compiled from condition texts, and that a missing message is returned as
 * undefined instead of failing.
 */
module Plural {
  import opened Wrappers
  import opened Text
  import opened Categories
  import opened Numbers
  import opened Templates
  import opened Arguments
  import Pluralizer
  import Rules

  /**
   * The message for `key` at `category`: the `'='` override for the key, else the
   * category's template; `#` is replaced by the key only in a non-empty message,
   * and a missing one is returned as undefined (`None`): exactly when there is no
   * override and no template. A key without `#` leaves no `#` in the message.
   */
  function LocaleValue(key: string, category: Category, locale: Locale): (r: Option<string>)
    ensures r.None? <==> key !in locale.exceptions && category !in locale.templates
    ensures r.Some? && '#' !in key ==> '#' !in r.value
  {
    match Entry(key, Some(category), locale)
    case None => None
    case Some(val) => Some(if val != "" && '#' in val then ReplaceHash(val, key) else val)
  }

  /** An override for the key wins, whatever the category, and all its `#`s become the key. */
  lemma ExceptionWins(key: string, a: Category, b: Category, locale: Locale)
    requires key in locale.exceptions
    ensures LocaleValue(key, a, locale) == LocaleValue(key, b, locale)
    ensures LocaleValue(key, a, locale) == Some(ReplaceHash(locale.exceptions[key], key))
  {
    if '#' !in locale.exceptions[key] {
      ReplaceHashNoHash(locale.exceptions[key], key);
    }
  }

  /**
   * Without an override the category's template is used with all its `#`s replaced,
   * and a missing template gives undefined rather than an error.
   */
  lemma TemplateUsed(key: string, c: Category, locale: Locale)
    requires key !in locale.exceptions
    ensures LocaleValue(key, c, locale).None? <==> c !in locale.templates
    ensures LocaleValue(key, c, locale).Some? ==>
      LocaleValue(key, c, locale).value == ReplaceHash(locale.templates[c], key)
  {
    if c in locale.templates && '#' !in locale.templates[c] {
      ReplaceHashNoHash(locale.templates[c], key);
    }
  }

  /**
   * The guard is the only difference between the two resolvers: where a message
   * exists both give it, and where none does the self-contained one fails instead of
   * answering undefined.
   */
  lemma GuardedResolver(key: string, c: Category, locale: Locale)
    ensures LocaleValue(key, c, locale).Some? ==>
      Pluralizer.LocaleValue(key, Rules.Categorized(c), locale) == Ok(LocaleValue(key, c, locale).value)
    ensures LocaleValue(key, c, locale).None? <==>
      Pluralizer.LocaleValue(key, Rules.Categorized(c), locale) == Err(TypeError)
  {
    if key in locale.exceptions {
      ExceptionWins(key, c, c, locale);
      Pluralizer.ExceptionWins(key, Rules.Categorized(c), Rules.Categorized(c), locale);
    } else {
      TemplateUsed(key, c, locale);
      Pluralizer.TemplateUsed(key, Rules.Categorized(c), locale);
    }
  }

  /** What a plural function call returns: a bare category, or a message (or undefined). */
  datatype Reply = Bare(c: Category) | Localized(message: Option<string>)

  /** The cardinal categorizer: the injected categorizer and the cache of answers by text. */
  class CardinalPlural {
    const categorizer: Operands -> Category
    var cache: map<Numeral, Category>

    /** Every cached answer is the categorizer's answer for the operands of that text. */
    ghost predicate Valid()
      reads this
    {
      forall n | n in cache :: cache[n] == categorizer(Derive(n))
    }

    /** The reply to `num`, with a locale or without. */
    function Answer(num: Numeral, locale: Option<Locale>): Reply {
      var category := categorizer(Derive(num));
      if locale.Some? then Localized(LocaleValue(num, category, locale.value)) else Bare(category)
    }

    constructor (categorizer: Operands -> Category)
      ensures this.categorizer == categorizer && cache == map[]
      ensures Valid()
    {
      this.categorizer := categorizer;
      cache := map[];
    }

    /**
     * A call: a cached text is answered from the cache, any other text is categorized
     * and its answer stored. Either way the answer is the categorizer's.
     */
    method Call(num: Numeral, locale: Option<Locale>) returns (r: Reply)
      requires Valid()
      modifies this
      ensures Valid()
      ensures cache == old(cache)[num := categorizer(Derive(num))]
      ensures r == Answer(num, locale)
    {
      var category: Category;
      if num in cache {
        category := cache[num];
      } else {
        var x := Derive(num);
        category := categorizer(x);
        cache := cache[num := category];
      }
      if locale.Some? {
        r := Localized(LocaleValue(num, category, locale.value));
      } else {
        r := Bare(category);
      }
    }
  }

  /**
   * The range categorizer: the table of endpoint-category pairs, the cardinal
   * categorizer it asks for the endpoints, and the cache of answers by raw key.
   */
  class RangePlural {
    const rules: map<string, Category>
    const cardinal: CardinalPlural
    var cache: map<string, Category>

    /** The table entry for the categories of both endpoints, if there is one. */
    function Lookup(start: Numeral, end: Numeral): Option<Category> {
      var key := RangeKey(cardinal.categorizer(Derive(start)), cardinal.categorizer(Derive(end)));
      if key in rules then Some(rules[key]) else None
    }

    /** The category of a range: the table entry, else `other`. */
    function RangeCategory(start: Numeral, end: Numeral): Category {
      Lookup(start, end).GetOr(Other)
    }

    /** `key` is `start+end` for texts whose table lookup gives `c`. */
    predicate Agrees(key: string, c: Category) {
      && NumericText(Before(key)) && NumericText(After(key))
      && Lookup(Before(key), After(key)) == Some(c)
    }

    predicate CacheAgrees(m: map<string, Category>) {
      forall key | key in m :: Agrees(key, m[key])
    }

    /** Every cached key is `start+end` for texts whose table lookup gave the cached value. */
    ghost predicate Valid()
      reads this, cardinal
    {
      cardinal.Valid() && CacheAgrees(cache)
    }

    /** The raw key of two texts splits back into them, so it agrees exactly with their lookup. */
    lemma AgreesJoined(start: Numeral, end: Numeral, c: Category)
      ensures Agrees(start + "+" + end, c) <==> Lookup(start, end) == Some(c)
    {
      SplitJoined(start, end);
    }

    lemma StoreAgrees(m: map<string, Category>, key: string, c: Category)
      requires CacheAgrees(m) && Agrees(key, c)
      ensures CacheAgrees(m[key := c])
    {
    }

    function Answer(start: Numeral, end: Numeral, locale: Option<Locale>): Reply {
      var category := RangeCategory(start, end);
      if locale.Some? then Localized(LocaleValue(start + "+" + end, category, locale.value))
      else Bare(category)
    }

    /** The range cache after a call: a table hit on an uncached key is added, nothing else. */
    function CacheAfter(m: map<string, Category>, start: Numeral, end: Numeral): map<string, Category> {
      var key := start + "+" + end;
      if key in m || Lookup(start, end).None? then m else m[key := Lookup(start, end).value]
    }

    lemma CacheAfterCases(m: map<string, Category>, start: Numeral, end: Numeral)
      ensures start + "+" + end in m || Lookup(start, end).None? ==> CacheAfter(m, start, end) == m
      ensures start + "+" + end !in m && Lookup(start, end).Some? ==>
        CacheAfter(m, start, end) == m[start + "+" + end := Lookup(start, end).value]
    {
    }

    /** The cardinal cache after a call: both endpoints are categorized unless the key was cached. */
    function CardinalCacheAfter(m: map<string, Category>, cm: map<Numeral, Category>, start: Numeral, end: Numeral): map<Numeral, Category> {
      if start + "+" + end in m then cm
      else cm[start := cardinal.categorizer(Derive(start))][end := cardinal.categorizer(Derive(end))]
    }

    constructor (rules: map<string, Category>, cardinal: CardinalPlural)
      requires cardinal.Valid()
      ensures this.rules == rules && this.cardinal == cardinal && cache == map[]
      ensures Valid()
    {
      this.rules := rules;
      this.cardinal := cardinal;
      cache := map[];
    }

    /**
     * The category of a call, with both caches updated: a cached key is answered from
     * the cache; otherwise both endpoints are categorized (filling the cardinal cache)
     * and a table hit, only a hit, is stored under the raw key.
     */
    method Resolve(start: Numeral, end: Numeral) returns (category: Category)
      requires Valid()
      modifies this, cardinal
      ensures Valid()
      ensures cache == CacheAfter(old(cache), start, end)
      ensures cardinal.cache == CardinalCacheAfter(old(cache), old(cardinal.cache), start, end)
      ensures category == RangeCategory(start, end)
    {
      var key := start + "+" + end;
      category := Other;
      if key in cache {
        category := cache[key];
        AgreesJoined(start, end, category);
        CacheAfterCases(cache, start, end);
        assert CardinalCacheAfter(cache, cardinal.cache, start, end) == cardinal.cache;
      } else {
        category := Miss(start, end);
      }
    }

    /**
     * An uncached key: both endpoints are categorized (filling the cardinal cache),
     * and a table hit, only a hit, is stored under the raw key.
     */
    method Miss(start: Numeral, end: Numeral) returns (category: Category)
      requires Valid() && start + "+" + end !in cache
      modifies this, cardinal
      ensures Valid()
      ensures cache == CacheAfter(old(cache), start, end)
      ensures cardinal.cache ==
        old(cardinal.cache)[start := cardinal.categorizer(Derive(start))][end := cardinal.categorizer(Derive(end))]
      ensures category == RangeCategory(start, end)
    {
      var key := start + "+" + end;
      category := Other;
      var a := cardinal.Call(start, None);
      var b := cardinal.Call(end, None);
      assert a.c == cardinal.categorizer(Derive(start)) && b.c == cardinal.categorizer(Derive(end));
      CacheAfterCases(cache, start, end);
      var rangeCategory := RangeKey(a.c, b.c);
      if rangeCategory in rules {
        category := rules[rangeCategory];
        AgreesJoined(start, end, category);
        StoreAgrees(cache, key, category);
        cache := cache[key := category];
      }
    }

    /** A call: the category `Resolve` gives, bare or as the locale's message for the raw key. */
    method Call(start: Numeral, end: Numeral, locale: Option<Locale>) returns (r: Reply)
      requires Valid()
      modifies this, cardinal
      ensures Valid()
      ensures cache == CacheAfter(old(cache), start, end)
      ensures cardinal.cache == CardinalCacheAfter(old(cache), old(cardinal.cache), start, end)
      ensures r == Answer(start, end, locale)
    {
      var category := Resolve(start, end);
      if locale.Some? {
        r := Localized(LocaleValue(start + "+" + end, category, locale.value));
      } else {
        r := Bare(category);
      }
    }
  }

  /**
   * The plural function: the cardinal and range categorizers, with the locale code and
   * the range categorizer exposed read-only.
   */
  class Plural {
    const code: string
    const cardinal: CardinalPlural
    const range: RangePlural

    ghost predicate Valid()
      reads this, cardinal, range
    {
      range.cardinal == cardinal && range.Valid()
    }

    constructor (code: string, rangeRules: map<string, Category>, categorizer: Operands -> Category)
      ensures this.code == code
      ensures cardinal.categorizer == categorizer && range.rules == rangeRules
      ensures cardinal.cache == map[] && range.cache == map[]
      ensures fresh(cardinal) && fresh(range)
      ensures Valid()
    {
      this.code := code;
      var c := new CardinalPlural(categorizer);
      cardinal := c;
      range := new RangePlural(rangeRules, c);
    }

    /**
     * A call with any of the overloads: it is answered by the categorizer the
     * arguments dispatch to, and only that categorizer's cache (and, for a range,
     * the cardinal cache it fills) changes.
     */
    method Call(args: seq<Arg>) returns (r: Reply)
      requires Valid() && Overload(args)
      modifies cardinal, range
      ensures Valid()
      ensures match Dispatch(args)
        case CardinalTarget(num, locale) =>
          && r == cardinal.Answer(num, locale)
          && cardinal.cache == old(cardinal.cache)[num := cardinal.categorizer(Derive(num))]
          && range.cache == old(range.cache)
        case RangeTarget(start, end, locale) =>
          && r == range.Answer(start, end, locale)
          && range.cache == range.CacheAfter(old(range.cache), start, end)
          && cardinal.cache == range.CardinalCacheAfter(old(range.cache), old(cardinal.cache), start, end)
    {
      if CardinalCall(args) {
        r := cardinal.Call(args[0].text, LocaleOf(args, 1));
      } else {
        r := range.Call(args[0].text, args[1].text, LocaleOf(args, 2));
      }
    }
  }
}
