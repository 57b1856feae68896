/**
 * The message catalogue of `src/i18n/i18n.ts`: a table of locale values by id, each
 * stored with a flag telling whether it is computed by a getter, a pluralizer mapping
 * a number to a dictionary key, and the `get` and `plural` lookups over that state.
 */
module Localization {
  import opened Wrappers
  import opened Numbers

  /** What `get` hands to a getter: the token, whose id is undefined for an empty target. */
  datatype Token = Token(id: Option<string>)

  /** A value given to `set`: a text, a getter computing the text from the token, or a plural dictionary. */
  datatype LocaleValue =
    | Text(s: string)
    | Getter(compute: Token -> string)
    | PluralDict(cardinal: map<string, string>)

  /** A value as the catalogue stores it. */
  datatype RawValue = RawValue(computed: bool, value: LocaleValue)

  /** The target of `get`: a bare id, or a token object carrying its id. */
  datatype Target = Named(s: string) | TokenObject(id: string)

  /** What `get` returns: a text, the stored plural dictionary object, or undefined. */
  datatype Message = Found(s: string) | DictObject(cardinal: map<string, string>) | Undefined

  /**
   * The token a target stands for: a non-empty bare id is wrapped as `{id}`, and an
   * empty one (falsy) is used as it is, so its id is undefined.
   */
  function TokenOf(target: Target): (t: Token)
    ensures t.id.None? <==> target == Named("")
    ensures t.id.Some? ==> t.id.value == (if target.Named? then target.s else target.id)
  {
    match target
    case Named(s) => if s == "" then Token(None) else Token(Some(s))
    case TokenObject(id) => Token(Some(id))
  }

  /** The property name an id is looked up under; an undefined id is read as `"undefined"`. */
  function KeyOf(id: Option<string>): (key: string)
    ensures id.Some? ==> key == id.value
    ensures key == "undefined" <==> id.None? || id == Some("undefined")
  {
    id.GetOr("undefined")
  }

  /** How `set` stores a value: `computed` exactly when it is a function. */
  function Stored(v: LocaleValue): (raw: RawValue)
    ensures raw.value == v
    ensures raw.computed <==> v.Getter?
  {
    RawValue(v.Getter?, v)
  }

  /**
   * Where the default pluralizer runs. Its second test reads a global `name` that the
   * module never declares: a browser defines it (the window's name, a string), Node.js
   * does not.
   */
  datatype Host = Browser | NodeJs

  /**
   * The default pluralizer as written: zero maps to the `=0` key. Any other number
   * reaches the test `name === 1`. In a browser that compares a string with a number,
   * which is never strictly equal, so the answer is `other`; under Node.js reading the
   * undeclared `name` throws a ReferenceError. The `one` key is never produced.
   */
  function EnPluralAsWritten(num: Numeral, host: Host): (key: Result<string>)
    ensures ToNumber(num) == Num(0.0) ==> key == Ok("=0")
    ensures ToNumber(num) != Num(0.0) && host == Browser ==> key == Ok("other")
    ensures ToNumber(num) != Num(0.0) && host == NodeJs ==> key == Err(ReferenceError)
    ensures key != Ok("one")
  {
    if ToNumber(num) == Num(0.0) then Ok("=0")
    else if host == Browser then Ok("other")
    else Err(ReferenceError)
  }

  /** The default pluralizer as evidently intended: the second test reads `num`. */
  function EnPlural(num: Numeral): (key: string)
    ensures key == "=0" <==> ToNumber(num) == Num(0.0)
    ensures key == "one" <==> ToNumber(num) == Num(1.0)
    ensures key == "=0" || key == "one" || key == "other"
  {
    if ToNumber(num) == Num(0.0) then "=0"
    else if ToNumber(num) == Num(1.0) then "one"
    else "other"
  }

  /**
   * For the number 1 the written default gives `other` in a browser and fails under
   * Node.js; the intended one gives `one`.
   */
  lemma EnPluralMissesOne()
    ensures EnPluralAsWritten("1", Browser) == Ok("other")
    ensures EnPluralAsWritten("1", NodeJs) == Err(ReferenceError)
    ensures EnPlural("1") == "one"
  {
    assert ToNumber("1") == Num(1.0) by {
      assert DigitsValue("1") == 1;
    }
  }

  class I18n {
    var locale: map<string, RawValue>
    var pluralizer: Numeral -> string

    /** Every stored value is computed exactly when it is a getter. */
    ghost predicate Valid()
      reads this
    {
      forall id | id in locale :: locale[id].computed <==> locale[id].value.Getter?
    }

    constructor (values: map<string, LocaleValue>, plural: Numeral -> string)
      ensures locale == map id | id in values :: Stored(values[id])
      ensures pluralizer == plural
      ensures Valid()
    {
      locale := map[];
      pluralizer := plural;
      new;
      Set(values);
    }

    /**
     * Stores every given value under its id with its `computed` flag; ids not given
     * keep their value.
     */
    method Set(values: map<string, LocaleValue>)
      requires Valid()
      modifies this
      ensures Valid()
      ensures locale == old(locale) + map id | id in values :: Stored(values[id])
      ensures pluralizer == old(pluralizer)
    {
      var pending := values.Keys;
      while pending != {}
        invariant pending <= values.Keys
        invariant Valid()
        invariant pluralizer == old(pluralizer)
        invariant locale == old(locale) + map id | id in values.Keys - pending :: Stored(values[id])
        decreases pending
      {
        var id :| id in pending;
        locale := locale[id := Stored(values[id])];
        pending := pending - {id};
      }
    }

    /**
     * `plural(dictName, num, glue)`: an unknown dictionary gives the number's text;
     * an exact `=num` entry is returned as it is; otherwise the entry for the
     * pluralizer's key, else `other`, prefixed by `num + glue` when glue is given.
     * A dictionary name bound to anything but a plural dictionary fails, as reading
     * a property of its missing `cardinal` does.
     */
    function Plural(dictName: string, num: Numeral, glue: Option<string>): (r: Result<string>)
      reads this
      ensures r.Err? <==> dictName in locale && !locale[dictName].value.PluralDict?
      ensures r.Err? ==> r.error == TypeError
    {
      if dictName !in locale then Ok(num)
      else if !locale[dictName].value.PluralDict? then Err(TypeError)
      else
        var cardinal := locale[dictName].value.cardinal;
        if "=" + num in cardinal then Ok(cardinal["=" + num])
        else
          var key := pluralizer(num);
          var value := if key in cardinal then cardinal[key]
                       else if "other" in cardinal then cardinal["other"]
                       else "undefined";
          Ok((if glue.None? then "" else num + glue.value) + value)
    }

    /**
     * `get(target, dict)`: the per-call dictionary wins, then the stored value (a
     * computed one through its getter), then the id itself.
     */
    function Get(target: Target, dict: Option<map<string, string>>): (m: Message)
      requires Valid()
      reads this
      ensures m.Undefined? <==>
        target == Named("") && (dict.None? || "undefined" !in dict.value) && "undefined" !in locale
      ensures m.DictObject? ==> KeyOf(TokenOf(target).id) in locale
    {
      var token := TokenOf(target);
      var key := KeyOf(token.id);
      if dict.Some? && key in dict.value then Found(dict.value[key])
      else if key in locale then
        var raw := locale[key];
        if raw.computed then Found(raw.value.compute(token))
        else if raw.value.Text? then Found(raw.value.s)
        else DictObject(raw.value.cardinal)
      else if token.id.Some? then Found(token.id.value)
      else Undefined
    }

    /** An unknown dictionary name gives the number's own text, with or without glue. */
    lemma UnknownDictionary(dictName: string, num: Numeral, glue: Option<string>)
      requires dictName !in locale
      ensures Plural(dictName, num, glue) == Ok(num)
    {
    }

    /** An exact `=num` entry is returned verbatim, whatever the glue. */
    lemma ExactEntryIgnoresGlue(dictName: string, num: Numeral, glue: Option<string>)
      requires dictName in locale && locale[dictName].value.PluralDict?
      requires "=" + num in locale[dictName].value.cardinal
      ensures Plural(dictName, num, glue) == Ok(locale[dictName].value.cardinal["=" + num])
      ensures Plural(dictName, num, glue) == Plural(dictName, num, None)
    {
    }

    /**
     * Without an exact entry, glue only prefixes `num + glue` to the message given
     * without glue, and that message is the pluralizer's entry, else `other`.
     */
    lemma GluePrefixes(dictName: string, num: Numeral, glue: string)
      requires dictName in locale && locale[dictName].value.PluralDict?
      requires "=" + num !in locale[dictName].value.cardinal
      ensures Plural(dictName, num, Some(glue)).Ok? && Plural(dictName, num, None).Ok?
      ensures Plural(dictName, num, Some(glue)).value == num + glue + Plural(dictName, num, None).value
      ensures var cardinal := locale[dictName].value.cardinal;
        Plural(dictName, num, None).value ==
          if pluralizer(num) in cardinal then cardinal[pluralizer(num)]
          else if "other" in cardinal then cardinal["other"] else "undefined"
    {
    }

    /** A per-call dictionary entry for the id wins over everything stored. */
    lemma DictionaryWins(target: Target, dict: map<string, string>)
      requires Valid()
      requires KeyOf(TokenOf(target).id) in dict
      ensures Get(target, Some(dict)) == Found(dict[KeyOf(TokenOf(target).id)])
    {
    }

    /**
     * Without a dictionary entry, a stored static value is returned as stored and a
     * stored getter is applied to the token.
     */
    lemma StoredValueNext(target: Target, dict: Option<map<string, string>>)
      requires Valid()
      requires dict.None? || KeyOf(TokenOf(target).id) !in dict.value
      requires KeyOf(TokenOf(target).id) in locale
      ensures var raw := locale[KeyOf(TokenOf(target).id)];
        Get(target, dict) ==
          match raw.value
          case Text(s) => Found(s)
          case PluralDict(c) => DictObject(c)
          case Getter(compute) => Found(compute(TokenOf(target)))
    {
    }

    /** With neither a dictionary entry nor a stored value, the id itself is returned. */
    lemma IdLast(target: Target, dict: Option<map<string, string>>)
      requires Valid()
      requires dict.None? || KeyOf(TokenOf(target).id) !in dict.value
      requires KeyOf(TokenOf(target).id) !in locale
      ensures target.Named? && target.s != "" ==> Get(target, dict) == Found(target.s)
      ensures target.TokenObject? ==> Get(target, dict) == Found(target.id)
      ensures target == Named("") ==> Get(target, dict) == Undefined
    {
    }
  }
}
