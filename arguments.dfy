/**
 * The arguments of a plural function and how it dispatches on them: the cardinal
 * form `(num, locale?)` and the range form `(start, end, locale?)` share one
 * variadic entry point that tells them apart by count and by the type of the second.
 */
module Arguments {
  import opened Wrappers
  import opened Numbers
  import opened Templates

  /** An argument of the plural function: a number's text, or a locale dictionary. */
  datatype Arg = NumberArg(text: Numeral) | LocaleArg(locale: Locale)

  /** The argument lists the declared overloads accept: `(num, locale?)` and `(start, end, locale?)`. */
  predicate Overload(args: seq<Arg>) {
    && 1 <= |args| <= 3
    && args[0].NumberArg?
    && (|args| == 3 ==> args[1].NumberArg? && args[2].LocaleArg?)
  }

  /** The dispatch test: one argument, or two whose second is an object, is a cardinal call. */
  predicate CardinalCall(args: seq<Arg>) {
    |args| == 1 || (|args| == 2 && args[1].LocaleArg?)
  }

  function LocaleOf(args: seq<Arg>, k: nat): Option<Locale> {
    if k < |args| && args[k].LocaleArg? then Some(args[k].locale) else None
  }

  /** A call of one of the two categorizers, with the arguments it receives. */
  datatype Target =
    | CardinalTarget(num: Numeral, locale: Option<Locale>)
    | RangeTarget(start: Numeral, end: Numeral, locale: Option<Locale>)

  /**
   * Where the plural function sends an argument list, and with which arguments: the
   * cardinal categorizer exactly for a cardinal call, with the leading numbers in
   * order, and the locale is the last argument when that is a dictionary.
   */
  function Dispatch(args: seq<Arg>): (t: Target)
    requires Overload(args)
    ensures t.CardinalTarget? <==> CardinalCall(args)
    ensures t.CardinalTarget? ==> t.num == args[0].text
    ensures t.RangeTarget? ==> t.start == args[0].text && t.end == args[1].text
    ensures t.locale == LocaleOf(args, |args| - 1)
  {
    if CardinalCall(args) then CardinalTarget(args[0].text, LocaleOf(args, 1))
    else RangeTarget(args[0].text, args[1].text, LocaleOf(args, 2))
  }

  /** The argument list a caller writes for each overload. */
  function ArgsOf(t: Target): (args: seq<Arg>)
    ensures Overload(args)
  {
    match t
    case CardinalTarget(num, locale) =>
      [NumberArg(num)] + (if locale.Some? then [LocaleArg(locale.value)] else [])
    case RangeTarget(start, end, locale) =>
      [NumberArg(start), NumberArg(end)] + (if locale.Some? then [LocaleArg(locale.value)] else [])
  }

  /** Every overload reaches its own categorizer with its arguments intact. */
  lemma DispatchRoundTrip(t: Target)
    ensures Dispatch(ArgsOf(t)) == t
  {
  }

  /** Every accepted argument list is the one written for the call it dispatches to. */
  lemma DispatchIsFaithful(args: seq<Arg>)
    requires Overload(args)
    ensures ArgsOf(Dispatch(args)) == args
  {
    if |args| == 3 {
      assert args == [args[0], args[1]] + [args[2]];
    } else if |args| == 2 {
      assert args == [args[0]] + [args[1]];
    }
  }
}
