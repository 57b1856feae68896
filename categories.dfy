/** The closed set of plural categories and the composite keys of range tables. */
module Categories {
  import opened Text

  datatype Category = Zero | One | Two | Few | Many | Other

  /** The category's name as the rule tables and locale dictionaries spell it. */
  function Name(c: Category): (s: string)
    ensures |s| > 0 && '+' !in s
  {
    match c
    case Zero => "zero"
    case One => "one"
    case Two => "two"
    case Few => "few"
    case Many => "many"
    case Other => "other"
  }

  /** The key `"<start>+<end>"` under which a range table stores the pair of endpoint categories. */
  function RangeKey(start: Category, end: Category): (key: string)
    ensures Before(key) == Name(start) && After(key) == Name(end)
  {
    SplitJoined(Name(start), Name(end));
    Name(start) + "+" + Name(end)
  }

  lemma NameInjective(a: Category, b: Category)
    ensures Name(a) == Name(b) <==> a == b
  {
  }

  /** Distinct pairs of categories have distinct range keys. */
  lemma RangeKeyInjective(a: Category, b: Category, c: Category, d: Category)
    ensures RangeKey(a, b) == RangeKey(c, d) <==> a == c && b == d
  {
    JoinedInjective(Name(a), Name(b), Name(c), Name(d));
    NameInjective(a, c);
    NameInjective(b, d);
  }
}
