/**
 * Message templates of a locale dictionary: one template per category, an optional
 * `'='` table of exact-key overrides, and the substitution of every `#` by the key.
 */
module Templates {
  import opened Wrappers
  import opened Categories

  /**
   * A locale dictionary handed to a categorizer: templates by category and the
   * entries of its `'='` table (empty when the table is absent).
   */
  datatype Locale = Locale(templates: map<Category, string>, exceptions: map<string, string>)

  /**
   * Every `#` of `s` replaced by `key`, as a global regular-expression replace does:
   * each `#` grows the text by the key's length less one, and when the key has no `#`,
   * none survives.
   */
  function ReplaceHash(s: string, key: string): (r: string)
    ensures |r| == |s| + Hashes(s) * (|key| - 1)
    ensures '#' !in key ==> '#' !in r
  {
    if s == [] then ""
    else
      var rest := ReplaceHash(s[1..], key);
      GrowthStep(|s[1..]|, Hashes(s[1..]), |key|, s[0] == '#');
      (if s[0] == '#' then key else [s[0]]) + rest
  }

  /** One more character adds one to the length, or the key's length for a `#`. */
  lemma GrowthStep(n: nat, h: nat, k: nat, hash: bool)
    ensures (if hash then k else 1) + n + h * (k - 1) == n + 1 + (h + (if hash then 1 else 0)) * (k - 1)
  {
  }

  /** The number of `#` characters in a text. */
  function Hashes(s: string): nat {
    if s == [] then 0 else (if s[0] == '#' then 1 else 0) + Hashes(s[1..])
  }

  /** Replacement works piecewise on a concatenation. */
  lemma {:induction false} ReplaceHashAppend(a: string, b: string, key: string)
    ensures ReplaceHash(a + b, key) == ReplaceHash(a, key) + ReplaceHash(b, key)
  {
    if a != [] {
      assert (a + b)[1..] == a[1..] + b;
      ReplaceHashAppend(a[1..], b, key);
    } else {
      assert a + b == b;
    }
  }

  /** A text without `#` is left as it is. */
  lemma {:induction false} ReplaceHashNoHash(s: string, key: string)
    requires '#' !in s
    ensures ReplaceHash(s, key) == s
  {
    if s != [] {
      ReplaceHashNoHash(s[1..], key);
    }
  }

  /** Replacing `#` by `#` changes nothing: the replacement touches only the `#`s. */
  lemma {:induction false} ReplaceHashByItself(s: string)
    ensures ReplaceHash(s, "#") == s
  {
    if s != [] {
      ReplaceHashByItself(s[1..]);
      if s[0] == '#' {
        assert s == "#" + s[1..];
      } else {
        assert s == [s[0]] + s[1..];
      }
    }
  }

  /**
   * The raw entry a dictionary gives for `key` at `category`: an override for the key
   * wins; otherwise the category's template; there is none exactly when neither exists.
   */
  function Entry(key: string, category: Option<Category>, locale: Locale): (e: Option<string>)
    ensures key in locale.exceptions ==> e == Some(locale.exceptions[key])
    ensures e.None? <==> key !in locale.exceptions && (category.None? || category.value !in locale.templates)
    ensures e.Some? ==> e.value in locale.exceptions.Values || e.value in locale.templates.Values
  {
    if key in locale.exceptions then Some(locale.exceptions[key])
    else if category.Some? && category.value in locale.templates then Some(locale.templates[category.value])
    else None
  }
}
