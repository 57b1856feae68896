/** Small facts about strings used by the cache keys and the range keys. */
module Text {

  /** JavaScript's `indexOf` for one character: the first position of `c`, or -1. */
  function IndexOf(s: string, c: char): (k: int)
    ensures -1 <= k < |s|
    ensures k == -1 <==> c !in s
    ensures k >= 0 ==> s[k] == c && c !in s[..k]
  {
    if s == [] then -1
    else if s[0] == c then 0
    else
      var k := IndexOf(s[1..], c);
      assert s[1..][..if k < 0 then 0 else k] == s[1..if k < 0 then 1 else k + 1];
      if k < 0 then -1 else k + 1
  }

  /** A position holding `c` with no `c` before it is the one `indexOf` finds. */
  lemma IndexOfAt(s: string, c: char, k: nat)
    requires k < |s| && s[k] == c && c !in s[..k]
    ensures IndexOf(s, c) == k
  {
  }

  /** The part of a composite key before its first `+`. */
  function Before(key: string): string {
    var k := IndexOf(key, '+');
    if k < 0 then key else key[..k]
  }

  /** The part of a composite key after its first `+`. */
  function After(key: string): string {
    var k := IndexOf(key, '+');
    if k < 0 then "" else key[k + 1..]
  }

  /** A composite key `a+b` whose left part has no `+` splits back into `a` and `b`. */
  lemma {:induction false} SplitJoined(a: string, b: string)
    requires '+' !in a
    ensures IndexOf(a + "+" + b, '+') == |a|
    ensures Before(a + "+" + b) == a && After(a + "+" + b) == b
  {
    var key := a + "+" + b;
    assert key[|a|] == '+';
    assert key[..|a|] == a;
    assert key[|a| + 1..] == b;
  }

  /** Two composite keys whose left parts have no `+` are equal only when both parts are. */
  lemma JoinedInjective(a: string, b: string, c: string, d: string)
    requires '+' !in a && '+' !in c
    ensures a + "+" + b == c + "+" + d <==> a == c && b == d
  {
    SplitJoined(a, b);
    SplitJoined(c, d);
  }
}
