/**
 * `select` of `src/select/select.ts`: the sub-message for a value, with the
 * mandatory `other` sub-message as the fallback.
 */
module Selection {
  /** The sub-message for `val` when there is one, else the `other` sub-message. */
  function Select(val: string, messages: map<string, string>): (m: string)
    requires "other" in messages
    ensures val in messages ==> m == messages[val]
    ensures val !in messages ==> m == messages["other"]
    ensures m in messages.Values
  {
    messages[if val in messages then val else "other"]
  }

  /** Selecting an absent value is selecting `other`. */
  lemma FallbackIsOther(val: string, messages: map<string, string>)
    requires "other" in messages && val !in messages
    ensures Select(val, messages) == Select("other", messages)
  {
  }

  /** Adding a sub-message for one value changes the selection of that value only. */
  lemma AddingSubMessage(val: string, m: string, other: string, messages: map<string, string>)
    requires "other" in messages && val != "other"
    ensures Select(val, messages[val := m]) == m
    ensures other != val ==> Select(other, messages[val := m]) == Select(other, messages)
  {
  }
}
