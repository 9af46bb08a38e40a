/** The like/dislike buttons under an assistant answer. */
module AnswerFeedback {
  import opened Wrappers

  const LikeType := "like"
  const DislikeType := "dislike"

  /** The two values a button passes to the click handler. */
  predicate IsButtonType(t: string)
  {
    t == LikeType || t == DislikeType
  }

  /** `handleClick(type)` with the message's current `feedback` (None for null or
      undefined) and whether an `onFeedback` callback was given. The result is None when
      the callback is not called, and otherwise the value handed to it (None for null). */
  function HandleClick(current: Option<string>, clicked: string, hasCallback: bool): (r: Option<Option<string>>)
    requires IsButtonType(clicked)
    ensures r.None? <==> !hasCallback
    ensures r.Some? ==> (r.value.None? <==> current == Some(clicked))
    ensures r.Some? && r.value.Some? ==> r.value.value == clicked
    ensures r.Some? ==> r.value == None || r.value == Some(LikeType) || r.value == Some(DislikeType)
  {
    if !hasCallback then None
    else if current == Some(clicked) then Some(None)
    else Some(Some(clicked))
  }

  /** Had the sent value been stored, a click would leave that type selected exactly
      when it was not selected before. */
  lemma ClickToggles(current: Option<string>, clicked: string)
    requires IsButtonType(clicked)
    ensures HandleClick(current, clicked, true).value == Some(clicked) <==> current != Some(clicked)
  {
  }

  /** Two clicks on the same button give back the starting value when that value was
      unset or the clicked type; from the other type they end unset instead. */
  lemma ClickTwice(current: Option<string>, clicked: string)
    requires IsButtonType(clicked)
    ensures var once := HandleClick(current, clicked, true).value;
            var twice := HandleClick(once, clicked, true).value;
            && (current == None || current == Some(clicked) ==> twice == current)
            && (current.Some? && current != Some(clicked) ==> twice == None)
  {
  }
}
