/** What the server makes of the values the feedback buttons send. */
module FeedbackFlow {
  import opened Wrappers
  import opened MockData
  import AnswerFeedback
  import Server

  /** The sent value travels as `{ feedback }` in the JSON body, so the server reads
      null (None here) or the button type as that string. Un-selecting sends null, which
      the server refuses with BadRequest before touching anything; every value a button
      does send the server accepts, as the matching feedback. So stored feedback can be
      switched between like and dislike but never cleared. */
  lemma SentFeedbackParses(current: Option<string>, clicked: string)
    requires AnswerFeedback.IsButtonType(clicked)
    ensures var sent := AnswerFeedback.HandleClick(current, clicked, true).value;
            && (current == Some(clicked) ==> Server.ParseFeedback(sent).None?)
            && (current != Some(clicked) ==>
                  Server.ParseFeedback(sent) == Some(if clicked == AnswerFeedback.LikeType then Like else Dislike))
  {
  }
}
