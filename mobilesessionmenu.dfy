/** The mobile sessions menu labels sessions with the same rule as the sidebar; its
    `getSessionLabel` is a copy of the sidebar's, so it is modelled by that one function. */
module MobileSessionMenu {
  import opened Wrappers
  import opened JsString
  import Sidebar

  /** `getSessionLabel(s)` of the mobile menu. */
  function SessionLabel(title: Option<string>, id: Option<string>, sessionId: Option<string>): (r: string)
    ensures r == Sidebar.SessionLabel(title, id, sessionId)
    ensures 1 <= |r| <= Sidebar.LabelLimit + 1
  {
    Sidebar.SessionLabel(title, id, sessionId)
  }

  /** The menu shows 'Untitled chat' for a whitespace-only title and the trimmed
      "Session " placeholder, never 'Untitled chat', for a missing one. */
  lemma MenuFallbacks(title: Option<string>, id: Option<string>, sessionId: Option<string>)
    ensures Sidebar.Truthy(title) && AllWhitespace(title.value) ==>
            SessionLabel(title, id, sessionId) == Sidebar.UntitledLabel
    ensures !Sidebar.Truthy(title) ==>
            && SessionLabel(title, id, sessionId) == Trim("Session " + Take(Sidebar.IdText(id, sessionId), 6))
            && StartsWith(SessionLabel(title, id, sessionId), "Session")
  {
    if Sidebar.Truthy(title) && AllWhitespace(title.value) {
      Sidebar.BlankTitleLabel(title, id, sessionId);
    }
    if !Sidebar.Truthy(title) {
      Sidebar.MissingTitleLabel(title, id, sessionId);
    }
  }
}
