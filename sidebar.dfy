/** The sidebar's session label: the title, or a placeholder made from the id, trimmed
    and cut to forty characters. */
module Sidebar {
  import opened Wrappers
  import opened JsString

  const UntitledLabel := "Untitled chat"
  const LabelLimit := 40
  const Ellipsis := '\U{2026}'

  /** A JavaScript value used as a condition: a string is truthy when non-empty;
      null and undefined are falsy. */
  predicate Truthy(v: Option<string>)
  {
    v.Some? && v.value != []
  }

  /** `s.id || s.sessionId || ''`. */
  function IdText(id: Option<string>, sessionId: Option<string>): (r: string)
  {
    if Truthy(id) then id.value else if Truthy(sessionId) then sessionId.value else ""
  }

  /** `` s.title || `Session ${...slice(0, 6)}` || 'Untitled chat' ``. */
  function Base(title: Option<string>, id: Option<string>, sessionId: Option<string>): (r: string)
  {
    if Truthy(title) then title.value
    else
      var placeholder := "Session " + Take(IdText(id, sessionId), 6);
      if placeholder != [] then placeholder else UntitledLabel
  }

  /** `getSessionLabel(s)` for a session with the given title, id and sessionId. */
  function SessionLabel(title: Option<string>, id: Option<string>, sessionId: Option<string>): (r: string)
    ensures 1 <= |r| <= LabelLimit + 1
  {
    var trimmed := Trim(Base(title, id, sessionId));
    if trimmed == [] then UntitledLabel
    else if |trimmed| > LabelLimit then trimmed[..LabelLimit] + [Ellipsis]
    else trimmed
  }

  /** A label longer than forty characters is cut to the first forty characters of the
      trimmed base and marked with an ellipsis; otherwise no ellipsis is added. */
  lemma LabelTruncates(title: Option<string>, id: Option<string>, sessionId: Option<string>)
    ensures var t := Trim(Base(title, id, sessionId));
            var r := SessionLabel(title, id, sessionId);
            && (|t| > LabelLimit <==> |r| == LabelLimit + 1)
            && (|t| > LabelLimit ==> r[..LabelLimit] == t[..LabelLimit] && r[LabelLimit] == Ellipsis)
  {
    var t := Trim(Base(title, id, sessionId));
    assert |UntitledLabel| < LabelLimit;
  }

  /** A truthy title that is not all whitespace is shown as its trimmed text: the label
      starts at the title's first non-whitespace character, runs over at most forty
      characters of it, and carries the ellipsis only when the trimmed title is longer. */
  lemma TitleLabel(title: Option<string>, id: Option<string>, sessionId: Option<string>)
    requires Truthy(title) && !AllWhitespace(title.value)
    ensures var s := title.value;
            var a := LeadingWhitespace(s);
            var r := SessionLabel(title, id, sessionId);
            && (|Trim(s)| <= LabelLimit ==> r == Trim(s) && r == s[a..a + |r|])
            && (|Trim(s)| > LabelLimit ==> a + LabelLimit <= |s| && r == s[a..a + LabelLimit] + [Ellipsis])
  {
    TrimSpec(title.value);
  }

  /** A truthy title made only of whitespace is shown as 'Untitled chat'. */
  lemma BlankTitleLabel(title: Option<string>, id: Option<string>, sessionId: Option<string>)
    requires Truthy(title) && AllWhitespace(title.value)
    ensures SessionLabel(title, id, sessionId) == UntitledLabel
  {
    TrimSpec(title.value);
  }

  /** Without a truthy title the label is the trimmed placeholder "Session " plus at most
      six characters of the id: it starts with "Session", so neither the 'Untitled chat'
      fallback of the `||` chain nor the empty-label branch is ever taken. */
  lemma MissingTitleLabel(title: Option<string>, id: Option<string>, sessionId: Option<string>)
    requires !Truthy(title)
    ensures var r := SessionLabel(title, id, sessionId);
            && r == Trim("Session " + Take(IdText(id, sessionId), 6))
            && StartsWith(r, "Session") && 7 <= |r| <= 14
            && r != UntitledLabel
  {
    var x := Take(IdText(id, sessionId), 6);
    assert "Session " + x == "Session" + (" " + x);
    assert NoWhitespace("Session");
    TrimKeepsPrefix("Session", " " + x);
    TrimPiece("Session " + x);
    var r := SessionLabel(title, id, sessionId);
    assert r[0] == 'S';
  }

  /** A title with no white space at either end is shown as it is, cut at forty characters. */
  lemma TrimmedTitleLabel(t: string, id: Option<string>, sessionId: Option<string>)
    requires t != [] && !IsWhitespace(t[0]) && !IsWhitespace(t[|t| - 1])
    ensures SessionLabel(Some(t), id, sessionId) == if |t| > LabelLimit then t[..LabelLimit] + [Ellipsis] else t
  {
    TrimUnchanged(t);
  }

  /** A label is a fixed point: used as a title, it comes back unchanged. */
  lemma LabelIdempotent(title: Option<string>, id: Option<string>, sessionId: Option<string>)
    ensures var r := SessionLabel(title, id, sessionId);
            SessionLabel(Some(r), id, sessionId) == r
  {
    var t := Trim(Base(title, id, sessionId));
    var r := SessionLabel(title, id, sessionId);
    TrimSpec(Base(title, id, sessionId));
    if t == [] {
      TrimmedTitleLabel(UntitledLabel, id, sessionId);
    } else if |t| > LabelLimit {
      assert r == t[..LabelLimit] + [Ellipsis];
      assert r[0] == t[0];
      TrimmedTitleLabel(r, id, sessionId);
      assert r[..LabelLimit] == t[..LabelLimit];
    } else {
      TrimmedTitleLabel(t, id, sessionId);
    }
  }
}
