/**
 * The request handlers of the HTTP server over the session store. Routing, status
 * codes, JSON bodies and the catch-all error responses are reduced to `Response`;
 * the clock and the random draws of the default answer are parameters.
 */
module Server {
  import opened Wrappers
  import opened JsString
  import opened MockData

  /** What a handler answers: a JSON body, a 400 or a 404. */
  datatype Response<T> = Ok(value: T) | BadRequest | NotFound

  // ---------------------------------------------------------------------------
  // GET /api/sessions

  /** One entry of the session listing. */
  datatype Summary = Summary(id: string, title: string, createdAt: int, messages: nat)

  function Summarize(s: Session): (r: Summary)
  {
    Summary(s.id, s.title, s.createdAt, |s.history|)
  }

  /** `getSessionsList().map(...)`: one summary per listed session, in listing order. */
  function Summaries(list: seq<Session>): (r: seq<Summary>)
    ensures |r| == |list|
    ensures forall i :: 0 <= i < |list| ==> r[i] == Summarize(list[i])
  {
    seq(|list|, i requires 0 <= i < |list| => Summarize(list[i]))
  }

  lemma SummariesMembers(list: seq<Session>)
    ensures forall s :: s in list ==> Summarize(s) in Summaries(list)
    ensures forall e :: e in Summaries(list) ==> exists s :: s in list && Summarize(s) == e
  {
    var r := Summaries(list);
    forall s | s in list ensures Summarize(s) in r {
      var i :| 0 <= i < |list| && list[i] == s;
      assert r[i] == Summarize(s);
    }
    forall e | e in r ensures exists s :: s in list && Summarize(s) == e {
      var i :| 0 <= i < |r| && r[i] == e;
      assert list[i] in list;
    }
  }

  /** The listing: one summary per stored session, newest first, each counting the
      messages of its session. */
  function ListSessions(store: SessionStore): (r: seq<Summary>)
    reads store
    requires store.Valid()
    ensures |r| == |store.sessions|
    ensures forall i, j :: 0 <= i < j < |r| ==> r[i].createdAt >= r[j].createdAt
    ensures forall id :: id in store.sessions ==> Summarize(store.sessions[id]) in r
    ensures forall e :: e in r ==> exists s :: s in store.sessions.Values && Summarize(s) == e
    ensures forall e :: e in r ==> e.id in store.sessions && Summarize(store.sessions[e.id]) == e
    ensures forall i :: 0 <= i < |r| ==> r[i].messages == |store.SessionsList()[i].history|
    ensures r == Summaries(store.SessionsList())
  {
    SummariesMembers(store.SessionsList());
    Summaries(store.SessionsList())
  }

  // ---------------------------------------------------------------------------
  // GET /api/new-chat and GET /api/session/:id

  /** The id and title of a newly created session. */
  method NewChat(store: SessionStore, id: string, now: int) returns (r: (string, string))
    requires store.Valid()
    modifies store
    ensures store.Valid()
    ensures r == (id, PlaceholderTitle(id))
    ensures store.sessions == old(store.sessions)[id := Session(id, PlaceholderTitle(id), now, [])]
    ensures store.order == if id in old(store.sessions) then old(store.order) else old(store.order) + [id]
    ensures store.saved == store.sessions
  {
    var s := store.CreateNewSession(id, now);
    r := (s.id, s.title);
  }

  /** The full session, or 404. */
  function FetchSession(store: SessionStore, id: string): (r: Response<Session>)
    reads store
    ensures !r.BadRequest?
    ensures r.NotFound? <==> id !in store.sessions
    ensures r.Ok? ==> r.value == store.sessions[id]
    ensures store.Valid() && r.Ok? ==> r.value.id == id
  {
    match store.GetSession(id)
    case None => NotFound
    case Some(s) => Ok(s)
  }

  // ---------------------------------------------------------------------------
  // POST /api/chat/:id

  /** The question passes `!question || !question.toString().trim()`. */
  predicate QuestionGiven(question: Option<string>)
  {
    question.Some? && Trim(question.value) != []
  }

  /** A question is accepted exactly when it is present and holds a non-whitespace character. */
  lemma QuestionGivenIff(question: Option<string>)
    ensures QuestionGiven(question) <==>
      question.Some? && exists i :: 0 <= i < |question.value| && !IsWhitespace(question.value[i])
  {
    if question.Some? {
      TrimSpec(question.value);
    }
  }

  /** The reply of the canned responder. */
  datatype Reply = Reply(text: string, table: Table)

  const SalesTable: Table := Table(
    ["Month", "Revenue", "Growth%"],
    [["Jan", "12,000", "5%"], ["Feb", "15,000", "25%"], ["Mar", "18,000", "20%"]])

  const UsersTable: Table := Table(
    ["Platform", "Active Users", "Change%"],
    [["Web", "8,400", "2%"], ["iOS", "3,200", "10%"], ["Android", "5,600", "-1%"]])

  /** `n.toString()` for a natural number. */
  function Decimal(n: nat): (r: string)
    ensures r != []
  {
    var digit := ('0' as int + n % 10) as char;
    if n < 10 then [digit] else Decimal(n / 10) + [digit]
  }

  /** A decimal numeral is made of digits only, and a draw below 10000 has at most four. */
  lemma {:induction false} DecimalDigits(n: nat)
    ensures forall i :: 0 <= i < |Decimal(n)| ==> IsAsciiDigit(Decimal(n)[i])
    ensures n < 10 ==> |Decimal(n)| == 1
    ensures n < 100 ==> |Decimal(n)| <= 2
    ensures n < 1000 ==> |Decimal(n)| <= 3
    ensures n < 10000 ==> |Decimal(n)| <= 4
  {
    if n >= 10 {
      DecimalDigits(n / 10);
    }
  }

  /** The default table; `drawA` and `drawB` stand for `Math.floor(Math.random() * 10000)`. */
  function DefaultTable(drawA: nat, drawB: nat): (t: Table)
  {
    Table(
      ["Item", "Value", "Notes"],
      [["Metric A", Decimal(drawA), "auto-generated"], ["Metric B", Decimal(drawB), "auto-generated"]])
  }

  predicate AsksSales(lower: string)
  {
    Contains(lower, "sales") || Contains(lower, "revenue")
  }

  predicate AsksUsers(lower: string)
  {
    Contains(lower, "users") || Contains(lower, "active")
  }

  /** The keyword responder: sales keywords first, then user keywords, then the default. */
  function Respond(question: string, drawA: nat, drawB: nat): (r: Reply)
  {
    var lower := ToLower(question);
    if AsksSales(lower) then
      Reply("Mock monthly sales summary for your query: \"" + question + "\"", SalesTable)
    else if AsksUsers(lower) then
      Reply("Mock active users summary for: \"" + question + "\"", UsersTable)
    else
      Reply("Mock answer for: \"" + question + "\". (Default structured response)", DefaultTable(drawA, drawB))
  }

  /** Three headings, and three cells in every row. */
  predicate WellFormedTable(t: Table)
  {
    |t.columns| == 3 && forall k :: 0 <= k < |t.rows| ==> |t.rows[k]| == 3
  }

  /** Every responder table has three headings, three cells per row, and two or three rows. */
  lemma ResponderTablesWellFormed(question: string, drawA: nat, drawB: nat)
    ensures WellFormedTable(Respond(question, drawA, drawB).table)
    ensures |Respond(question, drawA, drawB).table.rows| in {2, 3}
  {
  }

  /** With draws in the range of `Math.floor(Math.random() * 10000)`, the value cells of
      the default table are numerals of one to four digits. */
  lemma DefaultTableNumbers(drawA: nat, drawB: nat)
    requires drawA < 10000 && drawB < 10000
    ensures forall k :: 0 <= k < |DefaultTable(drawA, drawB).rows| ==>
      var cell := DefaultTable(drawA, drawB).rows[k][1];
      && 1 <= |cell| <= 4
      && forall i :: 0 <= i < |cell| ==> IsAsciiDigit(cell[i])
  {
    DecimalDigits(drawA);
    DecimalDigits(drawB);
  }

  /** Every reply text quotes the question verbatim, right after an opening quote. */
  lemma ReplyQuotesQuestion(question: string, drawA: nat, drawB: nat)
    ensures Contains(Respond(question, drawA, drawB).text, "\"" + question)
  {
    var text := Respond(question, drawA, drawB).text;
    var lower := ToLower(question);
    var head := if AsksSales(lower) then "Mock monthly sales summary for your query: "
                else if AsksUsers(lower) then "Mock active users summary for: "
                else "Mock answer for: ";
    assert text[|head|..|head| + 1 + |question|] == "\"" + question;
    ContainsAt(text, "\"" + question, |head|);
  }

  /** Which table answers which question: the choice looks only at the lower-cased
      question, and a sales keyword wins over a user keyword. */
  lemma ResponderPriority(question: string, drawA: nat, drawB: nat)
    ensures AsksSales(ToLower(question)) ==> Respond(question, drawA, drawB).table == SalesTable
    ensures !AsksSales(ToLower(question)) && AsksUsers(ToLower(question)) ==> Respond(question, drawA, drawB).table == UsersTable
    ensures !AsksSales(ToLower(question)) && !AsksUsers(ToLower(question)) ==> Respond(question, drawA, drawB).table == DefaultTable(drawA, drawB)
    ensures SalesTable != UsersTable && SalesTable != DefaultTable(drawA, drawB) && UsersTable != DefaultTable(drawA, drawB)
  {
    assert SalesTable.columns[0] != UsersTable.columns[0];
    assert SalesTable.columns[0] != DefaultTable(drawA, drawB).columns[0];
    assert UsersTable.columns[0] != DefaultTable(drawA, drawB).columns[0];
  }

  /** Asking the lower-cased question gets the same table as asking the question. */
  lemma ResponderLowerCased(question: string, drawA: nat, drawB: nat)
    ensures Respond(ToLower(question), drawA, drawB).table == Respond(question, drawA, drawB).table
  {
    ToLowerIdempotent(question);
    ResponderIgnoresCase(ToLower(question), question, drawA, drawB);
  }

  /** Questions that differ only in the case of ASCII letters get the same table. */
  lemma ResponderIgnoresCase(q1: string, q2: string, drawA: nat, drawB: nat)
    requires ToLower(q1) == ToLower(q2)
    ensures Respond(q1, drawA, drawB).table == Respond(q2, drawA, drawB).table
  {
  }

  /** A question mentioning both "Revenue" and "ACTIVE" gets the sales table. */
  lemma SalesWinsOverUsers(question: string, drawA: nat, drawB: nat)
    requires question == "Revenue of ACTIVE"
    ensures Contains(ToLower(question), "active")
    ensures Respond(question, drawA, drawB).table == SalesTable
  {
    var lower := ToLower(question);
    assert lower[..7] == "revenue";
    assert lower[11..17] == "active";
    ContainsAt(lower, "revenue", 0);
    ContainsAt(lower, "active", 11);
  }

  /** POST /api/chat/:id with the question from the body (None when missing), the two
      clock readings and the two random draws as parameters. */
  method Chat(store: SessionStore, id: string, question: Option<string>, userTime: int, replyTime: int, drawA: nat, drawB: nat)
    returns (r: Response<Message>)
    requires store.Valid()
    modifies store
    ensures store.Valid() && store.order == old(store.order)
    ensures !QuestionGiven(question) ==>
      r == BadRequest && store.sessions == old(store.sessions) && store.saved == old(store.saved)
    ensures QuestionGiven(question) && id !in old(store.sessions) ==>
      r == NotFound && store.sessions == old(store.sessions) && store.saved == old(store.saved)
    ensures QuestionGiven(question) && id in old(store.sessions) ==>
      var q := question.value;
      var s := old(store.sessions)[id];
      var reply := Respond(q, drawA, drawB);
      var answer := Message(Assistant, reply.text, replyTime, Some(reply.table), None);
      && r == Ok(answer)
      && store.sessions == old(store.sessions)[id := s.(title := Retitle(s.title, q),
                                                        history := s.history + [Message(User, q, userTime, None, None), answer])]
      && store.saved == store.sessions
  {
    if !QuestionGiven(question) {
      return BadRequest;
    }
    var q := question.value;
    r := Exchange(store, id, q, userTime, Respond(q, drawA, drawB), replyTime);
  }

  /** The store calls of a chat request with a valid question: record the question,
      then append the answer. */
  method Exchange(store: SessionStore, id: string, q: string, userTime: int, reply: Reply, replyTime: int)
    returns (r: Response<Message>)
    requires store.Valid()
    modifies store
    ensures store.Valid() && store.order == old(store.order)
    ensures id !in old(store.sessions) ==>
      r == NotFound && store.sessions == old(store.sessions) && store.saved == old(store.saved)
    ensures id in old(store.sessions) ==>
      var s := old(store.sessions)[id];
      var answer := Message(Assistant, reply.text, replyTime, Some(reply.table), None);
      && r == Ok(answer)
      && store.sessions == old(store.sessions)[id := s.(title := Retitle(s.title, q),
                                                        history := s.history + [Message(User, q, userTime, None, None), answer])]
      && store.saved == store.sessions
  {
    var found := RecordQuestion(store, id, q, userTime);
    if !found {
      return NotFound;
    }
    ghost var s := old(store.sessions)[id];
    ghost var question := Message(User, q, userTime, None, None);
    var answer := store.AddAssistantMessage(id, reply.text, Some(reply.table), replyTime);
    assert s.history + [question] + [answer.value] == s.history + [question, answer.value];
    r := Ok(answer.value);
  }

  /** `addUserMessage` followed by `setTitleIfEmpty`: the question is appended and the
      title follows the renaming rule. */
  method RecordQuestion(store: SessionStore, id: string, q: string, userTime: int) returns (found: bool)
    requires store.Valid()
    modifies store
    ensures store.Valid() && store.order == old(store.order)
    ensures found <==> id in old(store.sessions)
    ensures !found ==> store.sessions == old(store.sessions) && store.saved == old(store.saved)
    ensures found ==>
      var s := old(store.sessions)[id];
      && store.sessions == old(store.sessions)[id := s.(title := Retitle(s.title, q),
                                                        history := s.history + [Message(User, q, userTime, None, None)])]
      && store.saved == store.sessions
  {
    var user := store.AddUserMessage(id, q, userTime);
    if user.None? {
      return false;
    }
    ghost var s := old(store.sessions)[id];
    assert store.sessions[id] == s.(history := s.history + [user.value]);
    store.SetTitleIfEmpty(id, q);
    found := true;
  }

  // ---------------------------------------------------------------------------
  // POST /api/feedback/:sessionId/:messageIndex

  /** `feedback === 'like'` or `feedback === 'dislike'`; anything else, null and a
      missing value included, is refused. */
  function ParseFeedback(body: Option<string>): (r: Option<Feedback>)
    ensures r == Some(Like) <==> body == Some("like")
    ensures r == Some(Dislike) <==> body == Some("dislike")
  {
    if body == Some("like") then Some(Like)
    else if body == Some("dislike") then Some(Dislike)
    else None
  }

  /** The parsed index (None for NaN) addresses a message of a history of length `n`. */
  predicate IndexInRange(index: Option<int>, n: nat)
  {
    index.Some? && 0 <= index.value < n
  }

  /** The session after `history[i].feedback = fb`. */
  function WithFeedback(s: Session, i: nat, fb: Feedback): (r: Session)
    requires i < |s.history|
  {
    s.(history := s.history[i := s.history[i].(feedback := Some(fb))])
  }

  /** Setting feedback changes only the feedback of the addressed message, whatever its role. */
  lemma WithFeedbackSpec(s: Session, i: nat, fb: Feedback)
    requires i < |s.history|
    ensures |WithFeedback(s, i, fb).history| == |s.history|
    ensures WithFeedback(s, i, fb).history[i].feedback == Some(fb)
    ensures WithFeedback(s, i, fb).history[i].(feedback := s.history[i].feedback) == s.history[i]
    ensures forall j :: 0 <= j < |s.history| && j != i ==> WithFeedback(s, i, fb).history[j] == s.history[j]
    ensures WithFeedback(s, i, fb).(history := s.history) == s
  {
  }

  /** A second feedback on the same message replaces the first. */
  lemma FeedbackOverwrites(s: Session, i: nat, first: Feedback, second: Feedback)
    requires i < |s.history|
    ensures WithFeedback(WithFeedback(s, i, first), i, second) == WithFeedback(s, i, second)
  {
  }

  /** POST /api/feedback: the value is checked first, then the session, then the index;
      the store is updated in memory only (the handler does not call `save`). */
  method PostFeedback(store: SessionStore, id: string, body: Option<string>, index: Option<int>)
    returns (r: Response<Message>)
    requires store.Valid()
    modifies store
    ensures store.Valid() && store.order == old(store.order) && store.saved == old(store.saved)
    ensures ParseFeedback(body).None? ==> r == BadRequest && store.sessions == old(store.sessions)
    ensures ParseFeedback(body).Some? && id !in old(store.sessions) ==>
      r == NotFound && store.sessions == old(store.sessions)
    ensures ParseFeedback(body).Some? && id in old(store.sessions)
            && !IndexInRange(index, |old(store.sessions)[id].history|) ==>
      r == BadRequest && store.sessions == old(store.sessions)
    ensures ParseFeedback(body).Some? && id in old(store.sessions)
            && IndexInRange(index, |old(store.sessions)[id].history|) ==>
      var updated := WithFeedback(old(store.sessions)[id], index.value, ParseFeedback(body).value);
      && store.sessions == old(store.sessions)[id := updated]
      && r == Ok(updated.history[index.value])
  {
    var fb := ParseFeedback(body);
    if fb.None? {
      return BadRequest;
    }
    var session := store.GetSession(id);
    if session.None? {
      return NotFound;
    }
    var s := session.value;
    if index.None? || index.value < 0 || index.value >= |s.history| {
      return BadRequest;
    }
    var updated := WithFeedback(s, index.value, fb.value);
    store.sessions := store.sessions[id := updated];
    r := Ok(updated.history[index.value]);
  }
}
