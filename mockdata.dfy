/**
 * The chat-session store of the backend: the module-level map from session id to
 * session, the session and message records it holds, the title policy, the
 * newest-first listing and the operations that create, reset, read and extend it.
 * Identifiers and clock readings are parameters; the JSON file behind `load` and
 * `save` is abstracted to the ghost field `saved`.
 */
module MockData {
  import opened Wrappers
  import opened JsString

  datatype Role = User | Assistant

  datatype Feedback = Like | Dislike

  /** A structured answer: column headings and rows of cells. */
  datatype Table = Table(columns: seq<string>, rows: seq<seq<string>>)

  /** One history entry. `table` and `feedback` are None on a user message (whose record
      has no such keys) and on a fresh assistant message (whose record holds null). */
  datatype Message = Message(role: Role, text: string, timestamp: int, table: Option<Table>, feedback: Option<Feedback>)

  /** A conversation; `createdAt` is the creation time as a number. */
  datatype Session = Session(id: string, title: string, createdAt: int, history: seq<Message>)

  const PlaceholderPrefix: string := "Session "

  /** The title a new session starts with: the prefix followed by the first 8 characters of its id. */
  function PlaceholderTitle(id: string): (t: string)
    ensures StartsWith(t, PlaceholderPrefix)
    ensures |t| == 8 + (if |id| < 8 then |id| else 8)
    ensures t[8..] == id[..|t| - 8]
  {
    PlaceholderPrefix + Take(id, 8)
  }

  // ---------------------------------------------------------------------------
  // Title derivation from the first question

  /** The characters the title filter `/[^a-zA-Z0-9\s]/g` does not remove. */
  predicate KeptByTitleFilter(c: char)
  {
    IsAsciiAlnum(c) || IsWhitespace(c)
  }

  /** `replace(/[^a-zA-Z0-9\s]/g, '')`. */
  function StripSymbols(s: string): (r: string)
  {
    if s == [] then []
    else (if KeptByTitleFilter(s[0]) then [s[0]] else []) + StripSymbols(s[1..])
  }

  /** The filter keeps exactly the letters, digits and whitespace of its input, and every
      letter and digit of it. */
  lemma {:induction false} StripSymbolsSpec(s: string)
    ensures |StripSymbols(s)| <= |s|
    ensures forall i :: 0 <= i < |StripSymbols(s)| ==> KeptByTitleFilter(StripSymbols(s)[i]) && StripSymbols(s)[i] in s
    ensures forall i :: 0 <= i < |s| && IsAsciiAlnum(s[i]) ==> s[i] in StripSymbols(s)
  {
    if s != [] {
      StripSymbolsSpec(s[1..]);
      var head := if KeptByTitleFilter(s[0]) then [s[0]] else [];
      assert StripSymbols(s) == head + StripSymbols(s[1..]);
      assert s == [s[0]] + s[1..];
      forall i | 0 <= i < |s| && IsAsciiAlnum(s[i]) ensures s[i] in StripSymbols(s) {
        if i > 0 {
          assert s[i] == s[1..][i - 1];
        }
      }
    }
  }

  /** The filter deletes characters one by one and does nothing else: it works on the
      two parts of a concatenation separately, and keeps or drops a single character
      according to the class `[a-zA-Z0-9\s]`. */
  lemma {:induction false} StripSymbolsDeletes(a: string, b: string)
    ensures StripSymbols(a + b) == StripSymbols(a) + StripSymbols(b)
    ensures |a| == 1 ==> StripSymbols(a) == if KeptByTitleFilter(a[0]) then a else []
  {
    if a == [] {
      assert a + b == b;
    } else {
      var head := if KeptByTitleFilter(a[0]) then [a[0]] else [];
      assert (a + b)[0] == a[0];
      assert (a + b)[1..] == a[1..] + b;
      StripSymbolsDeletes(a[1..], b);
      assert StripSymbols(a + b) == head + (StripSymbols(a[1..]) + StripSymbols(b));
    }
    if |a| == 1 {
      assert a[1..] == [];
    }
  }

  const TitleWordLimit: nat := 6
  const TitleLengthLimit: nat := 30
  const TitleEllipsis: string := "..."

  /** `split(/\s+/).slice(0, 6)`. */
  function FirstWords(text: string): (r: seq<string>)
  {
    var words := Split(text);
    words[..if |words| < TitleWordLimit then |words| else TitleWordLimit]
  }

  /** `split(/\s+/).slice(0, 6).join(' ').replace(/[^a-zA-Z0-9\s]/g, '').trim()`. */
  function CleanTitle(text: string): (r: string)
  {
    Trim(StripSymbols(Join(FirstWords(text), " ")))
  }

  /** The title derived from a question, or None when nothing is left after cleaning. */
  function DeriveTitle(text: string): (r: Option<string>)
  {
    var t := CleanTitle(text);
    if t == [] then None
    else Some(if |t| > TitleLengthLimit then t[..TitleLengthLimit] + TitleEllipsis else t)
  }

  /** Only ASCII letters, ASCII digits and plain spaces. */
  predicate TitleText(t: string)
  {
    forall i :: 0 <= i < |t| ==> IsAsciiAlnum(t[i]) || t[i] == ' '
  }

  /** The shape of every derived title: non-empty, not starting with a space, and either
      at most 30 title characters or exactly 30 of them followed by "...". */
  predicate TitleShaped(t: string)
  {
    && t != []
    && t[0] != ' '
    && |t| <= TitleLengthLimit + |TitleEllipsis|
    && ((|t| <= TitleLengthLimit && TitleText(t))
        || (|t| == TitleLengthLimit + |TitleEllipsis| && TitleText(t[..TitleLengthLimit]) && t[TitleLengthLimit..] == TitleEllipsis))
  }

  /** The title of a session after `setTitleIfEmpty(id, text)`: replaced only while it
      still starts with the placeholder prefix and only by a non-empty derivation. */
  function Retitle(title: string, text: string): (r: string)
  {
    if StartsWith(title, PlaceholderPrefix) && DeriveTitle(text).Some? then DeriveTitle(text).value else title
  }

  /** The filter leaves a string of letters, digits and whitespace as it is. */
  lemma {:induction false} StripSymbolsKeeps(s: string)
    requires forall i :: 0 <= i < |s| ==> KeptByTitleFilter(s[i])
    ensures StripSymbols(s) == s
  {
    if s != [] {
      StripSymbolsKeeps(s[1..]);
      assert s == [s[0]] + s[1..];
    }
  }

  /** A two-word question made of letters and digits becomes the title as written. */
  lemma TwoWordTitle(w1: string, w2: string)
    requires w1 != [] && w2 != []
    requires forall i :: 0 <= i < |w1| ==> IsAsciiAlnum(w1[i])
    requires forall i :: 0 <= i < |w2| ==> IsAsciiAlnum(w2[i])
    requires |w1| + 1 + |w2| <= TitleLengthLimit
    ensures DeriveTitle(w1 + " " + w2) == Some(w1 + " " + w2)
  {
    var s := w1 + " " + w2;
    TwoWordsJoined(w1, w2);
    var joined := Join(FirstWords(s), " ");
    assert joined == s;
    TitleWordsKept(w1, w2);
    StripSymbolsKeeps(s);
    assert StripSymbols(joined) == s;
    assert s[0] == w1[0] && s[|s| - 1] == w2[|w2| - 1];
    AlnumIsNotWhitespace(w1[0]);
    AlnumIsNotWhitespace(w2[|w2| - 1]);
    TrimUnchanged(s);
    assert CleanTitle(s) == Trim(StripSymbols(joined));
  }

  lemma TwoWordsJoined(w1: string, w2: string)
    requires w2 != []
    requires forall i :: 0 <= i < |w1| ==> IsAsciiAlnum(w1[i])
    requires forall i :: 0 <= i < |w2| ==> IsAsciiAlnum(w2[i])
    ensures Join(FirstWords(w1 + " " + w2), " ") == w1 + " " + w2
  {
    assert NoWhitespace(w1) && NoWhitespace(w2);
    SplitTwoWords(w1, w2);
    assert FirstWords(w1 + " " + w2) == [w1, w2];
  }

  lemma TitleWordsKept(w1: string, w2: string)
    requires forall i :: 0 <= i < |w1| ==> IsAsciiAlnum(w1[i])
    requires forall i :: 0 <= i < |w2| ==> IsAsciiAlnum(w2[i])
    ensures forall i :: 0 <= i < |w1 + " " + w2| ==> KeptByTitleFilter((w1 + " " + w2)[i])
  {
    var s := w1 + " " + w2;
    forall i | 0 <= i < |s| ensures KeptByTitleFilter(s[i]) {
      if i < |w1| { assert s[i] == w1[i]; }
      else if i > |w1| { assert s[i] == w2[i - |w1| - 1]; }
    }
  }

  /** The example in which the first question is "show sales": the placeholder of a
      fresh session is replaced by "show sales". */
  lemma ShowSalesTitle(id: string)
    ensures Retitle(PlaceholderTitle(id), "show sales") == "show sales"
  {
    assert "show sales" == "show" + " " + "sales";
    TwoWordTitle("show", "sales");
  }

  /** A question "Session <word>" derives the title "Session <word>". */
  lemma PlaceholderLikeTitle(w: string)
    requires w != [] && |w| <= TitleLengthLimit - |PlaceholderPrefix|
    requires forall i :: 0 <= i < |w| ==> IsAsciiAlnum(w[i])
    ensures DeriveTitle(PlaceholderPrefix + w) == Some(PlaceholderPrefix + w)
  {
    var sessionWord := "Session";
    assert forall i :: 0 <= i < |sessionWord| ==> IsAsciiAlnum(sessionWord[i]);
    assert PlaceholderPrefix + w == sessionWord + " " + w;
    TwoWordTitle(sessionWord, w);
  }

  /** Renaming is not one-shot: a question such as "Session 2024" renames the placeholder
      to a title that still starts with "Session ", and the next question that yields a
      title renames it again. */
  lemma RetitleRepeats(id: string, w: string, next: string)
    requires w != [] && |w| <= TitleLengthLimit - |PlaceholderPrefix|
    requires forall i :: 0 <= i < |w| ==> IsAsciiAlnum(w[i])
    requires DeriveTitle(next).Some?
    ensures Retitle(PlaceholderTitle(id), PlaceholderPrefix + w) == PlaceholderPrefix + w
    ensures Retitle(PlaceholderPrefix + w, next) == DeriveTitle(next).value
  {
    PlaceholderLikeTitle(w);
    var t := PlaceholderPrefix + w;
    assert t[..|PlaceholderPrefix|] == PlaceholderPrefix;
    assert StartsWith(t, PlaceholderPrefix);
  }

  /** What the cleaning steps produce: ASCII letters, digits and spaces, trimmed. */
  lemma CleanTitleChars(text: string)
    ensures TitleText(CleanTitle(text))
    ensures CleanTitle(text) != [] ==> CleanTitle(text)[0] != ' '
  {
    var words := FirstWords(text);
    var joined := Join(words, " ");
    var stripped := StripSymbols(joined);
    StripSymbolsSpec(joined);
    SplitNoWhitespace(text);
    JoinedBySpace(words);
    TrimSpec(stripped);
    forall i | 0 <= i < |CleanTitle(text)|
      ensures IsAsciiAlnum(CleanTitle(text)[i]) || CleanTitle(text)[i] == ' '
    {
      var c := CleanTitle(text)[i];
      assert c in stripped;
      var j :| 0 <= j < |stripped| && stripped[j] == c;
      assert c in joined;
    }
  }

  /** Every derived title has the shape `TitleShaped` describes. */
  lemma DerivedTitleShape(text: string)
    ensures DeriveTitle(text).Some? ==> TitleShaped(DeriveTitle(text).value)
  {
    CleanTitleChars(text);
    var t := CleanTitle(text);
    if t != [] && |t| > TitleLengthLimit {
      var r := t[..TitleLengthLimit] + TitleEllipsis;
      assert r[..TitleLengthLimit] == t[..TitleLengthLimit];
      assert r[TitleLengthLimit..] == TitleEllipsis;
    }
  }

  /** A letter or digit among the first six words survives cleaning, so a title is derived. */
  lemma AlnumWordGivesTitle(text: string, k: nat, j: nat)
    requires k < |FirstWords(text)| && j < |FirstWords(text)[k]| && IsAsciiAlnum(FirstWords(text)[k][j])
    ensures DeriveTitle(text).Some?
  {
    var words := FirstWords(text);
    var joined := Join(words, " ");
    var stripped := StripSymbols(joined);
    var c := words[k][j];
    JoinKeepsChars(words, k, j);
    StripSymbolsSpec(joined);
    var i :| 0 <= i < |joined| && joined[i] == c;
    assert c in stripped;
    var i' :| 0 <= i' < |stripped| && stripped[i'] == c;
    AlnumIsNotWhitespace(c);
    TrimSpec(stripped);
  }

  /** A derived title comes from a letter or digit among the first six words. */
  lemma TitleHasAlnumWord(text: string)
    requires DeriveTitle(text).Some?
    ensures exists k, j :: 0 <= k < |FirstWords(text)| && 0 <= j < |FirstWords(text)[k]| && IsAsciiAlnum(FirstWords(text)[k][j])
  {
    var words := FirstWords(text);
    var joined := Join(words, " ");
    var stripped := StripSymbols(joined);
    TrimSpec(stripped);
    var i :| 0 <= i < |stripped| && !IsWhitespace(stripped[i]);
    StripSymbolsSpec(joined);
    assert IsAsciiAlnum(stripped[i]);
    assert stripped[i] in joined;
    var i' :| 0 <= i' < |joined| && joined[i'] == stripped[i];
    JoinedChar(words, i');
  }

  /** A question yields a title exactly when one of its first six words holds an ASCII
      letter or digit; otherwise the placeholder stays. */
  lemma DerivedTitleExists(text: string)
    ensures DeriveTitle(text).Some? <==>
      exists k, j :: 0 <= k < |FirstWords(text)| && 0 <= j < |FirstWords(text)[k]| && IsAsciiAlnum(FirstWords(text)[k][j])
  {
    var words := FirstWords(text);
    if exists k, j :: 0 <= k < |words| && 0 <= j < |words[k]| && IsAsciiAlnum(words[k][j]) {
      var k, j :| 0 <= k < |words| && 0 <= j < |words[k]| && IsAsciiAlnum(words[k][j]);
      AlnumWordGivesTitle(text, k, j);
    }
    if DeriveTitle(text).Some? {
      TitleHasAlnumWord(text);
    }
  }

  /** `setTitleIfEmpty` leaves a title alone unless it starts with the placeholder prefix
      and a title can be derived, and then replaces it by the derived title. */
  lemma RetitleSpec(title: string, text: string)
    ensures !StartsWith(title, PlaceholderPrefix) ==> Retitle(title, text) == title
    ensures DeriveTitle(text).None? ==> Retitle(title, text) == title
    ensures StartsWith(title, PlaceholderPrefix) && DeriveTitle(text).Some? ==>
      Retitle(title, text) == DeriveTitle(text).value
    ensures Retitle(title, text) != title ==>
      DeriveTitle(text).Some? && Retitle(title, text) == DeriveTitle(text).value && TitleShaped(Retitle(title, text))
  {
    DerivedTitleShape(text);
  }

  // ---------------------------------------------------------------------------
  // Newest-first listing

  /** Ordered by `createdAt`, newest first. */
  predicate NewestFirst(s: seq<Session>)
  {
    forall i, j :: 0 <= i < j < |s| ==> s[i].createdAt >= s[j].createdAt
  }

  /** The sessions of `s` created at time `t`, in the order of `s`. */
  function CreatedAt(s: seq<Session>, t: int): (r: seq<Session>)
  {
    if s == [] then []
    else (if s[0].createdAt == t then [s[0]] else []) + CreatedAt(s[1..], t)
  }

  /** Place `x` in front of the first session not newer than it. */
  function InsertNewest(x: Session, s: seq<Session>): (r: seq<Session>)
  {
    if s == [] || x.createdAt >= s[0].createdAt then [x] + s
    else [s[0]] + InsertNewest(x, s[1..])
  }

  /** `Array.prototype.sort` with the comparator `(a, b) => b.createdAt - a.createdAt`,
      which is a stable sort. */
  function SortNewest(s: seq<Session>): (r: seq<Session>)
  {
    if s == [] then [] else InsertNewest(s[0], SortNewest(s[1..]))
  }

  /** A session no older than everything after it may go in front. */
  lemma ConsNewest(h: Session, rest: seq<Session>)
    requires NewestFirst(rest)
    requires forall i :: 0 <= i < |rest| ==> rest[i].createdAt <= h.createdAt
    ensures NewestFirst([h] + rest)
  {
    var r := [h] + rest;
    forall i, j | 0 <= i < j < |r| ensures r[i].createdAt >= r[j].createdAt {
      assert r[j] == rest[j - 1];
      if i > 0 {
        assert r[i] == rest[i - 1];
      }
    }
  }

  lemma {:induction false} InsertNewestPermutes(x: Session, s: seq<Session>)
    ensures multiset(InsertNewest(x, s)) == multiset(s) + multiset{x}
  {
    if !(s == [] || x.createdAt >= s[0].createdAt) {
      InsertNewestPermutes(x, s[1..]);
      assert s == [s[0]] + s[1..];
    }
  }

  lemma {:induction false} InsertNewestSorted(x: Session, s: seq<Session>)
    requires NewestFirst(s)
    ensures NewestFirst(InsertNewest(x, s))
  {
    if s == [] || x.createdAt >= s[0].createdAt {
      ConsNewest(x, s);
    } else {
      var rest := InsertNewest(x, s[1..]);
      InsertNewestSorted(x, s[1..]);
      InsertNewestPermutes(x, s[1..]);
      forall i | 0 <= i < |rest| ensures rest[i].createdAt <= s[0].createdAt {
        assert rest[i] in multiset(rest);
        if rest[i] != x {
          assert rest[i] in s[1..];
        }
      }
      ConsNewest(s[0], rest);
    }
  }

  lemma {:induction false} SortNewestSorted(s: seq<Session>)
    ensures NewestFirst(SortNewest(s))
  {
    if s != [] {
      SortNewestSorted(s[1..]);
      InsertNewestSorted(s[0], SortNewest(s[1..]));
    }
  }

  lemma {:induction false} SortNewestPermutes(s: seq<Session>)
    ensures multiset(SortNewest(s)) == multiset(s)
  {
    if s != [] {
      SortNewestPermutes(s[1..]);
      InsertNewestPermutes(s[0], SortNewest(s[1..]));
      assert s == [s[0]] + s[1..];
    }
  }

  /** The listing order is newest first and lists exactly the sessions it was given. */
  lemma SortNewestSpec(s: seq<Session>)
    ensures NewestFirst(SortNewest(s))
    ensures multiset(SortNewest(s)) == multiset(s)
    ensures |SortNewest(s)| == |s|
  {
    SortNewestSorted(s);
    SortNewestPermutes(s);
    assert |multiset(SortNewest(s))| == |SortNewest(s)|;
    assert |multiset(s)| == |s|;
  }

  /** Filtering a sequence that starts with `h`. */
  lemma CreatedAtCons(h: Session, rest: seq<Session>, t: int)
    ensures CreatedAt([h] + rest, t) == (if h.createdAt == t then [h] else []) + CreatedAt(rest, t)
  {
    assert ([h] + rest)[0] == h;
    assert ([h] + rest)[1..] == rest;
  }

  lemma {:induction false} InsertNewestStable(x: Session, s: seq<Session>, t: int)
    ensures CreatedAt(InsertNewest(x, s), t) == (if x.createdAt == t then [x] else []) + CreatedAt(s, t)
  {
    if s == [] || x.createdAt >= s[0].createdAt {
      CreatedAtCons(x, s, t);
    } else {
      var rest := InsertNewest(x, s[1..]);
      InsertNewestStable(x, s[1..], t);
      CreatedAtCons(s[0], rest, t);
      assert s == [s[0]] + s[1..];
      CreatedAtCons(s[0], s[1..], t);
    }
  }

  /** Sessions created at the same time keep their relative order. */
  lemma {:induction false} SortNewestStable(s: seq<Session>)
    ensures forall t :: CreatedAt(SortNewest(s), t) == CreatedAt(s, t)
  {
    if s != [] {
      SortNewestStable(s[1..]);
      forall t ensures CreatedAt(SortNewest(s), t) == CreatedAt(s, t) {
        InsertNewestStable(s[0], SortNewest(s[1..]), t);
      }
    }
  }

  /** Two sequences with the same multiset have the same members. */
  lemma SameMembers(a: seq<Session>, b: seq<Session>)
    requires multiset(a) == multiset(b)
    ensures forall y :: y in a <==> y in b
  {
    forall y ensures y in a <==> y in b {
      assert y in a <==> y in multiset(a);
      assert y in b <==> y in multiset(b);
    }
  }

  /** No key appears twice. */
  predicate Distinct(keys: seq<string>)
  {
    forall i, j :: 0 <= i < j < |keys| ==> keys[i] != keys[j]
  }

  /** The values of `m` listed in the order of `keys`, as `Object.values` lists them. */
  function InOrder(keys: seq<string>, m: map<string, Session>): (r: seq<Session>)
    requires forall k :: k in keys ==> k in m
    ensures |r| == |keys|
    ensures forall i :: 0 <= i < |keys| ==> r[i] == m[keys[i]]
  {
    seq(|keys|, i requires 0 <= i < |keys| => m[keys[i]])
  }

  lemma {:induction false} DistinctCardinality(keys: seq<string>)
    requires Distinct(keys)
    ensures |set k | k in keys| == |keys|
  {
    if keys != [] {
      DistinctCardinality(keys[1..]);
      assert (set k | k in keys) == (set k | k in keys[1..]) + {keys[0]};
      assert keys[0] !in keys[1..];
    }
  }

  /** Listing the values in key order lists each stored session once. */
  lemma InOrderCovers(keys: seq<string>, m: map<string, Session>)
    requires Distinct(keys)
    requires forall k :: k in m <==> k in keys
    ensures |InOrder(keys, m)| == |m|
    ensures forall id :: id in m ==> m[id] in InOrder(keys, m)
    ensures forall s :: s in InOrder(keys, m) ==> s in m.Values
  {
    DistinctCardinality(keys);
    assert m.Keys == set k | k in keys;
    var r := InOrder(keys, m);
    forall id | id in m ensures m[id] in r {
      var i :| 0 <= i < |keys| && keys[i] == id;
      assert r[i] == m[id];
    }
    forall s | s in r ensures s in m.Values {
      var i :| 0 <= i < |r| && r[i] == s;
      assert keys[i] in m;
    }
  }

  // ---------------------------------------------------------------------------
  // Appending to a history

  /** The map after `msg` is pushed onto the history of session `id`. */
  function Appended(m: map<string, Session>, id: string, msg: Message): (r: map<string, Session>)
    requires id in m
  {
    m[id := m[id].(history := m[id].history + [msg])]
  }

  /** A push grows the target history by exactly one, puts the message last, keeps the
      earlier messages, the title and every other session. */
  lemma AppendedSpec(m: map<string, Session>, id: string, msg: Message)
    requires id in m
    ensures Appended(m, id, msg).Keys == m.Keys
    ensures |Appended(m, id, msg)[id].history| == |m[id].history| + 1
    ensures Appended(m, id, msg)[id].history[|m[id].history|] == msg
    ensures Appended(m, id, msg)[id].history[..|m[id].history|] == m[id].history
    ensures Appended(m, id, msg)[id].(history := m[id].history) == m[id]
    ensures forall k :: k in m && k != id ==> Appended(m, id, msg)[k] == m[k]
  {
  }

  // ---------------------------------------------------------------------------
  // The store

  class SessionStore {
    /** The module-level `sessions` object. */
    var sessions: map<string, Session>
    /** The keys of `sessions` in insertion order, which is the order `Object.values` uses. */
    var order: seq<string>
    /** The state last written to (or read from) the backing file. */
    ghost var saved: map<string, Session>

    /** Every key is listed once in `order`, `order` lists exactly the keys, and every
        session is stored under its own id. */
    ghost predicate Valid()
      reads this
    {
      && Distinct(order)
      && (forall k :: k in sessions <==> k in order)
      && (forall k :: k in sessions ==> sessions[k].id == k)
    }

    /** `load()` when the file is missing or cannot be parsed: an empty store. */
    constructor ()
      ensures Valid()
      ensures sessions == map[] && order == [] && saved == map[]
    {
      sessions := map[];
      order := [];
      saved := map[];
    }

    /** The stored sessions in insertion order. */
    function InsertionOrder(): (r: seq<Session>)
      reads this
      requires Valid()
      ensures |r| == |order|
      ensures forall i :: 0 <= i < |order| ==> r[i] == sessions[order[i]]
    {
      InOrder(order, sessions)
    }

    /** `getSession(id)`. */
    function GetSession(id: string): (r: Option<Session>)
      reads this
      ensures r.Some? <==> id in sessions
      ensures r.Some? ==> r.value == sessions[id]
    {
      if id in sessions then Some(sessions[id]) else None
    }

    /** `getSessionsList()`: every stored session once, newest first, sessions created at
        the same time in insertion order. */
    function SessionsList(): (r: seq<Session>)
      reads this
      requires Valid()
      ensures NewestFirst(r)
      ensures multiset(r) == multiset(InsertionOrder())
      ensures |r| == |sessions|
      ensures forall id :: id in sessions ==> sessions[id] in r
      ensures forall s :: s in r ==> s in sessions.Values
      ensures forall t :: CreatedAt(r, t) == CreatedAt(InsertionOrder(), t)
    {
      InOrderCovers(order, sessions);
      SortNewestSpec(InOrder(order, sessions));
      SortNewestStable(InOrder(order, sessions));
      SameMembers(SortNewest(InOrder(order, sessions)), InOrder(order, sessions));
      SortNewest(InOrder(order, sessions))
    }

    /** `createNewSession()` with the generated id and the clock reading as parameters.
        An id already present is overwritten in place (there is no collision check). */
    method CreateNewSession(id: string, now: int) returns (s: Session)
      requires Valid()
      modifies this
      ensures Valid()
      ensures s == Session(id, PlaceholderTitle(id), now, [])
      ensures sessions == old(sessions)[id := s]
      ensures order == if id in old(sessions) then old(order) else old(order) + [id]
      ensures saved == sessions
      ensures GetSession(id) == Some(s)
      ensures forall k :: k != id ==> GetSession(k) == old(GetSession(k))
    {
      s := Session(id, PlaceholderTitle(id), now, []);
      if id !in sessions {
        order := order + [id];
      }
      sessions := sessions[id := s];
      saved := sessions; // save()
    }

    /** `resetAllSessions()`. */
    method ResetAllSessions()
      requires Valid()
      modifies this
      ensures Valid()
      ensures sessions == map[] && order == [] && saved == map[]
      ensures SessionsList() == []
      ensures forall id :: GetSession(id) == None
    {
      sessions := map[];
      order := [];
      saved := sessions; // save()
    }

    /** `addUserMessage(id, text)` with the clock reading as a parameter. */
    method AddUserMessage(id: string, text: string, now: int) returns (m: Option<Message>)
      requires Valid()
      modifies this
      ensures Valid() && order == old(order)
      ensures id !in old(sessions) ==> m == None && sessions == old(sessions) && saved == old(saved)
      ensures id in old(sessions) ==>
        && m == Some(Message(User, text, now, None, None))
        && sessions == Appended(old(sessions), id, m.value)
        && saved == sessions
    {
      if id !in sessions {
        return None;
      }
      var msg := Message(User, text, now, None, None);
      sessions := Appended(sessions, id, msg);
      saved := sessions; // save()
      m := Some(msg);
    }

    /** `addAssistantMessage(id, text, table)` with the clock reading as a parameter;
        the new message carries no feedback. */
    method AddAssistantMessage(id: string, text: string, table: Option<Table>, now: int) returns (m: Option<Message>)
      requires Valid()
      modifies this
      ensures Valid() && order == old(order)
      ensures id !in old(sessions) ==> m == None && sessions == old(sessions) && saved == old(saved)
      ensures id in old(sessions) ==>
        && m == Some(Message(Assistant, text, now, table, None))
        && sessions == Appended(old(sessions), id, m.value)
        && saved == sessions
    {
      if id !in sessions {
        return None;
      }
      var msg := Message(Assistant, text, now, table, None);
      sessions := Appended(sessions, id, msg);
      saved := sessions; // save()
      m := Some(msg);
    }

    /** `setTitleIfEmpty(id, text)`: only the title of session `id` can change, and the
        file is written only when a derived title was assigned. */
    method SetTitleIfEmpty(id: string, text: string)
      requires Valid()
      modifies this
      ensures Valid() && order == old(order)
      ensures id !in old(sessions) ==> sessions == old(sessions) && saved == old(saved)
      ensures id in old(sessions) ==>
        var s := old(sessions)[id];
        && sessions == old(sessions)[id := s.(title := Retitle(s.title, text))]
        && saved == if StartsWith(s.title, PlaceholderPrefix) && DeriveTitle(text).Some? then sessions else old(saved)
    {
      if id !in sessions {
        return;
      }
      var s := sessions[id];
      if StartsWith(s.title, PlaceholderPrefix) {
        var derived := DeriveTitle(text);
        if derived.Some? {
          sessions := sessions[id := s.(title := derived.value)];
          saved := sessions; // save()
        }
      }
    }
  }
}
