/** The records of the session store and the pure rules the backend handlers apply
    to them: building the assistant message from the answer payload, finding a
    message by id, storing feedback, and the newest-first list of session summaries. */
module Sessions {
  import opened JsString
  import opened MockAnswer

  /** An opaque identifier (a UUID in the running system). */
  type Id = string

  /** An ISO-8601 timestamp string as produced by Date.prototype.toISOString. */
  type Timestamp = string

  /** A chat message. Both kinds carry `feedback`: assistant messages start with
      null, user messages without the field, and the feedback handler may set it on
      either kind. */
  datatype Message =
    | UserMessage(id: Id, text: string, createdAt: Timestamp, feedback: Option<string>)
    | AssistantMessage(
        id: Id, answerText: string, table: Table, description: string,
        createdAt: Timestamp, feedback: Option<string>)

  /** A session record; `messages` is in chronological order. */
  datatype Session = Session(id: Id, title: string, createdAt: Timestamp, messages: seq<Message>)

  /** The summary of a session that the list handler returns. */
  datatype Summary = Summary(id: Id, title: string, createdAt: Timestamp, messageCount: nat)

  /** No two messages share an id. */
  predicate DistinctIds(msgs: seq<Message>) {
    forall i, j :: 0 <= i < j < |msgs| ==> msgs[i].id != msgs[j].id
  }

  /** The label of a session created without a title when `count` sessions exist:
      "Session " followed by the decimal digits of `count + 1`. */
  function DefaultTitle(count: nat): (r: string)
    ensures |r| > 8 && r[..8] == "Session "
    ensures (forall i :: 8 <= i < |r| ==> IsDigit(r[i])) && DigitsValue(r[8..]) == count + 1
  {
    NatToStringRoundTrip(count + 1);
    var r := "Session " + NatToString(count + 1);
    assert r[8..] == NatToString(count + 1);
    r
  }

  /** Default titles differ exactly when the session counts they were made from differ. */
  lemma DefaultTitleInjective(m: nat, n: nat)
    ensures DefaultTitle(m) == DefaultTitle(n) <==> m == n
  {
    if DefaultTitle(m) == DefaultTitle(n) {
      assert NatToString(m + 1) == DefaultTitle(m)[8..];
      NatToStringInjective(m + 1, n + 1);
    }
  }

  /** The first two default titles. */
  lemma FirstDefaultTitles()
    ensures DefaultTitle(0) == "Session 1" && DefaultTitle(1) == "Session 2"
  {
    assert NatToString(1) == "1" && NatToString(2) == "2";
  }

  /** The assistant message built from an answer payload: a missing or empty text
      becomes "", a missing table becomes the empty table, feedback starts null. */
  function AssistantFrom(id: Id, mock: Payload, createdAt: Timestamp): (m: Message)
    ensures m.AssistantMessage? && m.id == id && m.createdAt == createdAt && m.feedback == None
  {
    AssistantMessage(
      id,
      Or(mock.answerText, ""),
      match mock.table case Some(t) => t case None => Table([], []),
      Or(mock.description, ""),
      createdAt,
      None)
  }

  /** The handler never reshapes the payload: a present table is stored as it is,
      so a well-shaped payload table (or a missing one) gives a well-shaped message
      table; present texts are kept and missing ones become "". */
  lemma AssistantKeepsPayload(id: Id, mock: Payload, createdAt: Timestamp)
    ensures var m := AssistantFrom(id, mock, createdAt);
      && m.AssistantMessage? && m.id == id && m.createdAt == createdAt && m.feedback == None
      && (mock.table.Some? ==> m.table == mock.table.value)
      && (mock.table.None? ==> m.table.columns == [] && m.table.rows == [])
      && ((mock.table.Some? ==> WellShaped(mock.table.value)) ==> WellShaped(m.table))
      && (Truthy(mock.answerText) ==> m.answerText == mock.answerText.value)
      && (!Truthy(mock.answerText) ==> m.answerText == "")
      && (Truthy(mock.description) ==> m.description == mock.description.value)
      && (!Truthy(mock.description) ==> m.description == "")
  {
  }

  /** Array.prototype.find by id: the index of the first message with that id. */
  function FindMessage(msgs: seq<Message>, id: Id): (r: Option<nat>)
    ensures r.Some? ==> r.value < |msgs| && msgs[r.value].id == id
    ensures r.Some? ==> forall j :: 0 <= j < r.value ==> msgs[j].id != id
    ensures r.None? <==> forall j :: 0 <= j < |msgs| ==> msgs[j].id != id
  {
    if msgs == [] then None
    else if msgs[0].id == id then Some(0)
    else match FindMessage(msgs[1..], id)
      case None => None
      case Some(k) => Some(k + 1)
  }

  /** Appending two messages to a one-message list gives the three in order. Kept as
      a lemma so that methods holding a large store state do not reason about
      sequence concatenation in that context. */
  lemma ThreeMessages(a: Message, b: Message, c: Message)
    ensures [a] + [b, c] == [a, b, c]
  {
  }

  /** In a one-message list only that message's id is found. */
  lemma FindInSingleton(m: Message, id: Id)
    ensures FindMessage([m], id) == if m.id == id then Some(0) else None
  {
  }

  /** `feedback || null`: a falsy feedback value is stored as null. */
  function StoredFeedback(feedback: Option<string>): (f: Option<string>)
    ensures f.None? <==> !Truthy(feedback)
    ensures f.Some? ==> f == feedback && f.value != ""
  {
    if Truthy(feedback) then feedback else None
  }

  /** Storing is idempotent: a stored value is stored unchanged. */
  lemma StoredFeedbackIdempotent(feedback: Option<string>)
    ensures StoredFeedback(StoredFeedback(feedback)) == StoredFeedback(feedback)
  {
  }

  /** The messages with the feedback of message `i` replaced. */
  function WithFeedback(msgs: seq<Message>, i: nat, feedback: Option<string>): (r: seq<Message>)
    requires i < |msgs|
    ensures |r| == |msgs| && r[i].feedback == feedback
    ensures forall j :: 0 <= j < |msgs| && j != i ==> r[j] == msgs[j]
  {
    msgs[i := msgs[i].(feedback := feedback)]
  }

  /** Setting feedback keeps the list's length and order, touches only message `i`,
      and on it changes nothing but `feedback` (the kind and every other field stay). */
  lemma WithFeedbackChangesOnlyFeedback(msgs: seq<Message>, i: nat, feedback: Option<string>)
    requires i < |msgs|
    ensures var r := WithFeedback(msgs, i, feedback);
      && |r| == |msgs|
      && (forall j :: 0 <= j < |msgs| && j != i ==> r[j] == msgs[j])
      && r[i].feedback == feedback
      && r[i].(feedback := msgs[i].feedback) == msgs[i]
      && (forall j :: 0 <= j < |msgs| ==> r[j].id == msgs[j].id)
  {
  }

  /** The search looks at ids only: lists with the same ids position by position
      give the same answer. */
  lemma {:induction false} FindMessageSeesOnlyIds(a: seq<Message>, b: seq<Message>, id: Id)
    requires |a| == |b| && forall j :: 0 <= j < |a| ==> a[j].id == b[j].id
    ensures FindMessage(a, id) == FindMessage(b, id)
  {
    if a != [] {
      assert a[0].id == b[0].id;
      FindMessageSeesOnlyIds(a[1..], b[1..], id);
    }
  }

  /** Feedback writes do not change which message an id finds. */
  lemma FindMessageIgnoresFeedback(msgs: seq<Message>, i: nat, feedback: Option<string>, id: Id)
    requires i < |msgs|
    ensures FindMessage(WithFeedback(msgs, i, feedback), id) == FindMessage(msgs, id)
  {
    WithFeedbackChangesOnlyFeedback(msgs, i, feedback);
    FindMessageSeesOnlyIds(WithFeedback(msgs, i, feedback), msgs, id);
  }

  /** Only the last of several feedback writes to one message is kept: setting a
      value twice and then clearing it leaves null. */
  lemma WithFeedbackLastWriteWins(msgs: seq<Message>, i: nat, f1: Option<string>, f2: Option<string>)
    requires i < |msgs|
    ensures WithFeedback(WithFeedback(msgs, i, f1), i, f2) == WithFeedback(msgs, i, f2)
  {
  }

  // ---------------------------------------------------------------------------
  // The list of sessions

  /** The list entry of a session: `{ id, title, createdAt, messageCount }`. */
  function Summarize(s: Session): (r: Summary)
    ensures r.id == s.id && r.title == s.title && r.createdAt == s.createdAt
    ensures r.messageCount == |s.messages|
  {
    Summary(s.id, s.title, s.createdAt, |s.messages|)
  }

  /** Newest first: no summary's `createdAt` is less than a later one's. */
  predicate NewestFirst(s: seq<Summary>) {
    forall i, j :: 0 <= i < j < |s| ==> !Less(s[i].createdAt, s[j].createdAt)
  }

  predicate DistinctSummaryIds(s: seq<Summary>) {
    forall i, j :: 0 <= i < j < |s| ==> s[i].id != s[j].id
  }

  /** Inserts `x` into a newest-first list, before the first entry not newer than it. */
  function InsertNewestFirst(x: Summary, s: seq<Summary>): (r: seq<Summary>)
    requires NewestFirst(s)
    ensures NewestFirst(r)
    ensures multiset(r) == multiset(s) + multiset{x}
  {
    if s == [] then [x]
    else if !Less(x.createdAt, s[0].createdAt) then
      NotOlderThanHead(x, s);
      [x] + s
    else
      var rest := InsertNewestFirst(x, s[1..]);
      assert s == [s[0]] + s[1..];
      HeadNotOlderThanRest(x, s, rest);
      [s[0]] + rest
  }

  /** An entry not older than the head of a newest-first list is not older than any entry. */
  lemma NotOlderThanHead(x: Summary, s: seq<Summary>)
    requires NewestFirst(s) && s != [] && !Less(x.createdAt, s[0].createdAt)
    ensures forall j :: 0 <= j < |s| ==> !Less(x.createdAt, s[j].createdAt)
  {
    forall j | 0 < j < |s| ensures !Less(x.createdAt, s[j].createdAt) {
      NotLessTransitive(x.createdAt, s[0].createdAt, s[j].createdAt);
    }
  }

  /** When `x` is older than the head, the head is not older than anything in the
      list built from the rest and `x`. */
  lemma HeadNotOlderThanRest(x: Summary, s: seq<Summary>, rest: seq<Summary>)
    requires NewestFirst(s) && s != [] && Less(x.createdAt, s[0].createdAt)
    requires multiset(rest) == multiset(s[1..]) + multiset{x}
    ensures forall j :: 0 <= j < |rest| ==> !Less(s[0].createdAt, rest[j].createdAt)
  {
    forall j | 0 <= j < |rest| ensures !Less(s[0].createdAt, rest[j].createdAt) {
      var y := rest[j];
      assert y in multiset(rest);
      if y == x {
        LessAsymmetric(x.createdAt, s[0].createdAt);
      } else {
        assert y in multiset(s[1..]);
        var k :| 0 <= k < |s[1..]| && s[1..][k] == y;
        assert s[k + 1] == y;
      }
    }
  }

  /** Sorts summaries newest first (insertion sort); the result is a permutation. */
  function SortNewestFirst(s: seq<Summary>): (r: seq<Summary>)
    ensures NewestFirst(r)
    ensures multiset(r) == multiset(s)
  {
    if s == [] then []
    else
      assert s == [s[0]] + s[1..];
      InsertNewestFirst(s[0], SortNewestFirst(s[1..]))
  }

  /** In a list whose ids are distinct, every summary occurs at most once. */
  lemma {:induction false} DistinctIdsOccurOnce(u: seq<Summary>, y: Summary)
    requires DistinctSummaryIds(u)
    ensures multiset(u)[y] <= 1
  {
    if u != [] {
      assert u == [u[0]] + u[1..];
      DistinctIdsOccurOnce(u[1..], y);
      if y == u[0] {
        assert y !in u[1..];
      }
    }
  }

  /** A summary found at two positions occurs at least twice. */
  lemma OccursTwice(r: seq<Summary>, i: nat, j: nat)
    requires i < j < |r|
    ensures r[i] == r[j] ==> multiset(r)[r[i]] >= 2
  {
    assert r == r[..j] + r[j..];
    assert r[i] in r[..j];
    assert r[j] in r[j..];
  }

  /** A permutation of a list in which each id names one summary keeps the ids distinct. */
  lemma PermutationKeepsDistinctIds(u: seq<Summary>, r: seq<Summary>)
    requires DistinctSummaryIds(u) && multiset(r) == multiset(u)
    ensures DistinctSummaryIds(r)
  {
    forall i, j | 0 <= i < j < |r| ensures r[i].id != r[j].id {
      assert r[i] in multiset(u) && r[j] in multiset(u);
      var a :| 0 <= a < |u| && u[a] == r[i];
      var b :| 0 <= b < |u| && u[b] == r[j];
      OccursTwice(r, i, j);
      DistinctIdsOccurOnce(u, r[i]);
      assert a != b;
    }
  }

  /** The store is well formed: `order` lists every stored id exactly once, every
      session is stored under its own id, and message ids are unique per session. */
  ghost predicate WellFormed(order: seq<Id>, sessions: map<Id, Session>) {
    && (forall i, j :: 0 <= i < j < |order| ==> order[i] != order[j])
    && (forall k :: k in sessions <==> k in order)
    && (forall k :: k in sessions ==> sessions[k].id == k && DistinctIds(sessions[k].messages))
  }

  /** Storing a session under a new id, appended to the order, keeps the store well formed. */
  lemma AddKeepsWellFormed(order: seq<Id>, sessions: map<Id, Session>, s: Session)
    requires WellFormed(order, sessions) && s.id !in sessions && DistinctIds(s.messages)
    ensures WellFormed(order + [s.id], sessions[s.id := s])
  {
    var o := order + [s.id];
    forall i, j | 0 <= i < j < |o| ensures o[i] != o[j] {
      if j == |order| {
        assert o[i] == order[i] && order[i] in sessions;
      } else {
        assert o[i] == order[i] && o[j] == order[j];
      }
    }
  }

  /** Replacing a stored session by one with the same id and distinct message ids
      keeps the store well formed. */
  lemma ReplaceKeepsWellFormed(order: seq<Id>, sessions: map<Id, Session>, s: Session)
    requires WellFormed(order, sessions) && s.id in sessions && DistinctIds(s.messages)
    ensures WellFormed(order, sessions[s.id := s])
  {
  }

  /** Appending two messages whose ids are new and different keeps message ids distinct. */
  lemma AppendKeepsDistinctIds(msgs: seq<Message>, u: Message, a: Message)
    requires DistinctIds(msgs) && u.id != a.id
    requires FindMessage(msgs, u.id).None? && FindMessage(msgs, a.id).None?
    ensures DistinctIds(msgs + [u, a])
  {
    var r := msgs + [u, a];
    forall i, j | 0 <= i < j < |r| ensures r[i].id != r[j].id {
      if j < |msgs| {
        assert r[i] == msgs[i] && r[j] == msgs[j];
      } else if i < |msgs| {
        assert r[i] == msgs[i];
      }
    }
  }

  /** Setting feedback keeps message ids distinct. */
  lemma WithFeedbackKeepsDistinctIds(msgs: seq<Message>, i: nat, feedback: Option<string>)
    requires i < |msgs| && DistinctIds(msgs)
    ensures DistinctIds(WithFeedback(msgs, i, feedback))
  {
    WithFeedbackChangesOnlyFeedback(msgs, i, feedback);
  }

  /** A list without repetitions has as many elements as the set of its elements. */
  lemma {:induction false} DistinctCardinality(order: seq<Id>)
    requires forall i, j :: 0 <= i < j < |order| ==> order[i] != order[j]
    ensures |set k | k in order| == |order|
  {
    if order != [] {
      DistinctCardinality(order[1..]);
      assert (set k | k in order) == {order[0]} + (set k | k in order[1..]);
      assert order[0] !in (set k | k in order[1..]);
    }
  }

  /** The summaries in the store's enumeration order (`Object.values(...).map(...)`). */
  function SummariesInOrder(order: seq<Id>, sessions: map<Id, Session>): (r: seq<Summary>)
    requires forall k :: k in order ==> k in sessions
    ensures |r| == |order|
    ensures forall i :: 0 <= i < |r| ==> r[i] == Summarize(sessions[order[i]])
  {
    seq(|order|, i requires 0 <= i < |order| => Summarize(sessions[order[i]]))
  }

  /** The list handler's result: one summary per stored session, with its title,
      creation time and message count, sorted so that `createdAt` never increases. */
  function ListSessions(order: seq<Id>, sessions: map<Id, Session>): (r: seq<Summary>)
    requires WellFormed(order, sessions)
    ensures NewestFirst(r)
    ensures |r| == |sessions|
    ensures forall i :: 0 <= i < |r| ==> r[i].id in sessions && r[i] == Summarize(sessions[r[i].id])
    ensures forall k :: k in sessions ==> exists i :: 0 <= i < |r| && r[i].id == k
    ensures DistinctSummaryIds(r)
  {
    var u := SummariesInOrder(order, sessions);
    var r := SortNewestFirst(u);
    ListCoversStore(order, sessions, u, r);
    r
  }

  /** What sorting the enumeration keeps: size, contents and distinct ids. */
  lemma ListCoversStore(order: seq<Id>, sessions: map<Id, Session>, u: seq<Summary>, r: seq<Summary>)
    requires WellFormed(order, sessions)
    requires u == SummariesInOrder(order, sessions) && multiset(r) == multiset(u)
    ensures |r| == |sessions|
    ensures forall i :: 0 <= i < |r| ==> r[i].id in sessions && r[i] == Summarize(sessions[r[i].id])
    ensures forall k :: k in sessions ==> exists i :: 0 <= i < |r| && r[i].id == k
    ensures DistinctSummaryIds(r)
  {
    assert forall i :: 0 <= i < |u| ==> u[i].id == order[i];
    assert |r| == |multiset(r)| == |u|;
    DistinctCardinality(order);
    assert (set k | k in order) == sessions.Keys;
    forall i | 0 <= i < |r| ensures r[i].id in sessions && r[i] == Summarize(sessions[r[i].id]) {
      assert r[i] in multiset(u);
    }
    forall k | k in sessions ensures exists i :: 0 <= i < |r| && r[i].id == k {
      var j :| 0 <= j < |order| && order[j] == k;
      assert u[j] in multiset(r);
      var i :| 0 <= i < |r| && r[i] == u[j];
    }
    PermutationKeepsDistinctIds(u, r);
  }
}
