/** The backend's in-memory session store and its request handlers. The store is an
    object whose `sessions` dictionary the handlers update in place; each handler
    returns the body of its 200 response, or the 404 / 400 error it answers with.
    Identifiers, timestamps and the answer data file are supplied by the caller. */
module Server {
  import opened JsString
  import opened MockAnswer
  import opened Sessions

  const SessionNotFound := "Session not found"
  const MessageNotFound := "Message not found"
  const QuestionRequired := "Question is required"

  /** A handler's answer: the 200 body, or the error text of a 404 or a 400. */
  datatype Response<T> = Ok(value: T) | NotFound(error: string) | InvalidInput(error: string)

  /** The body of a successful create, `{ id, title }`. */
  datatype Created = Created(id: Id, title: string)

  /** `!question || !question.trim()`: the question is missing, empty or only whitespace. */
  predicate QuestionRejected(question: Option<string>) {
    !Truthy(question) || Trim(question.value) == ""
  }

  /** A question is rejected exactly when it is missing or blank. */
  lemma QuestionRejectedIffBlank(question: Option<string>)
    ensures QuestionRejected(question) <==> question.None? || IsBlank(question.value)
  {
    if question.Some? {
      TrimEmptyIffBlank(question.value);
    }
  }

  /** Two new message ids, different from each other and from every id in `msgs`. */
  predicate FreshPair(msgs: seq<Message>, userId: Id, assistantId: Id) {
    userId != assistantId && FindMessage(msgs, userId).None? && FindMessage(msgs, assistantId).None?
  }

  /** The key order after `delete`: the same keys in the same order, less `id`. */
  function Without(order: seq<Id>, id: Id): (r: seq<Id>)
    ensures forall k :: k in r <==> k in order && k != id
    ensures (forall i, j :: 0 <= i < j < |order| ==> order[i] != order[j]) ==>
      forall i, j :: 0 <= i < j < |r| ==> r[i] != r[j]
  {
    if order == [] then []
    else if order[0] == id then Without(order[1..], id)
    else
      var rest := Without(order[1..], id);
      assert order[0] !in order[1..] ==> order[0] !in rest;
      [order[0]] + rest
  }

  class SessionStore {
    /** The `sessions` dictionary, keyed by session id. */
    var sessions: map<Id, Session>
    /** The order in which the dictionary enumerates its keys (insertion order). */
    var order: seq<Id>

    ghost predicate Valid()
      reads this
    {
      WellFormed(order, sessions)
    }

    constructor ()
      ensures Valid() && sessions == map[] && order == []
    {
      sessions := map[];
      order := [];
    }

    /** POST /api/sessions. Stores a new session under the fresh id `id`: its title is
        the supplied one when truthy, else "Session N" with N one more than the number
        of sessions stored before; its messages are one user message holding the
        first question when that is truthy, else none. Nothing else changes. */
    method Create(title: Option<string>, firstQuestion: Option<string>, id: Id, messageId: Id, createdAt: Timestamp)
      returns (r: Created)
      requires Valid() && id !in sessions
      modifies this
      ensures Valid()
      ensures order == old(order) + [id]
      ensures sessions.Keys == old(sessions).Keys + {id}
      ensures forall k :: k in old(sessions) ==> sessions[k] == old(sessions)[k]
      ensures sessions[id].id == id && sessions[id].createdAt == createdAt
      ensures sessions[id].title == if Truthy(title) then title.value else DefaultTitle(|old(sessions)|)
      ensures sessions[id].messages ==
        if Truthy(firstQuestion) then [UserMessage(messageId, firstQuestion.value, createdAt, None)] else []
      ensures r == Created(id, sessions[id].title)
    {
      var messages: seq<Message> := [];
      if Truthy(firstQuestion) {
        messages := messages + [UserMessage(messageId, firstQuestion.value, createdAt, None)];
      }
      var t := if Truthy(title) then title.value else DefaultTitle(|sessions|);
      AddKeepsWellFormed(order, sessions, Session(id, t, createdAt, messages));
      sessions := sessions[id := Session(id, t, createdAt, messages)];
      order := order + [id];
      r := Created(id, t);
    }

    /** POST /api/sessions/:id/messages. An unknown session is answered 404 before the
        question is looked at; a missing or blank question is answered 400. Otherwise
        the untrimmed question and the assistant answer built from the loaded payload
        are appended, in that order and with one timestamp, and the assistant message
        is returned. No other session changes, and nothing changes on an error. */
    method AppendExchange(
      sessionId: Id, question: Option<string>, userId: Id, assistantId: Id,
      createdAt: Timestamp, file: Option<Payload>)
      returns (r: Response<Message>)
      requires Valid()
      requires sessionId in sessions ==> FreshPair(sessions[sessionId].messages, userId, assistantId)
      modifies this
      ensures Valid() && order == old(order)
      ensures sessionId !in old(sessions) ==> r == NotFound(SessionNotFound) && sessions == old(sessions)
      ensures sessionId in old(sessions) && QuestionRejected(question) ==>
        r == InvalidInput(QuestionRequired) && sessions == old(sessions)
      ensures sessionId in old(sessions) && !QuestionRejected(question) ==>
        var s := old(sessions)[sessionId];
        && r == Ok(AssistantFrom(assistantId, LoadTable(file), createdAt))
        && sessions == old(sessions)[sessionId := s.(messages :=
             s.messages + [UserMessage(userId, question.value, createdAt, None), r.value])]
      ensures sessionId in old(sessions) && !QuestionRejected(question) ==>
        && sessions.Keys == old(sessions).Keys
        && sessions[sessionId].title == old(sessions)[sessionId].title
        && sessions[sessionId].messages ==
             old(sessions)[sessionId].messages + [UserMessage(userId, question.value, createdAt, None), r.value]
    {
      if sessionId !in sessions {
        return NotFound(SessionNotFound);
      }
      if !Truthy(question) || Trim(question.value) == "" {
        return InvalidInput(QuestionRequired);
      }
      var userMsg := UserMessage(userId, question.value, createdAt, None);
      var mock := LoadTable(file);
      var assistantMsg := AssistantFrom(assistantId, mock, createdAt);
      var s := sessions[sessionId];
      AppendKeepsDistinctIds(s.messages, userMsg, assistantMsg);
      ReplaceKeepsWellFormed(order, sessions, s.(messages := s.messages + [userMsg, assistantMsg]));
      sessions := sessions[sessionId := s.(messages := s.messages + [userMsg, assistantMsg])];
      r := Ok(assistantMsg);
    }

    /** GET /api/sessions: one summary per stored session, newest first. */
    method List() returns (r: seq<Summary>)
      requires Valid()
      ensures r == ListSessions(order, sessions)
      ensures NewestFirst(r)
      ensures |r| == |sessions|
      ensures forall i :: 0 <= i < |r| ==> r[i].id in sessions && r[i] == Summarize(sessions[r[i].id])
      ensures forall k :: k in sessions ==> exists i :: 0 <= i < |r| && r[i].id == k
      ensures DistinctSummaryIds(r)
    {
      r := ListSessions(order, sessions);
    }

    /** GET /api/sessions/:id: the stored session, or 404. */
    method Get(id: Id) returns (r: Response<Session>)
      requires Valid()
      ensures r.Ok? <==> id in sessions
      ensures r.Ok? ==> r.value == sessions[id] && r.value.id == id
      ensures !r.Ok? ==> r == NotFound(SessionNotFound)
    {
      if id !in sessions {
        return NotFound(SessionNotFound);
      }
      r := Ok(sessions[id]);
    }

    /** POST /api/feedback. An unknown session, or a session without a message of that
        id, is answered 404 with nothing changed. Otherwise the first message with that
        id, whatever its role, gets the feedback (a falsy value stored as null), and
        nothing else changes. */
    method SetFeedback(sessionId: Id, messageId: Id, feedback: Option<string>) returns (r: Response<()>)
      requires Valid()
      modifies this
      ensures Valid() && order == old(order)
      ensures sessionId !in old(sessions) ==> r == NotFound(SessionNotFound) && sessions == old(sessions)
      ensures sessionId in old(sessions) ==>
        var s := old(sessions)[sessionId];
        match FindMessage(s.messages, messageId)
        case None => r == NotFound(MessageNotFound) && sessions == old(sessions)
        case Some(i) =>
          && r == Ok(())
          && sessions == old(sessions)[sessionId := s.(messages := WithFeedback(s.messages, i, StoredFeedback(feedback)))]
    {
      if sessionId !in sessions {
        return NotFound(SessionNotFound);
      }
      var s := sessions[sessionId];
      var found := FindMessage(s.messages, messageId);
      if found.None? {
        return NotFound(MessageNotFound);
      }
      var i := found.value;
      var msg := s.messages[i].(feedback := StoredFeedback(feedback));
      WithFeedbackKeepsDistinctIds(s.messages, i, StoredFeedback(feedback));
      ReplaceKeepsWellFormed(order, sessions, s.(messages := s.messages[i := msg]));
      sessions := sessions[sessionId := s.(messages := s.messages[i := msg])];
      r := Ok(());
    }

    /** DELETE /api/sessions/:id. Removes exactly that key (404 and no change when it
        is absent); afterwards the id is not stored. */
    method Delete(id: Id) returns (r: Response<()>)
      requires Valid()
      modifies this
      ensures Valid()
      ensures id in old(sessions) ==>
        r == Ok(()) && sessions == old(sessions) - {id} && order == Without(old(order), id)
      ensures id !in old(sessions) ==>
        r == NotFound(SessionNotFound) && sessions == old(sessions) && order == old(order)
      ensures id !in sessions
    {
      if id !in sessions {
        return NotFound(SessionNotFound);
      }
      sessions := sessions - {id};
      order := Without(order, id);
      r := Ok(());
    }
  }

  /** After a delete, getting the same id is answered 404, whether or not it was stored. */
  method GetAfterDelete(store: SessionStore, id: Id) returns (deleted: Response<()>, got: Response<Session>)
    requires store.Valid()
    modifies store
    ensures deleted.Ok? <==> id in old(store.sessions)
    ensures got == NotFound(SessionNotFound)
  {
    deleted := store.Delete(id);
    got := store.Get(id);
  }

  /** The backend alone does not derive a title from the first question: a create
      with only `firstQuestion` is titled "Session 1" in an empty store. Getting the
      session back shows the question as its one message. */
  method FirstQuestionWithoutTitle() returns (title: string, messages: seq<Message>)
    ensures title == "Session 1"
    ensures |messages| == 1 && messages[0].UserMessage? && messages[0].text == "What is X?"
  {
    var store := new SessionStore();
    FirstDefaultTitles();
    var created := store.Create(None, Some("What is X?"), "s1", "m1", "2024-01-01T00:00:00.000Z");
    title := created.title;
    var got := store.Get("s1");
    messages := got.value.messages;
  }

  /** The default title counts the sessions stored now, not those ever created: after
      two untitled creates and a delete of the first, the next untitled session gets
      the same title as the second. */
  method DefaultTitleAfterDelete() returns (second: string, third: string)
    ensures second == third == "Session 2"
  {
    FirstDefaultTitles();
    var store := new SessionStore();
    var a := store.Create(None, None, "a", "ma", "2024-01-01T00:00:00.000Z");
    assert store.sessions.Keys == {"a"};
    assert |store.sessions| == 1;
    var b := store.Create(None, None, "b", "mb", "2024-01-01T00:00:01.000Z");
    second := b.title;
    assert second == "Session 2";
    assert store.sessions.Keys == {"a", "b"};
    var _ := store.Delete("a");
    assert store.sessions.Keys == {"b"};
    assert |store.sessions| == 1;
    var c := store.Create(None, None, "c", "mc", "2024-01-01T00:00:02.000Z");
    third := c.title;
  }

  /** A store holding session "s" with a first question "m1", then the exchange
      "m2" (user) and "m3" (assistant). */
  method StoreWithExchange() returns (store: SessionStore)
    ensures fresh(store) && store.Valid() && "s" in store.sessions
    ensures var msgs := store.sessions["s"].messages;
      |msgs| == 3 && msgs[0].id == "m1" && msgs[1].id == "m2" && msgs[2].id == "m3"
    ensures store.sessions["s"].messages[2].AssistantMessage?
  {
    store := new SessionStore();
    var _ := store.Create(None, Some("q"), "s", "m1", "2024-01-01T00:00:00.000Z");
    var first := UserMessage("m1", "q", "2024-01-01T00:00:00.000Z", None);
    FindInSingleton(first, "m2");
    FindInSingleton(first, "m3");
    assert !QuestionRejected(Some("more")) by {
      assert !IsWhitespace('m');
      QuestionRejectedIffBlank(Some("more"));
    }
    var _ := store.AppendExchange("s", Some("more"), "m2", "m3", "2024-01-01T00:00:05.000Z", None);
    ThreeMessages(first, UserMessage("m2", "more", "2024-01-01T00:00:05.000Z", None),
      AssistantFrom("m3", Fallback, "2024-01-01T00:00:05.000Z"));
  }

  /** Liking an answer twice and then clearing the feedback leaves it null. */
  method FeedbackClearedExample() returns (feedback: Option<string>)
    ensures feedback == None
  {
    var store := StoreWithExchange();
    ghost var msgs := store.sessions["s"].messages;
    assert FindMessage(msgs, "m3") == Some(2);
    var _ := store.SetFeedback("s", "m3", Some("like"));
    ghost var liked := WithFeedback(msgs, 2, Some("like"));
    FindMessageIgnoresFeedback(msgs, 2, Some("like"), "m3");
    var _ := store.SetFeedback("s", "m3", Some("like"));
    assert store.sessions["s"].messages == liked;
    var _ := store.SetFeedback("s", "m3", None);
    var got := store.Get("s");
    feedback := got.value.messages[2].feedback;
  }

  /** Feedback for a message id the session does not hold is answered 404. */
  method UnknownMessageExample() returns (r: Response<()>)
    ensures r == NotFound(MessageNotFound)
  {
    var store := StoreWithExchange();
    assert "m9" != "m1" && "m9" != "m2" && "m9" != "m3";
    r := store.SetFeedback("s", "m9", Some("like"));
  }
}
