/** The rules of the chat panel: the title a new session gets from its first question,
    the guard that decides whether and what to send, the like/dislike toggles, and
    the local update of a message's feedback. The sequence of backend calls a first
    message makes is modelled against the session store directly. */
module Chatbot {
  import opened JsString
  import opened MockAnswer
  import opened Sessions
  import Server

  /** Longest first question used as a title without truncation. */
  const TitleLimit: nat := 50
  const Ellipsis: string := "..."

  function Min(a: nat, b: nat): nat {
    if a <= b then a else b
  }

  /** The title createSession sends: none for an empty question, the first 50
      characters and "..." for a longer one, else the question itself. */
  function DeriveTitle(firstQuestion: string): (title: Option<string>)
    ensures title.None? <==> firstQuestion == ""
    ensures title.Some? ==> Truthy(title)
    ensures title.Some? ==> |title.value| <= TitleLimit + |Ellipsis|
    ensures title.Some? ==> firstQuestion[..Min(|firstQuestion|, TitleLimit)] <= title.value
  {
    if firstQuestion != "" then
      if |firstQuestion| > TitleLimit then Some(firstQuestion[..TitleLimit] + Ellipsis)
      else Some(firstQuestion)
    else None
  }

  /** The three cases of the derived title. */
  lemma DeriveTitleCases(firstQuestion: string)
    ensures firstQuestion == "" ==> DeriveTitle(firstQuestion) == None
    ensures |firstQuestion| > TitleLimit ==>
      DeriveTitle(firstQuestion) == Some(firstQuestion[..TitleLimit] + "...")
    ensures 0 < |firstQuestion| <= TitleLimit ==> DeriveTitle(firstQuestion) == Some(firstQuestion)
  {
  }

  /** The guard of sendMessage: None when the question is blank (nothing is sent),
      otherwise the trimmed question, which is what gets sent. */
  function Outgoing(question: string): (sent: Option<string>)
    ensures sent.None? <==> IsBlank(question)
    ensures sent.None? <==> Trim(question) == ""
    ensures sent.Some? ==> sent.value == Trim(question)
  {
    TrimEmptyIffBlank(question);
    var q := Trim(question);
    if q == "" then None else Some(q)
  }

  /** What is sent is non-empty and neither starts nor ends with whitespace. */
  lemma OutgoingBlank(question: string)
    ensures match Outgoing(question)
      case None => true
      case Some(q) => q != "" && !IsWhitespace(q[0]) && !IsWhitespace(q[|q| - 1])
  {
  }

  /** Whatever the panel sends passes the backend's question check, is its own trim,
      and yields a title. */
  lemma SentQuestionAccepted(question: string)
    requires Outgoing(question).Some?
    ensures var q := Outgoing(question).value;
      && !Server.QuestionRejected(Some(q))
      && Trim(q) == q
      && DeriveTitle(q).Some?
  {
    TrimIdempotent(question);
  }

  const Like: string := "like"
  const Dislike: string := "dislike"

  /** The like button: "like" clears it, anything else becomes "like". */
  function ToggleLike(current: Option<string>): (sent: Option<string>)
    ensures sent == None <==> current == Some(Like)
    ensures sent != None ==> sent == Some(Like)
  {
    if current == Some(Like) then None else Some(Like)
  }

  /** The dislike button: "dislike" clears it, anything else becomes "dislike". */
  function ToggleDislike(current: Option<string>): (sent: Option<string>)
    ensures sent == None <==> current == Some(Dislike)
    ensures sent != None ==> sent == Some(Dislike)
  {
    if current == Some(Dislike) then None else Some(Dislike)
  }

  /** Pressing the like button twice gives back a like and otherwise null; what it
      sends is stored by the backend as it is. */
  lemma ToggleLikeProperties(current: Option<string>)
    ensures ToggleLike(ToggleLike(current)) == if current == Some(Like) then current else None
    ensures StoredFeedback(ToggleLike(current)) == ToggleLike(current)
  {
  }

  /** The dislike button, symmetrically. */
  lemma ToggleDislikeProperties(current: Option<string>)
    ensures ToggleDislike(ToggleDislike(current)) == if current == Some(Dislike) then current else None
    ensures StoredFeedback(ToggleDislike(current)) == ToggleDislike(current)
  {
  }

  /** The local update after feedback is saved: every message whose id is
      `messageId` gets the new feedback; the list keeps its length and order, and
      every other field and every other message stays as it was. */
  function UpdateFeedback(msgs: seq<Message>, messageId: Id, feedback: Option<string>): (r: seq<Message>)
    ensures |r| == |msgs|
    ensures forall i :: 0 <= i < |msgs| ==> r[i].(feedback := msgs[i].feedback) == msgs[i]
    ensures forall i :: 0 <= i < |msgs| ==>
      r[i].feedback == if msgs[i].id == messageId then feedback else msgs[i].feedback
  {
    if msgs == [] then []
    else
      var m := if msgs[0].id == messageId then msgs[0].(feedback := feedback) else msgs[0];
      [m] + UpdateFeedback(msgs[1..], messageId, feedback)
  }

  /** With distinct message ids the panel's local update is the backend's update:
      the message the backend finds gets the feedback, and an unknown id changes
      nothing. The backend stores `feedback || null`, so the two agree on the stored
      value whenever the sent value is one the backend keeps as it is. */
  lemma LocalUpdateMatchesServer(msgs: seq<Message>, messageId: Id, feedback: Option<string>)
    requires DistinctIds(msgs)
    ensures match FindMessage(msgs, messageId)
      case None => UpdateFeedback(msgs, messageId, feedback) == msgs
      case Some(i) =>
        && UpdateFeedback(msgs, messageId, feedback) == WithFeedback(msgs, i, feedback)
        && (StoredFeedback(feedback) == feedback ==>
              UpdateFeedback(msgs, messageId, feedback) == WithFeedback(msgs, i, StoredFeedback(feedback)))
  {
    var r := UpdateFeedback(msgs, messageId, feedback);
    match FindMessage(msgs, messageId)
    case None =>
      assert forall i :: 0 <= i < |msgs| ==> r[i] == msgs[i];
    case Some(i) =>
      var w := WithFeedback(msgs, i, feedback);
      forall j | 0 <= j < |msgs| ensures r[j] == w[j] {
        if j != i {
          assert msgs[j].id != messageId;
        }
      }
  }

  /** sendMessage when no session is open, as written: createSession posts the
      trimmed question as `firstQuestion` (with the derived title), and then the same
      question is posted to the new session. The stored session therefore holds the
      question twice, then the answer. A question that trims to nothing sends nothing. */
  method SendFirstMessage(
    store: Server.SessionStore, question: string, sessionId: Id,
    firstId: Id, userId: Id, assistantId: Id,
    createdAt: Timestamp, answeredAt: Timestamp, file: Option<Payload>)
    returns (assistant: Option<Message>)
    requires store.Valid() && sessionId !in store.sessions
    requires userId != assistantId && firstId != userId && firstId != assistantId
    modifies store
    ensures store.Valid()
    ensures Trim(question) == "" ==>
      assistant == None && store.sessions == old(store.sessions) && store.order == old(store.order)
    ensures Trim(question) != "" ==>
      && store.order == old(store.order) + [sessionId]
      && (forall k :: k in old(store.sessions) ==> k in store.sessions && store.sessions[k] == old(store.sessions)[k])
      && store.sessions[sessionId].id == sessionId && store.sessions[sessionId].createdAt == createdAt
    ensures Trim(question) != "" ==>
      var q := Trim(question);
      && assistant == Some(AssistantFrom(assistantId, LoadTable(file), answeredAt))
      && store.sessions.Keys == old(store.sessions).Keys + {sessionId}
      && store.sessions[sessionId].title == DeriveTitle(q).value
      && store.sessions[sessionId].messages == [
           UserMessage(firstId, q, createdAt, None),
           UserMessage(userId, q, answeredAt, None),
           assistant.value]
  {
    var sent := Outgoing(question);
    if sent.None? {
      return None;
    }
    var q := sent.value;
    assert q == Trim(question) && q != "";
    SentQuestionAccepted(question);
    var posted := CreateWithQuestion(store, q, sessionId, firstId, userId, assistantId, createdAt, answeredAt, file);
    assistant := Some(posted);
  }

  /** The two posts of the as-written first message, for a question the backend accepts. */
  method CreateWithQuestion(
    store: Server.SessionStore, q: string, sessionId: Id,
    firstId: Id, userId: Id, assistantId: Id,
    createdAt: Timestamp, answeredAt: Timestamp, file: Option<Payload>)
    returns (assistant: Message)
    requires store.Valid() && sessionId !in store.sessions
    requires userId != assistantId && firstId != userId && firstId != assistantId
    requires !Server.QuestionRejected(Some(q)) && DeriveTitle(q).Some?
    modifies store
    ensures store.Valid()
    ensures assistant == AssistantFrom(assistantId, LoadTable(file), answeredAt)
    ensures store.order == old(store.order) + [sessionId]
    ensures forall k :: k in old(store.sessions) ==> k in store.sessions && store.sessions[k] == old(store.sessions)[k]
    ensures store.sessions.Keys == old(store.sessions).Keys + {sessionId}
    ensures store.sessions[sessionId].id == sessionId && store.sessions[sessionId].createdAt == createdAt
    ensures store.sessions[sessionId].title == DeriveTitle(q).value
    ensures store.sessions[sessionId].messages == [
      UserMessage(firstId, q, createdAt, None),
      UserMessage(userId, q, answeredAt, None),
      assistant]
  {
    var created := store.Create(DeriveTitle(q), Some(q), sessionId, firstId, createdAt);
    var first := UserMessage(firstId, q, createdAt, None);
    FindInSingleton(first, userId);
    FindInSingleton(first, assistantId);
    var posted := store.AppendExchange(sessionId, Some(q), userId, assistantId, answeredAt, file);
    assistant := posted.value;
    ThreeMessages(first, UserMessage(userId, q, answeredAt, None), assistant);
  }

  /** The same first message with the question posted once: the session is created
      with the derived title only, and then holds exactly the question and its answer. */
  method SendFirstMessageOnce(
    store: Server.SessionStore, question: string, sessionId: Id,
    userId: Id, assistantId: Id, createdAt: Timestamp, answeredAt: Timestamp, file: Option<Payload>)
    returns (assistant: Option<Message>)
    requires store.Valid() && sessionId !in store.sessions
    requires userId != assistantId
    modifies store
    ensures store.Valid()
    ensures Trim(question) == "" ==>
      assistant == None && store.sessions == old(store.sessions) && store.order == old(store.order)
    ensures Trim(question) != "" ==>
      && store.order == old(store.order) + [sessionId]
      && (forall k :: k in old(store.sessions) ==> k in store.sessions && store.sessions[k] == old(store.sessions)[k])
      && store.sessions[sessionId].id == sessionId && store.sessions[sessionId].createdAt == createdAt
    ensures Trim(question) != "" ==>
      var q := Trim(question);
      && assistant == Some(AssistantFrom(assistantId, LoadTable(file), answeredAt))
      && store.sessions.Keys == old(store.sessions).Keys + {sessionId}
      && store.sessions[sessionId].title == DeriveTitle(q).value
      && store.sessions[sessionId].messages == [UserMessage(userId, q, answeredAt, None), assistant.value]
  {
    var sent := Outgoing(question);
    if sent.None? {
      return None;
    }
    var q := sent.value;
    assert q == Trim(question) && q != "";
    SentQuestionAccepted(question);
    var posted := CreateThenAsk(store, q, sessionId, userId, assistantId, createdAt, answeredAt, file);
    assistant := Some(posted);
  }

  /** The two posts of the corrected first message, for a question the backend accepts. */
  method CreateThenAsk(
    store: Server.SessionStore, q: string, sessionId: Id,
    userId: Id, assistantId: Id, createdAt: Timestamp, answeredAt: Timestamp, file: Option<Payload>)
    returns (assistant: Message)
    requires store.Valid() && sessionId !in store.sessions
    requires userId != assistantId
    requires !Server.QuestionRejected(Some(q)) && DeriveTitle(q).Some?
    modifies store
    ensures store.Valid()
    ensures assistant == AssistantFrom(assistantId, LoadTable(file), answeredAt)
    ensures store.order == old(store.order) + [sessionId]
    ensures forall k :: k in old(store.sessions) ==> k in store.sessions && store.sessions[k] == old(store.sessions)[k]
    ensures store.sessions.Keys == old(store.sessions).Keys + {sessionId}
    ensures store.sessions[sessionId].id == sessionId && store.sessions[sessionId].createdAt == createdAt
    ensures store.sessions[sessionId].title == DeriveTitle(q).value
    ensures store.sessions[sessionId].messages == [UserMessage(userId, q, answeredAt, None), assistant]
  {
    var created := store.Create(DeriveTitle(q), None, sessionId, userId, createdAt);
    assert Server.FreshPair([], userId, assistantId);
    var posted := store.AppendExchange(sessionId, Some(q), userId, assistantId, answeredAt, file);
    assistant := posted.value;
    assert [] + [UserMessage(userId, q, answeredAt, None), assistant] == [UserMessage(userId, q, answeredAt, None), assistant];
  }

  /** The padded question of the example trims to "Hi". */
  lemma TypedQuestionTrims()
    ensures Trim(" Hi ") == "Hi"
  {
    assert !IsWhitespace('H') && !IsWhitespace('i') && IsBlank(" ");
    assert " Hi " == " " + "Hi" + " ";
    TrimPadded(" ", "Hi", " ");
  }

  /** A new chat started with " Hi " is titled "Hi"; as written the
      session then holds three messages, two of them the question; sent once, two. */
  method NewChatExample() returns (asWritten: seq<Message>, once: seq<Message>, title: string)
    ensures title == "Hi"
    ensures |asWritten| == 3 && asWritten[0] == asWritten[1].(id := asWritten[0].id, createdAt := asWritten[0].createdAt)
    ensures asWritten[0].UserMessage? && asWritten[0].text == "Hi"
    ensures |once| == 2 && once[0].UserMessage? && once[1].AssistantMessage?
  {
    var typed := " Hi ";
    TypedQuestionTrims();
    var store := new Server.SessionStore();
    var _ := SendFirstMessage(store, typed, "s1", "m1", "m2", "m3", "t1", "t2", None);
    asWritten := store.sessions["s1"].messages;
    title := store.sessions["s1"].title;
    var other := new Server.SessionStore();
    var _ := SendFirstMessageOnce(other, typed, "s1", "m2", "m3", "t1", "t2", None);
    once := other.sessions["s1"].messages;
  }
}
