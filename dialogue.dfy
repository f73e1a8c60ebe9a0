/**
 * The per-session state of the questionnaire bot as a value: the chat
 * history sent to the language model, the question/answer log, and the
 * question counter, with the transitions of the `index` view as functions.
 * The class in session.dfy updates the same state in place and is proved
 * equal to these functions.
 */
module Dialogue {
  import opened Wrappers
  import opened PyText

  datatype Role = System | User | Assistant

  /** One chat message. The content of a user message is the submitted form
      field, which is None when the field is missing. */
  datatype Msg = Msg(role: Role, content: Option<string>)

  /** One entry of the question/answer log. */
  datatype QA = QA(question: Option<string>, answer: Option<string>)

  /** What a POST leads to: the completion page, or the next question. */
  datatype Reply = Complete | Next(question: string)

  /** The three session keys `history`, `qa_log` and `question_count`. */
  datatype Conversation = Conversation(history: seq<Msg>, qaLog: seq<QA>, count: int)

  /** One request to the `index` view; a POST carries the form's answer and the
      text the language model replied with (used only if another question is due). */
  datatype Request = Get | Post(answer: Option<string>, generated: string)

  const MaxQuestions: int := 10
  const FirstQuestion: string := "What is your product and what does it do?"
  /** The instructions given to the language model; their wording plays no part here. */
  const SystemPrompt: string := "business discovery instructions"
  const SystemMsg: Msg := Msg(System, Some(SystemPrompt))

  /** Number of messages in `h` with the given role. */
  function CountRole(h: seq<Msg>, role: Role): nat
    decreases |h|
  {
    if h == [] then 0
    else CountRole(h[..|h| - 1], role) + (if h[|h| - 1].role == role then 1 else 0)
  }

  /** The question/answer pairs a history records: every user message paired
      with the content of the message just before it. */
  function Exchanges(h: seq<Msg>): seq<QA>
    decreases |h|
  {
    if |h| < 2 then []
    else
      Exchanges(h[..|h| - 1])
      + (if h[|h| - 1].role == User then [QA(h[|h| - 2].content, h[|h| - 1].content)] else [])
  }

  /** What every stored session satisfies: the system prompt opens the history
      and appears nowhere else, the log is exactly the history's exchanges, and
      the counter is the length of the log. */
  predicate Invariant(c: Conversation) {
    && |c.history| >= 1
    && c.history[0] == SystemMsg
    && (forall j :: 1 <= j < |c.history| ==> c.history[j].role != System)
    && c.qaLog == Exchanges(c.history)
    && c.count == |c.qaLog|
  }

  /** A session cookie: either empty, or holding a conversation that keeps the invariant. */
  predicate Stored(s: Option<Conversation>) {
    s.None? || Invariant(s.value)
  }

  /** The state a new session is given. */
  function Fresh(): (c: Conversation)
    ensures c.history == [SystemMsg] && c.qaLog == [] && c.count == 0
    ensures Invariant(c)
    ensures CountRole(c.history, Assistant) == 0 && CountRole(c.history, User) == 0
  {
    Conversation([SystemMsg], [], 0)
  }

  /** The session's state, created on the first request that finds no history. */
  function Resume(s: Option<Conversation>): Conversation {
    match s
    case None => Fresh()
    case Some(c) => c
  }

  /** GET: the first question is asked, whatever was asked before. */
  function Start(c: Conversation): (d: Conversation)
    ensures d.history == c.history + [Msg(Assistant, Some(FirstQuestion))]
    ensures d.qaLog == c.qaLog && d.count == c.count
  {
    c.(history := c.history + [Msg(Assistant, Some(FirstQuestion))])
  }

  /**
   * POST: the answer is paired with the content of the last history message
   * and appended as a user message, and the counter goes up by one. From the
   * tenth answer on the conversation is complete and nothing else is added;
   * before that the stripped model reply is appended and asked next.
   */
  function Answer(c: Conversation, answer: Option<string>, generated: string): (res: (Conversation, Reply))
    requires c.history != []
    ensures res.0.qaLog == c.qaLog + [QA(c.history[|c.history| - 1].content, answer)]
    ensures res.0.count == c.count + 1
    ensures res.1 == Complete <==> c.count + 1 >= MaxQuestions
    ensures res.1 == Complete ==> res.0.history == c.history + [Msg(User, answer)]
    ensures res.1.Next? ==>
      && res.1.question == Strip(generated)
      && res.0.history == c.history + [Msg(User, answer), Msg(Assistant, Some(res.1.question))]
  {
    var current := c.history[|c.history| - 1].content;
    var d := Conversation(c.history + [Msg(User, answer)], c.qaLog + [QA(current, answer)], c.count + 1);
    if d.count >= MaxQuestions then
      (d, Complete)
    else
      var next := Strip(generated);
      (d.(history := d.history + [Msg(Assistant, Some(next))]), Next(next))
  }

  /** One more message adds at most one exchange. */
  lemma ExchangesSnoc(h: seq<Msg>, m: Msg)
    requires h != []
    ensures Exchanges(h + [m])
         == Exchanges(h) + (if m.role == User then [QA(h[|h| - 1].content, m.content)] else [])
  {
    var h' := h + [m];
    assert h'[..|h'| - 1] == h;
  }

  /** One more message adds one to the count of its role only. */
  lemma CountRoleSnoc(h: seq<Msg>, m: Msg, role: Role)
    ensures CountRole(h + [m], role) == CountRole(h, role) + (if m.role == role then 1 else 0)
  {
    var h' := h + [m];
    assert h'[..|h'| - 1] == h;
  }

  /** A GET keeps the session invariant. */
  lemma StartKeepsInvariant(c: Conversation)
    requires Invariant(c)
    ensures Invariant(Start(c))
  {
    ExchangesSnoc(c.history, Msg(Assistant, Some(FirstQuestion)));
  }

  /** A POST keeps the session invariant: the new log entry is exactly the
      exchange the new user message forms with the message before it. */
  lemma AnswerKeepsInvariant(c: Conversation, answer: Option<string>, generated: string)
    requires Invariant(c)
    ensures Invariant(Answer(c, answer, generated).0)
  {
    var u := Msg(User, answer);
    ExchangesSnoc(c.history, u);
    var res := Answer(c, answer, generated);
    if res.1.Next? {
      var a := Msg(Assistant, Some(res.1.question));
      ExchangesSnoc(c.history + [u], a);
      assert res.0.history == (c.history + [u]) + [a];
    }
  }

  /** The `index` view: the session is created if absent, then a GET asks the
      first question and a POST records an answer. Nothing is ever removed. */
  function Index(s: Option<Conversation>, req: Request): (res: (Conversation, Reply))
    requires s.Some? ==> s.value.history != []
    ensures req.Get? ==> res.1 == Next(FirstQuestion)
    ensures Resume(s).history < res.0.history && Resume(s).qaLog <= res.0.qaLog
  {
    var c := Resume(s);
    match req
    case Get => (Start(c), Next(FirstQuestion))
    case Post(answer, generated) => Answer(c, answer, generated)
  }

  /** Every request leaves a stored session that keeps the invariant. */
  lemma IndexKeepsInvariant(s: Option<Conversation>, req: Request)
    requires Stored(s)
    ensures Invariant(Index(s, req).0)
  {
    match req
    case Get => StartKeepsInvariant(Resume(s));
    case Post(answer, generated) => AnswerKeepsInvariant(Resume(s), answer, generated);
  }

  /** The `complete` view: the stored log, or an empty one for a session that has none. */
  function Transcript(s: Option<Conversation>): (t: seq<QA>)
    ensures s.None? ==> t == []
    ensures Stored(s) && s.Some? ==> t == Exchanges(s.value.history) && |t| == s.value.count
  {
    match s
    case None => []
    case Some(c) => c.qaLog
  }

  /**
   * Whether the request marks the session modified. Flask writes the session
   * cookie back only then (the session is never made permanent): assigning a
   * key marks it, as seeding a new session and `question_count += 1` do, but
   * appending to a stored list in place does not. So a GET on a session that
   * already has a history is not written back.
   */
  predicate Modified(s: Option<Conversation>, req: Request) {
    s.None? || req.Post?
  }

  /** The cookie after one request: the request's final state if the session
      was marked modified, the cookie as it was otherwise. */
  function Saved(s: Option<Conversation>, req: Request): (t: Option<Conversation>)
    requires s.Some? ==> s.value.history != []
    ensures Modified(s, req) ==> t == Some(Index(s, req).0)
    ensures !Modified(s, req) ==> t == s
  {
    if Modified(s, req) then Some(Index(s, req).0) else s
  }

  /** The cookie after a sequence of requests from a new visitor. */
  function Replay(reqs: seq<Request>): (s: Option<Conversation>)
    ensures s.None? <==> reqs == []
    ensures s.Some? ==> s.value.history != []
    decreases |reqs|
  {
    if reqs == [] then None
    else Saved(Replay(reqs[..|reqs| - 1]), reqs[|reqs| - 1])
  }

  /** 1 if the first request is a GET, which seeds the session and stores the first question. */
  function OpensWithGet(reqs: seq<Request>): nat {
    if reqs != [] && reqs[0].Get? then 1 else 0
  }

  function Posts(reqs: seq<Request>): nat
    decreases |reqs|
  {
    if reqs == [] then 0 else Posts(reqs[..|reqs| - 1]) + (if reqs[|reqs| - 1].Post? then 1 else 0)
  }

  function Min(a: int, b: int): int {
    if a <= b then a else b
  }
}
