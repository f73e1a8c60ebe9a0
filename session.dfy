/**
 * The Flask session behind the `index` and `complete` views. `cookie` is
 * what the visitor's session cookie holds between requests. During a
 * request the session's keys are fields updated in place: `started` says
 * whether the `history` key is present (the three keys are always set
 * together), and `modified` is Flask's flag that decides whether the
 * cookie is written back when the request ends.
 */
module App {
  import opened Wrappers
  import opened PyText
  import opened Dialogue

  class Session {
    var cookie: Option<Conversation>
    var started: bool
    var history: seq<Msg>
    var qaLog: seq<QA>
    var count: int
    var modified: bool

    /** The session as the current request sees it, or None while it has no keys. */
    ghost function Value(): Option<Conversation>
      reads this
    {
      if started then Some(Conversation(history, qaLog, count)) else None
    }

    ghost predicate Valid()
      reads this
    {
      Stored(cookie) && Stored(Value())
    }

    /** A new visitor, whose cookie holds no session keys. */
    constructor ()
      ensures Valid() && cookie == None && Value() == None && !modified
    {
      cookie := None;
      started, modified := false, false;
      history, qaLog, count := [], [], 0;
    }

    /** A request begins: the session is loaded from the cookie, unmodified. */
    method Open()
      requires Valid()
      modifies this
      ensures Valid() && cookie == old(cookie)
      ensures Value() == cookie && !modified
    {
      match cookie {
        case None =>
          started := false;
        case Some(c) =>
          started := true;
          history, qaLog, count := c.history, c.qaLog, c.count;
      }
      modified := false;
    }

    /** Seeds history with the system prompt, an empty log and a zero counter,
        unless the session already has a history. Assigning the keys marks the
        session modified. */
    method InitIfAbsent()
      requires Valid()
      modifies this
      ensures Valid() && started && cookie == old(cookie)
      ensures Value() == Some(Resume(old(Value())))
      ensures modified == (old(modified) || !old(started))
    {
      if !started {
        history := [SystemMsg];
        qaLog := [];
        count := 0;
        started := true;
        modified := true;
      }
    }

    /** The GET branch of `index`: appends the first question in place, which
        does not mark the session modified, and returns it. */
    method Start() returns (question: string)
      requires Valid()
      modifies this
      ensures Valid() && started && cookie == old(cookie)
      ensures question == FirstQuestion
      ensures Value() == Some(Dialogue.Start(Resume(old(Value()))))
      ensures Value() == Some(Index(old(Value()), Get).0) && Next(question) == Index(old(Value()), Get).1
      ensures modified == (old(modified) || old(Value()).None?)
    {
      InitIfAbsent();
      StartKeepsInvariant(Conversation(history, qaLog, count));
      question := FirstQuestion;
      history := history + [Msg(Assistant, Some(question))];
    }

    /** The POST branch of `index`: records the answer and either completes or
        appends and returns the stripped model reply as the next question. The
        counter's `+=` assigns a key, so the session is marked modified. */
    method Answer(answer: Option<string>, generated: string) returns (r: Reply)
      requires Valid()
      modifies this
      ensures Valid() && started && modified && cookie == old(cookie)
      ensures (Conversation(history, qaLog, count), r) == Dialogue.Answer(Resume(old(Value())), answer, generated)
      ensures (Value().value, r) == Index(old(Value()), Post(answer, generated))
    {
      InitIfAbsent();
      ghost var before := Conversation(history, qaLog, count);
      AnswerKeepsInvariant(before, answer, generated);
      var current := history[|history| - 1].content;
      qaLog := qaLog + [QA(current, answer)];
      history := history + [Msg(User, answer)];
      count := count + 1;
      modified := true;
      if count >= MaxQuestions {
        r := Reply.Complete;
      } else {
        var next := Strip(generated);
        history := history + [Msg(Assistant, Some(next))];
        r := Next(next);
      }
      assert (Conversation(history, qaLog, count), r) == Dialogue.Answer(before, answer, generated);
    }

    /** A request ends: the cookie is rewritten only if the session was modified. */
    method Close()
      requires Valid()
      modifies this
      ensures Valid() && Value() == old(Value()) && modified == old(modified)
      ensures cookie == if modified then Value() else old(cookie)
    {
      if modified {
        cookie := if started then Some(Conversation(history, qaLog, count)) else None;
      }
    }

    /** One whole request to the `index` view: load, handle, write back if modified. */
    method Handle(req: Request) returns (r: Reply)
      requires Valid()
      modifies this
      ensures Valid()
      ensures r == Index(old(cookie), req).1
      ensures cookie == Saved(old(cookie), req)
    {
      Open();
      match req {
        case Get =>
          var question := Start();
          r := Next(question);
        case Post(answer, generated) =>
          r := Answer(answer, generated);
      }
      Close();
    }

    /** The `complete` view: the log stored in the cookie, empty if it has none.
        Reading does not mark the session modified, so nothing is written back. */
    method Complete() returns (log: seq<QA>)
      requires Valid()
      ensures log == Transcript(cookie)
      ensures cookie.None? ==> log == []
      ensures cookie.Some? ==> log == Exchanges(cookie.value.history) && |log| == cookie.value.count
    {
      log := if cookie.Some? then cookie.value.qaLog else [];
    }
  }
}
