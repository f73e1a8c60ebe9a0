/**
 * Properties of whole sequences of requests against one session cookie,
 * from the first visit on.
 */
module Interview {
  import opened Wrappers
  import opened Dialogue

  /** Each user message in a history that does not open with one yields
      exactly one exchange. */
  lemma {:induction false} ExchangesCount(h: seq<Msg>)
    requires h != [] && h[0].role != User
    ensures |Exchanges(h)| == CountRole(h, User)
    decreases |h|
  {
    if |h| >= 2 {
      var p := h[..|h| - 1];
      assert p[0] == h[0];
      ExchangesCount(p);
    }
  }

  /**
   * After any requests from a new visitor, the stored counter and log length
   * are the number of POSTs and each POST left one user message. The stored
   * assistant questions are the first question if the first request was a
   * GET (later GETs are not written back), plus one for each of the first
   * nine answers.
   */
  lemma {:induction false} ReplayShape(reqs: seq<Request>)
    requires reqs != []
    ensures var c := Replay(reqs).value;
      && c.count == |c.qaLog| == Posts(reqs)
      && CountRole(c.history, User) == Posts(reqs)
      && CountRole(c.history, Assistant) == OpensWithGet(reqs) + Min(Posts(reqs), MaxQuestions - 1)
      && |c.history| == 1 + OpensWithGet(reqs) + Posts(reqs) + Min(Posts(reqs), MaxQuestions - 1)
    decreases |reqs|
  {
    var pre, req := reqs[..|reqs| - 1], reqs[|reqs| - 1];
    if pre != [] {
      ReplayShape(pre);
      assert reqs[0] == pre[0];
    }
    assert Replay(reqs) == Saved(Replay(pre), req);
    assert Posts(reqs) == Posts(pre) + (if req.Post? then 1 else 0);
    if pre != [] && req.Get? {
      assert Replay(reqs) == Replay(pre);
    } else {
      IndexGrowth(Replay(pre), req);
    }
    ReplayStored(reqs);
  }

  /** What one request adds to the counter, the two kinds of message and the history. */
  lemma IndexGrowth(s: Option<Conversation>, req: Request)
    requires s.Some? ==> s.value.history != []
    ensures var c, d := Resume(s), Index(s, req).0;
      var asked := if req.Get? || c.count + 1 < MaxQuestions then 1 else 0;
      var answered := if req.Post? then 1 else 0;
      && d.count == c.count + answered
      && CountRole(d.history, User) == CountRole(c.history, User) + answered
      && CountRole(d.history, Assistant) == CountRole(c.history, Assistant) + asked
      && |d.history| == |c.history| + asked + answered
  {
    var c := Resume(s);
    match req
    case Get =>
      CountRoleSnoc(c.history, Msg(Assistant, Some(FirstQuestion)), User);
      CountRoleSnoc(c.history, Msg(Assistant, Some(FirstQuestion)), Assistant);
    case Post(answer, generated) =>
      var u := Msg(User, answer);
      CountRoleSnoc(c.history, u, User);
      CountRoleSnoc(c.history, u, Assistant);
      var res := Dialogue.Answer(c, answer, generated);
      if res.1.Next? {
        var a := Msg(Assistant, Some(res.1.question));
        assert res.0.history == (c.history + [u]) + [a];
        CountRoleSnoc(c.history + [u], a, User);
        CountRoleSnoc(c.history + [u], a, Assistant);
      }
  }

  /** Every request sequence from a new cookie leaves a stored session that
      keeps the invariant. */
  lemma {:induction false} ReplayStored(reqs: seq<Request>)
    ensures Stored(Replay(reqs))
    decreases |reqs|
  {
    if reqs != [] {
      var pre := reqs[..|reqs| - 1];
      ReplayStored(pre);
      IndexKeepsInvariant(Replay(pre), reqs[|reqs| - 1]);
      assert Replay(reqs) == Saved(Replay(pre), reqs[|reqs| - 1]);
    }
  }

  /** Requests only ever append: what the history and the log hold after some
      requests is a prefix of what they hold after any further ones, and the
      system prompt stays first. */
  lemma {:induction false} AppendOnly(reqs: seq<Request>, more: seq<Request>)
    requires reqs != []
    ensures Replay(reqs + more).Some?
    ensures Replay(reqs).value.history <= Replay(reqs + more).value.history
    ensures Replay(reqs).value.qaLog <= Replay(reqs + more).value.qaLog
    ensures Replay(reqs + more).value.history[0] == SystemMsg
    decreases |more|
  {
    ReplayStored(reqs + more);
    if more == [] {
      assert reqs + more == reqs;
    } else {
      var m, x := more[..|more| - 1], more[|more| - 1];
      assert reqs + more == (reqs + m) + [x];
      AppendOnly(reqs, m);
      ReplaySnoc(reqs + m, x);
      var a, b, e := Replay(reqs).value, Replay(reqs + m).value, Replay(reqs + more).value;
      PrefixTransitive(a.history, b.history, e.history);
      PrefixTransitive(a.qaLog, b.qaLog, e.qaLog);
    }
  }

  /** One more request is one more step of `index`, written back or not. */
  lemma ReplaySnoc(reqs: seq<Request>, req: Request)
    ensures Replay(reqs + [req]) == Saved(Replay(reqs), req)
  {
    assert (reqs + [req])[..|reqs|] == reqs;
  }

  lemma PrefixTransitive<T>(a: seq<T>, b: seq<T>, c: seq<T>)
    requires a <= b && b <= c
    ensures a <= c
  {
    assert b[..|a|] == a;
    assert c[..|b|][..|a|] == c[..|a|];
  }

  /** The n-th POST (counting from one) completes the conversation exactly when n is at least ten. */
  lemma ReplyToPost(reqs: seq<Request>, answer: Option<string>, generated: string)
    ensures Index(Replay(reqs), Post(answer, generated)).1 == Complete <==> Posts(reqs) + 1 >= MaxQuestions
  {
    if reqs != [] {
      ReplayShape(reqs);
    }
  }

  /** The stored history never holds more than ten assistant questions, however
      many GETs and answers there are. */
  lemma AssistantBound(reqs: seq<Request>)
    requires reqs != []
    ensures CountRole(Replay(reqs).value.history, Assistant) <= MaxQuestions
  {
    ReplayShape(reqs);
  }

  /** A POST after completion is still recorded, and the "question" it is paired
      with is the previous POST's answer. */
  lemma PostAfterComplete(reqs: seq<Request>, answer: Option<string>, generated: string)
    requires reqs != [] && reqs[|reqs| - 1].Post? && Posts(reqs) >= MaxQuestions
    ensures var c := Replay(reqs).value;
      var d := Index(Replay(reqs), Post(answer, generated)).0;
      && d.qaLog == c.qaLog + [QA(reqs[|reqs| - 1].answer, answer)]
      && d.count == Posts(reqs) + 1
  {
    CompletedEndsWithAnswer(reqs);
    var s := Replay(reqs);
    assert Index(s, Post(answer, generated)) == Dialogue.Answer(s.value, answer, generated);
  }

  /** A POST that completes the conversation leaves its own answer as the last message. */
  lemma CompletedEndsWithAnswer(reqs: seq<Request>)
    requires reqs != [] && reqs[|reqs| - 1].Post? && Posts(reqs) >= MaxQuestions
    ensures var c := Replay(reqs).value;
      && c.history[|c.history| - 1] == Msg(User, reqs[|reqs| - 1].answer)
      && c.count == Posts(reqs)
  {
    var pre, last := reqs[..|reqs| - 1], reqs[|reqs| - 1];
    assert Posts(reqs) == Posts(pre) + 1;
    ReplayShape(pre);
    var step := Dialogue.Answer(Replay(pre).value, last.answer, last.generated);
    assert Replay(reqs) == Some(step.0);
    assert step.1 == Complete;
  }

  /** The `complete` view lists one entry per POST. */
  lemma TranscriptLength(reqs: seq<Request>)
    ensures |Transcript(Replay(reqs))| == Posts(reqs)
  {
    if reqs != [] {
      ReplayShape(reqs);
    }
  }

  /** A GET on a session that already exists replies with the first question,
      but its in-place append is not written back: the cookie is unchanged. */
  lemma GetOnStoredSession(reqs: seq<Request>)
    requires reqs != []
    ensures Index(Replay(reqs), Get).1 == Next(FirstQuestion)
    ensures Replay(reqs + [Get]) == Replay(reqs)
  {
    ReplaySnoc(reqs, Get);
  }

  /** So a GET in the middle of an interview changes nothing that follows. */
  lemma {:induction false} GetMidInterview(reqs: seq<Request>, more: seq<Request>)
    requires reqs != []
    ensures Replay(reqs + [Get] + more) == Replay(reqs + more)
    decreases |more|
  {
    if more == [] {
      assert reqs + [Get] + more == reqs + [Get];
      assert reqs + more == reqs;
      GetOnStoredSession(reqs);
    } else {
      var m, x := more[..|more| - 1], more[|more| - 1];
      assert reqs + [Get] + more == (reqs + [Get] + m) + [x];
      assert reqs + more == (reqs + m) + [x];
      GetMidInterview(reqs, m);
      ReplaySnoc(reqs + [Get] + m, x);
      ReplaySnoc(reqs + m, x);
    }
  }

  /** Two GETs from a new visitor store the first question once. */
  lemma RepeatedGet()
    ensures Replay([Get, Get]).value.history == [SystemMsg, Msg(Assistant, Some(FirstQuestion))]
  {
    assert [Get, Get][..1] == [Get];
    assert [Get][..0] == [];
  }

  /** A POST before any GET pairs the answer with the system prompt. */
  lemma PostBeforeGet(answer: Option<string>, generated: string)
    ensures Replay([Post(answer, generated)]).value.qaLog == [QA(Some(SystemPrompt), answer)]
  {
    assert [Post(answer, generated)][..0] == [];
  }
}
