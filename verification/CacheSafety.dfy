/** What holds of the verifier cache in every state, however requests are interleaved. */
module CacheSafety {
  import opened Wrappers
  import opened VerifierCache

  /** The request has a thread of its own. */
  predicate Live(s: State, r: nat) {
    r in s.phases && (s.phases[r].Holding? || s.phases[r].Waiting? || s.phases[r].Answered?)
  }

  ghost predicate Cached(s: State, id: nat) {
    exists i :: 0 <= i < |s.cache| && s.cache[i].id == id
  }

  ghost predicate Used(s: State, id: nat) {
    exists r :: Live(s, r) && s.phases[r].thread.id == id
  }

  // ----- the parts of the invariant -----

  /** No thread is cached twice, and no cached thread has stopped. */
  ghost predicate CacheSound(s: State) {
    && (forall i :: 0 <= i < |s.cache| ==> s.cache[i].id < s.created && s.cache[i].id !in s.retired)
    && forall i, j :: 0 <= i < j < |s.cache| ==> s.cache[i].id != s.cache[j].id
  }

  ghost predicate UseSound(server: Server, s: State, r: nat) {
    Live(s, r) ==>
      var thread := s.phases[r].thread;
      && thread.id < s.created && thread.id !in s.retired && !Cached(s, thread.id)
      && thread.config == server.request(r).config
  }

  /** A thread in use is neither cached nor used by another request, and has the configuration asked for. */
  ghost predicate UsesSound(server: Server, s: State) {
    && (forall r :: UseSound(server, s, r))
    && forall q, r :: q != r && Live(s, q) && Live(s, r) ==> s.phases[q].thread.id != s.phases[r].thread.id
  }

  /** Every thread that was created is cached, in use or stopped. */
  ghost predicate NoneLost(s: State) {
    && (forall id: nat :: id < s.created ==> id in s.retired || Cached(s, id) || Used(s, id))
    && forall id :: id in s.retired ==> id < s.created
  }

  /** A thread has one pending message if a request waits for it, and none otherwise. */
  ghost predicate MailSound(s: State, t: nat) {
    Mail(s, t) == [] ||
    (|Mail(s, t)| == 1 && var r := Mail(s, t)[0]; r in s.phases && s.phases[r].Waiting? && s.phases[r].thread.id == t)
  }

  ghost predicate WaitSound(s: State, r: nat) {
    r in s.phases && s.phases[r].Waiting? ==> Mail(s, s.phases[r].thread.id) == [r]
  }

  ghost predicate MessagesSound(s: State) {
    (forall t :: MailSound(s, t)) && forall r :: WaitSound(s, r)
  }

  function Bound(server: Server): nat {
    if server.cacheSize == 0 then 1 else server.cacheSize
  }

  /** The cache is bounded and ordered from the most to the least recently returned thread. */
  ghost predicate OrderSound(server: Server, s: State) {
    && |s.cache| <= Bound(server)
    && (forall i :: 0 <= i < |s.cache| ==> s.cache[i].id in s.returned && s.returned[s.cache[i].id] < s.clock)
    && forall i, j :: 0 <= i < j < |s.cache| ==> s.returned[s.cache[j].id] < s.returned[s.cache[i].id]
  }

  ghost predicate AnswerSound(server: Server, s: State, r: nat) {
    r in s.phases ==>
      var expected := server.verify(server.request(r).config, server.request(r).program);
      && (s.phases[r].Answered? ==> s.phases[r].answer == expected)
      && (s.phases[r].Done? && s.phases[r].outcome.Some? ==> s.phases[r].outcome.value == expected)
  }

  /** Every answer is that of the request's own program under its own configuration. */
  ghost predicate AnswersSound(server: Server, s: State) {
    forall r :: AnswerSound(server, s, r)
  }

  ghost predicate Inv(server: Server, s: State) {
    && CacheSound(s) && UsesSound(server, s) && NoneLost(s) && MessagesSound(s) && OrderSound(server, s)
    && AnswersSound(server, s)
  }

  // ----- every action keeps it -----

  lemma WithoutAt(threads: seq<Thread>, index: nat, i: nat)
    requires index < |threads| && i < |threads| - 1
    ensures |Without(threads, index)| == |threads| - 1
    ensures Without(threads, index)[i] == threads[if i < index then i else i + 1]
  {
  }

  lemma WithoutCached(s: State, next: State, index: nat)
    requires CacheSound(s) && index < |s.cache| && next.cache == Without(s.cache, index)
    ensures forall id :: Cached(next, id) <==> Cached(s, id) && id != s.cache[index].id
  {
    forall id
      ensures Cached(next, id) <==> Cached(s, id) && id != s.cache[index].id
    {
      if Cached(next, id) {
        var i :| 0 <= i < |next.cache| && next.cache[i].id == id;
        WithoutAt(s.cache, index, i);
      }
      if Cached(s, id) && id != s.cache[index].id {
        var i :| 0 <= i < |s.cache| && s.cache[i].id == id;
        WithoutAt(s.cache, index, if i < index then i else i - 1);
        assert next.cache[if i < index then i else i - 1].id == id;
      }
    }
  }

  ghost predicate Owned(s: State, r: nat, id: nat) {
    Live(s, r) && s.phases[r].thread.id == id
  }

  /** Only the phase of `r` has changed. */
  ghost predicate OnlyPhase(s: State, next: State, r: nat) {
    forall q :: q != r ==> (q in next.phases <==> q in s.phases) && (q in s.phases ==> next.phases[q] == s.phases[q])
  }

  /** What the cache holds or has stopped comes from the cache, from `r`, or was stopped before. */
  ghost predicate OnlyMoved(s: State, next: State, r: nat) {
    && (forall id :: Cached(next, id) ==> Cached(s, id) || Owned(s, r, id))
    && (forall id :: id in next.retired ==> id in s.retired || Cached(s, id) || Owned(s, r, id))
    && forall id: nat :: Owned(next, r, id) ==> Owned(s, r, id) || Cached(s, id) || id >= s.created
  }

  lemma OtherKeepsUse(server: Server, s: State, next: State, r: nat, q: nat)
    requires UsesSound(server, s) && OnlyPhase(s, next, r) && OnlyMoved(s, next, r) && s.created <= next.created
    requires q != r
    ensures UseSound(server, next, q)
    ensures Live(next, q) && Live(next, r) ==> next.phases[q].thread.id != next.phases[r].thread.id
  {
    assert UseSound(server, s, q);
    if Live(next, q) {
      var id := next.phases[q].thread.id;
      assert Live(s, q) && s.phases[q].thread.id == id && !Cached(s, id) && !Owned(s, r, id);
      assert !Cached(next, id) && id !in next.retired && !Owned(next, r, id);
    }
  }

  lemma UseKept(server: Server, s: State, next: State, r: nat)
    requires UsesSound(server, s) && OnlyPhase(s, next, r) && OnlyMoved(s, next, r) && s.created <= next.created
    requires UseSound(server, next, r)
    ensures UsesSound(server, next)
  {
    forall q
      ensures UseSound(server, next, q)
    {
      if q != r {
        OtherKeepsUse(server, s, next, r, q);
      }
    }
    forall p, q | p != q && Live(next, p) && Live(next, q)
      ensures next.phases[p].thread.id != next.phases[q].thread.id
    {
      if p == r {
        OtherKeepsUse(server, s, next, r, q);
      } else if q == r {
        OtherKeepsUse(server, s, next, r, p);
      } else {
        assert Live(s, p) && Live(s, q);
      }
    }
  }

  /** What was cached, or used by `r`, or is new, is somewhere. */
  ghost predicate Accounted(s: State, next: State, r: nat, id: nat) {
    id < next.created && (id >= s.created || id in s.retired || Cached(s, id) || Owned(s, r, id)) ==>
      id in next.retired || Cached(next, id) || Owned(next, r, id)
  }

  lemma NoneLostKept(s: State, next: State, r: nat)
    requires NoneLost(s) && OnlyPhase(s, next, r) && s.created <= next.created
    requires forall id :: id in next.retired ==> id < next.created
    requires forall id: nat :: Accounted(s, next, r, id)
    ensures NoneLost(next)
  {
    forall id: nat | id < next.created
      ensures id in next.retired || Cached(next, id) || Used(next, id)
    {
      assert Accounted(s, next, r, id);
      if !(id in next.retired || Cached(next, id) || Owned(next, r, id)) {
        assert id in s.retired || Cached(s, id) || Used(s, id);
        var q :| Live(s, q) && s.phases[q].thread.id == id;
        assert Live(next, q) && next.phases[q].thread.id == id;
      }
    }
  }

  lemma MailKept(s: State, next: State, r: nat)
    requires MessagesSound(s) && OnlyPhase(s, next, r) && next.mail == s.mail
    requires !(r in s.phases && s.phases[r].Waiting?) && !(r in next.phases && next.phases[r].Waiting?)
    ensures MessagesSound(next)
  {
    forall t
      ensures MailSound(next, t)
    {
      assert MailSound(s, t);
    }
    forall q
      ensures WaitSound(next, q)
    {
      assert WaitSound(s, q);
    }
  }

  lemma AnswersKept(server: Server, s: State, next: State, r: nat)
    requires AnswersSound(server, s) && OnlyPhase(s, next, r) && AnswerSound(server, next, r)
    ensures AnswersSound(server, next)
  {
    forall q
      ensures AnswerSound(server, next, q)
    {
      assert AnswerSound(server, s, q);
    }
  }

  lemma WithoutSound(server: Server, s: State, next: State, index: nat)
    requires CacheSound(s) && OrderSound(server, s) && index < |s.cache| && next.cache == Without(s.cache, index)
    requires next.created == s.created && next.retired == s.retired
    requires next.returned == s.returned && next.clock == s.clock
    ensures CacheSound(next) && OrderSound(server, next)
  {
    forall i | 0 <= i < |next.cache|
      ensures next.cache[i] == s.cache[if i < index then i else i + 1]
    {
      WithoutAt(s.cache, index, i);
    }
  }

  lemma TakeCached(server: Server, s: State, r: nat, index: nat)
    requires Inv(server, s) && r !in s.phases && Position(s.cache, server.request(r).config) == Some(index)
    ensures Inv(server, Next(server, s, TakeOut(r)).value)
  {
    var next := Next(server, s, TakeOut(r)).value;
    var id := s.cache[index].id;
    assert Cached(s, id);
    WithoutCached(s, next, index);
    WithoutSound(server, s, next, index);
    assert OnlyMoved(s, next, r);
    UseKept(server, s, next, r);
    NoneLostKept(s, next, r);
    MailKept(s, next, r);
    AnswersKept(server, s, next, r);
  }

  lemma TakeNew(server: Server, s: State, r: nat)
    requires Inv(server, s) && r !in s.phases && Position(s.cache, server.request(r).config).None?
    ensures Inv(server, Next(server, s, TakeOut(r)).value)
  {
    var next := Next(server, s, TakeOut(r)).value;
    assert forall id :: Cached(next, id) <==> Cached(s, id);
    assert !Cached(s, s.created);
    assert OnlyMoved(s, next, r);
    UseKept(server, s, next, r);
    NoneLostKept(s, next, r);
    MailKept(s, next, r);
    AnswersKept(server, s, next, r);
  }

  lemma SendKeeps(server: Server, s: State, r: nat)
    requires Inv(server, s) && r in s.phases && s.phases[r].Holding?
    ensures Inv(server, Next(server, s, Send(r)).value)
  {
    var next := Next(server, s, Send(r)).value;
    var id := s.phases[r].thread.id;
    HoldingHasNoMail(server, s, r);
    assert forall id :: Cached(next, id) <==> Cached(s, id);
    assert UseSound(server, s, r) && Live(s, r);
    assert OnlyMoved(s, next, r);
    UseKept(server, s, next, r);
    NoneLostKept(s, next, r);
    AnswersKept(server, s, next, r);
    forall t
      ensures MailSound(next, t)
    {
      assert MailSound(s, t);
    }
    forall q
      ensures WaitSound(next, q)
    {
      assert WaitSound(s, q);
      assert q != r && Live(s, q) ==> s.phases[q].thread.id != id;
    }
  }

  /** A thread that is held but has not been sent anything has no message. */
  lemma HoldingHasNoMail(server: Server, s: State, r: nat)
    requires UsesSound(server, s) && MessagesSound(s) && r in s.phases && s.phases[r].Holding?
    ensures Mail(s, s.phases[r].thread.id) == []
  {
    var t := s.phases[r].thread.id;
    assert MailSound(s, t) && Live(s, r);
    if Mail(s, t) != [] {
      assert Live(s, Mail(s, t)[0]);
    }
  }

  lemma ReceiveKeeps(server: Server, s: State, t: nat, panics: bool)
    requires Inv(server, s) && Receive(server, s, t, panics).Some?
    ensures Inv(server, Receive(server, s, t, panics).value)
  {
    var next := Receive(server, s, t, panics).value;
    var r := Mail(s, t)[0];
    assert MailSound(s, t) && Live(s, r) && UseSound(server, s, r) && Owned(s, r, t);
    assert forall id :: Cached(next, id) <==> Cached(s, id);
    assert OnlyMoved(s, next, r);
    UseKept(server, s, next, r);
    NoneLostKept(s, next, r);
    AnswersKept(server, s, next, r);
    forall u
      ensures MailSound(next, u)
    {
      assert MailSound(s, u);
    }
    forall q
      ensures WaitSound(next, q)
    {
      assert WaitSound(s, q);
    }
  }

  // ----- putting back -----

  lemma ReturnedAt(threads: seq<Thread>, cacheSize: nat, thread: Thread, i: nat)
    requires i < |Returned(threads, cacheSize, thread)|
    ensures Returned(threads, cacheSize, thread)[i] == if i == 0 then thread else threads[i - 1]
    ensures |Returned(threads, cacheSize, thread)| ==
            if |threads| >= cacheSize && threads != [] then |threads| else |threads| + 1
  {
  }

  lemma ReturnedCached(server: Server, s: State, next: State, thread: Thread)
    requires CacheSound(s) && next.cache == Returned(s.cache, server.cacheSize, thread)
    ensures forall id :: Cached(next, id) <==>
              id == thread.id || (Cached(s, id) && id !in Evicted(s.cache, server.cacheSize))
  {
    assert next.cache[0] == thread;
    forall id
      ensures Cached(next, id) <==> id == thread.id || (Cached(s, id) && id !in Evicted(s.cache, server.cacheSize))
    {
      if Cached(next, id) && id != thread.id {
        var i :| 0 <= i < |next.cache| && next.cache[i].id == id;
        ReturnedAt(s.cache, server.cacheSize, thread, i);
      }
      if Cached(s, id) && id !in Evicted(s.cache, server.cacheSize) {
        var i :| 0 <= i < |s.cache| && s.cache[i].id == id;
        assert next.cache[i + 1] == s.cache[i];
      }
    }
  }

  lemma ReturnedSound(server: Server, s: State, next: State, r: nat)
    requires Inv(server, s) && r in s.phases && s.phases[r].Answered? && next == Next(server, s, PutBack(r)).value
    ensures CacheSound(next) && OrderSound(server, next)
  {
    var thread := s.phases[r].thread;
    assert Live(s, r) && UseSound(server, s, r) && !Cached(s, thread.id);
    forall i | 0 <= i < |next.cache|
      ensures next.cache[i] == if i == 0 then thread else s.cache[i - 1]
    {
      ReturnedAt(s.cache, server.cacheSize, thread, i);
    }
    ReturnedAt(s.cache, server.cacheSize, thread, 0);
    forall i | 0 < i < |next.cache|
      ensures next.cache[i].id != thread.id
    {
      assert Cached(s, s.cache[i - 1].id);
    }
  }

  lemma PutBackKeeps(server: Server, s: State, r: nat)
    requires Inv(server, s) && r in s.phases && s.phases[r].Answered?
    ensures Inv(server, Next(server, s, PutBack(r)).value)
  {
    var next := Next(server, s, PutBack(r)).value;
    var thread := s.phases[r].thread;
    assert Live(s, r) && UseSound(server, s, r) && AnswerSound(server, s, r) && Owned(s, r, thread.id);
    ReturnedSound(server, s, next, r);
    ReturnedCached(server, s, next, thread);
    assert forall id :: id in Evicted(s.cache, server.cacheSize) ==> Cached(s, id);
    assert OnlyMoved(s, next, r);
    UseKept(server, s, next, r);
    NoneLostKept(s, next, r);
    MailKept(s, next, r);
    AnswersKept(server, s, next, r);
  }

  lemma GiveUpKeeps(server: Server, s: State, r: nat)
    requires Inv(server, s) && r in s.phases && s.phases[r].Canceled?
    ensures Inv(server, Next(server, s, GiveUp(r)).value)
  {
    var next := Next(server, s, GiveUp(r)).value;
    assert forall id :: Cached(next, id) <==> Cached(s, id);
    assert OnlyMoved(s, next, r);
    UseKept(server, s, next, r);
    NoneLostKept(s, next, r);
    MailKept(s, next, r);
    AnswersKept(server, s, next, r);
  }

  lemma NextKeeps(server: Server, s: State, action: Action)
    requires Inv(server, s) && Next(server, s, action).Some?
    ensures Inv(server, Next(server, s, action).value)
  {
    match action
    case TakeOut(r) =>
      var index := Position(s.cache, server.request(r).config);
      if index.Some? {
        TakeCached(server, s, r, index.value);
      } else {
        TakeNew(server, s, r);
      }
    case Send(r) => SendKeeps(server, s, r);
    case Answer(t) => ReceiveKeeps(server, s, t, false);
    case Panic(t) => ReceiveKeeps(server, s, t, true);
    case PutBack(r) => PutBackKeeps(server, s, r);
    case GiveUp(r) => GiveUpKeeps(server, s, r);
  }

  /** In every state that any interleaving of any requests leads to, the invariant holds. */
  lemma {:induction false} AlwaysSafe(server: Server, actions: seq<Action>)
    requires Run(server, actions).Some?
    ensures Inv(server, Run(server, actions).value)
    decreases |actions|
  {
    if actions == [] {
      assert forall id :: !Cached(INITIAL, id) && !Used(INITIAL, id);
    } else {
      var k := |actions| - 1;
      AlwaysSafe(server, actions[..k]);
      NextKeeps(server, Run(server, actions[..k]).value, actions[k]);
    }
  }

  // ----- consequences -----

  /** The action that a request takes next, or that its thread takes for it. */
  function NextAction(phase: Phase, r: nat): Option<Action> {
    match phase
    case Holding(_) => Some(Send(r))
    case Waiting(thread) => Some(Answer(thread.id))
    case Answered(_, _) => Some(PutBack(r))
    case Canceled(_) => Some(GiveUp(r))
    case Done(_) => None
  }

  /**
   No request gets stuck: unless it is done, its next action is possible, and its thread has
   not stopped before that.
   */
  lemma NeverStuck(server: Server, actions: seq<Action>, r: nat)
    requires Run(server, actions).Some? && r in Run(server, actions).value.phases
    ensures var s := Run(server, actions).value;
            var action := NextAction(s.phases[r], r);
            && (action.None? <==> s.phases[r].Done?)
            && (action.Some? ==> Next(server, s, action.value).Some?)
            && (Live(s, r) ==> s.phases[r].thread.id !in s.retired)
  {
    AlwaysSafe(server, actions);
    var s := Run(server, actions).value;
    assert WaitSound(s, r) && UseSound(server, s, r);
  }

  /** A cached thread is taken by the most recently returned one of its configuration. */
  lemma TakesMostRecent(server: Server, s: State, r: nat, i: nat)
    requires Inv(server, s) && i < |s.cache| && s.cache[i].config == server.request(r).config
    ensures var index := Position(s.cache, server.request(r).config);
            index.Some? && s.returned[s.cache[i].id] <= s.returned[s.cache[index.value].id]
  {
    var index := Position(s.cache, server.request(r).config);
    assert index.Some? && index.value <= i;
  }

  /** What a full cache loses is the thread that was returned least recently, and nothing else. */
  lemma EvictsLeastRecent(server: Server, s: State, r: nat, id: nat)
    requires Inv(server, s) && r in s.phases && s.phases[r].Answered? && Cached(s, id)
    ensures var next := Next(server, s, PutBack(r)).value;
            !Cached(next, id) <==>
              |s.cache| >= server.cacheSize &&
              forall j :: 0 <= j < |s.cache| ==> s.returned[id] <= s.returned[s.cache[j].id]
  {
    var next := Next(server, s, PutBack(r)).value;
    assert UseSound(server, s, r) && Live(s, r);
    ReturnedCached(server, s, next, s.phases[r].thread);
    var i :| 0 <= i < |s.cache| && s.cache[i].id == id;
    LastIsLeast(server, s, i);
  }

  lemma LastIsLeast(server: Server, s: State, i: nat)
    requires CacheSound(s) && OrderSound(server, s) && i < |s.cache|
    ensures s.cache[i].id == s.cache[|s.cache| - 1].id <==>
            forall j :: 0 <= j < |s.cache| ==> s.returned[s.cache[i].id] <= s.returned[s.cache[j].id]
  {
    var last := |s.cache| - 1;
    if i < last {
      assert s.returned[s.cache[last].id] < s.returned[s.cache[i].id];
    }
  }

  // ----- the outcome of a request -----

  ghost predicate WithAnswer(s: State, r: nat) {
    r in s.phases && (s.phases[r].Answered? || (s.phases[r].Done? && s.phases[r].outcome.Some?))
  }

  ghost predicate WithError(s: State, r: nat) {
    r in s.phases && (s.phases[r].Canceled? || (s.phases[r].Done? && s.phases[r].outcome.None?))
  }

  /** The next message of the thread is that of request `r`. */
  ghost predicate Receives(s: State, t: nat, r: nat) {
    Mail(s, t) != [] && Mail(s, t)[0] == r
  }

  ghost predicate Answers(s: State, action: Action, r: nat) {
    action.Answer? && Receives(s, action.thread, r)
  }

  ghost predicate Panics(s: State, action: Action, r: nat) {
    action.Panic? && Receives(s, action.thread, r)
  }

  lemma StepTells(server: Server, s: State, action: Action, r: nat)
    requires Next(server, s, action).Some?
    ensures var next := Next(server, s, action).value;
            && (WithAnswer(next, r) <==> WithAnswer(s, r) || Answers(s, action, r))
            && (WithError(next, r) <==> WithError(s, r) || Panics(s, action, r))
  {
    match action
    case TakeOut(_) =>
    case Send(_) =>
    case Answer(_) =>
    case Panic(_) =>
    case PutBack(_) =>
    case GiveUp(_) =>
  }

  ghost predicate AnswersAt(server: Server, actions: seq<Action>, k: nat, r: nat)
    requires k < |actions|
  {
    Run(server, actions[..k]).Some? && Answers(Run(server, actions[..k]).value, actions[k], r)
  }

  ghost predicate PanicsAt(server: Server, actions: seq<Action>, k: nat, r: nat)
    requires k < |actions|
  {
    Run(server, actions[..k]).Some? && Panics(Run(server, actions[..k]).value, actions[k], r)
  }

  ghost predicate HasAnswered(server: Server, actions: seq<Action>, r: nat) {
    exists k: nat :: k < |actions| && AnswersAt(server, actions, k, r)
  }

  ghost predicate HasPanicked(server: Server, actions: seq<Action>, r: nat) {
    exists k: nat :: k < |actions| && PanicsAt(server, actions, k, r)
  }

  lemma HistoryGrows(server: Server, actions: seq<Action>, r: nat)
    requires actions != []
    ensures var k := |actions| - 1;
            && (HasAnswered(server, actions, r) <==>
                HasAnswered(server, actions[..k], r) || AnswersAt(server, actions, k, r))
            && (HasPanicked(server, actions, r) <==>
                HasPanicked(server, actions[..k], r) || PanicsAt(server, actions, k, r))
  {
    var k := |actions| - 1;
    forall j: nat | j < k
      ensures AnswersAt(server, actions[..k], j, r) <==> AnswersAt(server, actions, j, r)
      ensures PanicsAt(server, actions[..k], j, r) <==> PanicsAt(server, actions, j, r)
    {
      assert actions[..k][..j] == actions[..j];
    }
  }

  lemma {:induction false} PhaseTells(server: Server, actions: seq<Action>, r: nat)
    requires Run(server, actions).Some?
    ensures WithAnswer(Run(server, actions).value, r) <==> HasAnswered(server, actions, r)
    ensures WithError(Run(server, actions).value, r) <==> HasPanicked(server, actions, r)
    decreases |actions|
  {
    if actions != [] {
      var k := |actions| - 1;
      PhaseTells(server, actions[..k], r);
      HistoryGrows(server, actions, r);
      StepTells(server, Run(server, actions[..k]).value, actions[k], r);
    }
  }

  /**
   A request that is done has an outcome: the result of verifying its own program under its own configuration
   exactly if a thread has answered it, and an error exactly if a thread has panicked over it.
   */
  lemma OutcomeTells(server: Server, actions: seq<Action>, r: nat)
    requires Run(server, actions).Some?
    requires r in Run(server, actions).value.phases && Run(server, actions).value.phases[r].Done?
    ensures HasAnswered(server, actions, r) <==> !HasPanicked(server, actions, r)
    ensures Run(server, actions).value.phases[r].outcome ==
            if HasAnswered(server, actions, r)
            then Some(server.verify(server.request(r).config, server.request(r).program)) else None
  {
    AlwaysSafe(server, actions);
    assert AnswerSound(server, Run(server, actions).value, r);
    PhaseTells(server, actions, r);
  }

  lemma RunThen(server: Server, actions: seq<Action>, action: Action)
    requires Run(server, actions).Some?
    ensures Run(server, actions + [action]) == Next(server, Run(server, actions).value, action)
  {
    assert (actions + [action])[..|actions|] == actions;
  }

  /** A cache of size zero still keeps one thread. */
  lemma SizeZeroKeepsOne(server: Server)
    requires server.cacheSize == 0
    ensures var s := Run(server, [TakeOut(0), Send(0), Answer(0), PutBack(0)]);
            s.Some? && |s.value.cache| == 1 == Bound(server)
  {
    RunThen(server, [], TakeOut(0));
    assert [] + [TakeOut(0)] == [TakeOut(0)];
    RunThen(server, [TakeOut(0)], Send(0));
    assert [TakeOut(0)] + [Send(0)] == [TakeOut(0), Send(0)];
    var sent := Run(server, [TakeOut(0), Send(0)]).value;
    assert sent.phases[0].Waiting? && Mail(sent, 0) == [0] && sent.cache == [];
    RunThen(server, [TakeOut(0), Send(0)], Answer(0));
    assert [TakeOut(0), Send(0)] + [Answer(0)] == [TakeOut(0), Send(0), Answer(0)];
    RunThen(server, [TakeOut(0), Send(0), Answer(0)], PutBack(0));
    assert [TakeOut(0), Send(0), Answer(0)] + [PutBack(0)] == [TakeOut(0), Send(0), Answer(0), PutBack(0)];
  }
}
