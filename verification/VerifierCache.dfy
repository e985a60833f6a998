/**
 The cache of verifier threads of the server. Requests run concurrently; taking a thread out of the
 cache and putting it back are atomic, and so are sending to a thread and receiving by it.
 */
module VerifierCache {
  import opened Wrappers

  datatype Thread = Thread(id: nat, config: nat)

  // ----- the two atomic sections -----

  function Position(threads: seq<Thread>, config: nat): (index: Option<nat>)
    ensures index.Some? ==> index.value < |threads| && threads[index.value].config == config
    ensures index.Some? ==> forall i :: 0 <= i < index.value ==> threads[i].config != config
    ensures index.None? ==> forall i :: 0 <= i < |threads| ==> threads[i].config != config
  {
    if threads == [] then None
    else if threads[0].config == config then Some(0)
    else
      match Position(threads[1..], config)
      case None => None
      case Some(i) => Some(i + 1)
  }

  function Without(threads: seq<Thread>, index: nat): seq<Thread>
    requires index < |threads|
  {
    threads[..index] + threads[index + 1..]
  }

  function Returned(threads: seq<Thread>, cacheSize: nat, thread: Thread): seq<Thread> {
    [thread] + if |threads| >= cacheSize && threads != [] then threads[..|threads| - 1] else threads
  }

  class PrustiServer {
    var threads: seq<Thread>
    const cacheSize: nat

    constructor (cacheSize: nat)
      ensures threads == [] && this.cacheSize == cacheSize
    {
      threads := [];
      this.cacheSize := cacheSize;
    }

    method TakeOut(config: nat) returns (existing: Option<Thread>)
      modifies this
      ensures existing.None? <==> Position(old(threads), config).None?
      ensures existing.None? ==> threads == old(threads)
      ensures existing.Some? ==>
                var index := Position(old(threads), config).value;
                existing.value == old(threads)[index] && threads == Without(old(threads), index)
    {
      var i := 0;
      while i < |threads| && threads[i].config != config
        invariant i <= |threads| && threads == old(threads)
        invariant forall k :: 0 <= k < i ==> threads[k].config != config
      {
        i := i + 1;
      }
      if i == |threads| {
        return None;
      }
      existing := Some(threads[i]);
      threads := threads[..i] + threads[i + 1..];
    }

    method PutBack(thread: Thread)
      modifies this
      ensures threads == Returned(old(threads), cacheSize, thread)
    {
      if |threads| >= cacheSize {
        if threads != [] {
          threads := threads[..|threads| - 1];
        }
      }
      threads := [thread] + threads;
    }
  }

  // ----- requests as they run -----

  datatype Request = Request(config: nat, program: nat)

  /** What is fixed: the request behind each request number, what verifying yields, and the size of the cache. */
  datatype Server = Server(request: nat -> Request, verify: (nat, nat) -> nat, cacheSize: nat)

  datatype Phase =
    | Holding(thread: Thread)
    | Waiting(thread: Thread)
    | Answered(thread: Thread, answer: nat)
    | Canceled(thread: Thread)
    | Done(outcome: Option<nat>)

  /**
   `mail` holds the messages that a thread has not received, `retired` the threads that panicked or were
   evicted. `returned` says when a cached thread was last put back.
   */
  datatype State = State(
    cache: seq<Thread>,
    phases: map<nat, Phase>,
    mail: map<nat, seq<nat>>,
    created: nat,
    retired: set<nat>,
    returned: map<nat, nat>,
    clock: nat)

  const INITIAL: State := State([], map[], map[], 0, {}, map[], 0)

  datatype Action =
    | TakeOut(request: nat)
    | Send(request: nat)
    | Answer(thread: nat)
    | Panic(thread: nat)
    | PutBack(request: nat)
    | GiveUp(request: nat)

  /** The messages of a thread; a new thread has none. */
  function Mail(s: State, thread: nat): seq<nat> {
    if thread in s.mail then s.mail[thread] else []
  }

  /** The state after an action; none if the action is not possible. */
  function Next(server: Server, s: State, action: Action): Option<State> {
    match action
    case TakeOut(r) =>
      if r in s.phases then None
      else
        var config := server.request(r).config;
        (match Position(s.cache, config)
         case Some(index) =>
           Some(s.(cache := Without(s.cache, index), phases := s.phases[r := Holding(s.cache[index])]))
         case None =>
           Some(s.(phases := s.phases[r := Holding(Thread(s.created, config))], created := s.created + 1)))
    case Send(r) =>
      if r in s.phases && s.phases[r].Holding? then
        var thread := s.phases[r].thread;
        Some(s.(phases := s.phases[r := Waiting(thread)], mail := s.mail[thread.id := Mail(s, thread.id) + [r]]))
      else None
    case Answer(t) => Receive(server, s, t, false)
    case Panic(t) => Receive(server, s, t, true)
    case PutBack(r) =>
      if r in s.phases && s.phases[r].Answered? then
        var thread := s.phases[r].thread;
        Some(s.(cache := Returned(s.cache, server.cacheSize, thread),
                phases := s.phases[r := Done(Some(s.phases[r].answer))],
                retired := s.retired + Evicted(s.cache, server.cacheSize),
                returned := s.returned[thread.id := s.clock],
                clock := s.clock + 1))
      else None
    case GiveUp(r) =>
      if r in s.phases && s.phases[r].Canceled? then Some(s.(phases := s.phases[r := Done(None)]))
      else None
  }

  function Evicted(cache: seq<Thread>, cacheSize: nat): set<nat> {
    if |cache| >= cacheSize && cache != [] then {cache[|cache| - 1].id} else {}
  }

  /** The thread takes its next message and answers it with its own configuration, or panics over it. */
  function Receive(server: Server, s: State, t: nat, panics: bool): Option<State> {
    if Mail(s, t) == [] then None
    else
      var r := Mail(s, t)[0];
      if r !in s.phases || !s.phases[r].Waiting? then None
      else
        var thread := s.phases[r].thread;
        if panics then
          Some(s.(phases := s.phases[r := Canceled(thread)], mail := s.mail[t := []], retired := s.retired + {t}))
        else
          var answer := server.verify(thread.config, server.request(r).program);
          Some(s.(phases := s.phases[r := Answered(thread, answer)], mail := s.mail[t := Mail(s, t)[1..]]))
  }

  function Run(server: Server, actions: seq<Action>): Option<State> {
    if actions == [] then Some(INITIAL)
    else
      match Run(server, actions[..|actions| - 1])
      case None => None
      case Some(s) => Next(server, s, actions[|actions| - 1])
  }
}
