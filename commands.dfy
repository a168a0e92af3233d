// DefaultIoCommandManager: a bounded FIFO of IO commands served by one
// worker thread. enqueue offers a command to the queue while the manager is
// running; stop drops every pending command; the worker takes commands from
// the head and executes them behind a fault boundary, so a command that
// throws is dropped and the next one runs.
//
// Threads are not modelled: the worker is the thread number start created,
// and its loop runs a given number of rounds (the rounds before keepRunning()
// turns false). What happens to each command is kept as an appended log.

module Commands {
  import opened Common

  /** The capacity of the LinkedBlockingDeque. */
  const Capacity: nat := 10

  /** An IoCommand: an id, and whether its execute throws. */
  datatype Command = Command(id: nat, throws: bool)

  /** What became of a command: executed, thrown and dropped by the worker, or dropped by stop. */
  datatype Fate = Executed | Failed | Discarded

  datatype Handled = Handled(command: Command, fate: Fate)

  datatype State = State(
    running: bool,
    worker: Option<nat>,
    threads: nat,
    queue: seq<Command>,
    handled: seq<Handled>,
    accepted: seq<Command>)

  /** The enqueue answer and the state after it. */
  datatype Offered = Offered(answer: Result<bool>, state: State)

  /** The commands of a log, in order. */
  function CommandsOf(hs: seq<Handled>): (cs: seq<Command>)
    ensures |cs| == |hs|
    ensures forall i :: 0 <= i < |hs| ==> cs[i] == hs[i].command
  {
    seq(|hs|, i requires 0 <= i < |hs| => hs[i].command)
  }

  /** The worker's fault boundary: a command that throws is logged as failed. */
  function Outcome(c: Command): (h: Handled)
    ensures h.command == c && h.fate != Discarded
    ensures h.fate == Failed <==> c.throws
  {
    Handled(c, if c.throws then Failed else Executed)
  }

  /**
   * The state a manager keeps: a bounded queue, a worker exactly while
   * running, nothing pending while stopped, and every accepted command
   * either handled or pending, in the order it was accepted.
   */
  predicate Valid(s: State)
  {
    |s.queue| <= Capacity
    && (s.running <==> s.worker.Some?)
    && (!s.running ==> s.queue == [])
    && CommandsOf(s.handled) + s.queue == s.accepted
  }

  function Initial(): (s: State)
    ensures Valid(s) && !s.running && s.queue == []
  {
    State(false, None, 0, [], [], [])
  }

  /**
   * start: a stopped manager gets a new worker thread, numbered by the
   * threads created so far; a running one is left as it is. No command is
   * touched either way.
   */
  function Started(s: State): (t: State)
    ensures t.running
    ensures s.running ==> t == s
    ensures !s.running ==> t.worker == Some(s.threads) && t.threads == s.threads + 1
    ensures t.queue == s.queue && t.handled == s.handled && t.accepted == s.accepted
  {
    if s.running then s
    else s.(running := true, worker := Some(s.threads), threads := s.threads + 1)
  }

  /**
   * stop: a stopped manager is left as it is; a running one loses its worker
   * and every pending command moves, in order, to the handled ones without
   * being executed.
   */
  function Stopped(s: State): (t: State)
    ensures !t.running && t.accepted == s.accepted
    ensures !s.running ==> t == s
    ensures s.running ==> t.worker.None? && t.queue == []
    ensures CommandsOf(t.handled) + t.queue == CommandsOf(s.handled) + s.queue
    ensures forall i :: |s.handled| <= i < |t.handled| ==> t.handled[i].fate == Discarded
  {
    if !s.running then s
    else
      var dropped := seq(|s.queue|, i requires 0 <= i < |s.queue| => Handled(s.queue[i], Discarded));
      CommandsAppend(s.handled, dropped);
      assert CommandsOf(dropped) == s.queue;
      s.(running := false, worker := None, queue := [], handled := s.handled + dropped)
  }

  /**
   * enqueue: throws while stopped; while running, offers the command to the
   * bounded queue and answers whether it was taken. A command taken joins the
   * end of the queue and of the accepted ones; nothing else changes.
   */
  function Offer(s: State, c: Command): (o: Offered)
    ensures o.answer.Err? <==> !s.running
    ensures o.answer == Ok(true) <==> s.running && |s.queue| < Capacity
    ensures o.answer == Ok(true) ==> o.state.queue == s.queue + [c] && o.state.accepted == s.accepted + [c]
    ensures o.answer != Ok(true) ==> o.state == s
    ensures o.state.handled == s.handled && o.state.running == s.running
  {
    if !s.running then Offered(Err(NotRunning), s)
    else if |s.queue| < Capacity then Offered(Ok(true), s.(queue := s.queue + [c], accepted := s.accepted + [c]))
    else Offered(Ok(false), s)
  }

  /**
   * One round of the worker loop: an empty poll changes nothing; otherwise
   * the head of the queue is handled by its own outcome, and the commands
   * handled followed by those pending are the same as before.
   */
  function Poll(s: State): (t: State)
    ensures s.queue == [] ==> t == s
    ensures s.queue != [] ==> |t.queue| == |s.queue| - 1 && t.handled == s.handled + [Outcome(s.queue[0])]
    ensures CommandsOf(t.handled) + t.queue == CommandsOf(s.handled) + s.queue
    ensures t.running == s.running && t.worker == s.worker && t.accepted == s.accepted
  {
    if s.queue == [] then s
    else
      CommandsAppend(s.handled, [Outcome(s.queue[0])]);
      assert s.queue == [s.queue[0]] + s.queue[1..];
      s.(queue := s.queue[1..], handled := s.handled + [Outcome(s.queue[0])])
  }

  /**
   * n rounds of the worker: min(n, pending) commands leave the queue and as
   * many join the handled ones, while the manager's running state and
   * accepted commands stay as they were (RoundsServeInOrder says which).
   */
  function Rounds(s: State, n: nat): (t: State)
    ensures |t.queue| == |s.queue| - Min(n, |s.queue|)
    ensures |t.handled| == |s.handled| + Min(n, |s.queue|)
    ensures t.running == s.running && t.worker == s.worker && t.accepted == s.accepted
    decreases n
  {
    if n == 0 then s else Rounds(Poll(s), n - 1)
  }

  // ---- properties ----

  lemma CommandsAppend(a: seq<Handled>, b: seq<Handled>)
    ensures CommandsOf(a + b) == CommandsOf(a) + CommandsOf(b)
  {
  }

  lemma StartKeepsValid(s: State)
    requires Valid(s)
    ensures Valid(Started(s)) && Started(s).running
    ensures Started(s).queue == s.queue && Started(s).handled == s.handled
  {
  }

  /** stop drops every pending command unexecuted, in queue order. */
  lemma StopKeepsValid(s: State)
    requires Valid(s)
    ensures var t := Stopped(s);
      (Valid(t) && !t.running && t.worker.None? && t.queue == []
       && t.handled == s.handled + seq(|s.queue|, i requires 0 <= i < |s.queue| => Handled(s.queue[i], Discarded)))
  {
    if s.running {
      var dropped := seq(|s.queue|, i requires 0 <= i < |s.queue| => Handled(s.queue[i], Discarded));
      CommandsAppend(s.handled, dropped);
      assert CommandsOf(dropped) == s.queue;
    }
  }

  /**
   * enqueue throws while stopped and leaves the queue alone; while running
   * it appends the command and answers true exactly when the queue had room.
   */
  lemma EnqueueKeepsValid(s: State, c: Command)
    requires Valid(s)
    ensures var o := Offer(s, c);
      (Valid(o.state)
       && (o.answer.Err? <==> !s.running)
       && (o.answer == Ok(true) <==> s.running && |s.queue| < Capacity)
       && o.state.queue == (if o.answer == Ok(true) then s.queue + [c] else s.queue)
       && o.state.handled == s.handled)
  {
  }

  lemma PollKeepsValid(s: State)
    requires Valid(s)
    ensures Valid(Poll(s))
  {
    if s.queue != [] {
      CommandsAppend(s.handled, [Outcome(s.queue[0])]);
      assert s.queue == [s.queue[0]] + s.queue[1..];
    }
  }

  /** The outcomes of handling each of `q`, in order. */
  function Served(q: seq<Command>): (h: seq<Handled>)
    ensures |h| == |q|
  {
    seq(|q|, i requires 0 <= i < |q| => Outcome(q[i]))
  }

  lemma ServedCons(q: seq<Command>)
    requires q != []
    ensures Served(q) == [Outcome(q[0])] + Served(q[1..])
  {
    assert forall i :: 0 < i < |q| ==> q[1..][i - 1] == q[i];
  }

  /**
   * n rounds of the worker handle the first n pending commands (all of them
   * when fewer are pending) in queue order, each by its own outcome: a
   * command that throws does not stop the ones after it.
   */
  lemma RoundsServeInOrder(s: State, n: nat)
    ensures var k := Min(n, |s.queue|); var t := Rounds(s, n);
      (t.queue == s.queue[k..]
       && t.handled == s.handled + Served(s.queue[..k])
       && t.running == s.running && t.accepted == s.accepted)
  {
    RoundsLeaveRest(s, n);
    RoundsHandleFront(s, n);
  }

  lemma {:induction false} RoundsLeaveRest(s: State, n: nat)
    ensures Rounds(s, n).queue == s.queue[Min(n, |s.queue|)..]
    decreases n
  {
    if n > 0 {
      RoundsLeaveRest(Poll(s), n - 1);
      if s.queue != [] {
        assert Poll(s).queue == s.queue[1..];
        assert s.queue[1..][Min(n - 1, |s.queue| - 1)..] == s.queue[Min(n, |s.queue|)..];
      }
    }
  }

  lemma {:induction false} RoundsHandleFront(s: State, n: nat)
    ensures Rounds(s, n).handled == s.handled + Served(s.queue[..Min(n, |s.queue|)])
    decreases n
  {
    var k := Min(n, |s.queue|);
    if n > 0 && s.queue != [] {
      var p := Poll(s);
      RoundsHandleFront(p, n - 1);
      assert p.handled + Served(p.queue[..k - 1]) == s.handled + Served(s.queue[..k]) by {
        assert p.queue == s.queue[1..] && p.handled == s.handled + [Outcome(s.queue[0])];
        assert p.queue[..k - 1] == s.queue[..k][1..];
        ServedCons(s.queue[..k]);
      }
    } else if n > 0 {
      RoundsHandleFront(s, n - 1);
    } else {
      assert s.queue[..k] == [];
    }
  }

  lemma {:induction false} RoundsKeepValid(s: State, n: nat)
    requires Valid(s)
    ensures Valid(Rounds(s, n))
    decreases n
  {
    if n > 0 {
      PollKeepsValid(s);
      RoundsKeepValid(Poll(s), n - 1);
    }
  }

  // ---- sessions of calls ----

  datatype Call = StartCall | StopCall | EnqueueCall(command: Command) | PollCall

  function Apply(s: State, c: Call): State
  {
    match c
    case StartCall => Started(s)
    case StopCall => Stopped(s)
    case EnqueueCall(cmd) => Offer(s, cmd).state
    case PollCall => Poll(s)
  }

  function Run(s: State, calls: seq<Call>): State
    decreases |calls|
  {
    if calls == [] then s else Run(Apply(s, calls[0]), calls[1..])
  }

  /**
   * Whatever the calls, the commands handled so far are the first ones
   * accepted, in the order they were accepted, and the queue holds the rest.
   */
  lemma {:induction false} RunHandlesInAcceptanceOrder(s: State, calls: seq<Call>)
    requires Valid(s)
    ensures var t := Run(s, calls);
      (Valid(t) && CommandsOf(t.handled) <= t.accepted && |t.queue| <= Capacity)
    decreases |calls|
  {
    if calls != [] {
      match calls[0] {
        case StartCall => StartKeepsValid(s);
        case StopCall => StopKeepsValid(s);
        case EnqueueCall(cmd) => EnqueueKeepsValid(s, cmd);
        case PollCall => PollKeepsValid(s);
      }
      RunHandlesInAcceptanceOrder(Apply(s, calls[0]), calls[1..]);
    } else {
      assert CommandsOf(s.handled) + s.queue == s.accepted;
    }
  }

  // ---- the manager object ----

  class DefaultIoCommandManager {
    var running: bool
    /** The command thread's number, while there is one. */
    var worker: Option<nat>
    /** COMMAND_THREAD_INSTANCE_COUNTER: threads created so far, per manager (Java's counter is process-wide). */
    var threads: nat
    var queue: seq<Command>
    /** What became of each command taken off the queue. */
    var handled: seq<Handled>
    ghost var accepted: seq<Command>

    ghost function Model(): State
      reads this
    {
      State(running, worker, threads, queue, handled, accepted)
    }

    constructor ()
      ensures Model() == Initial()
    {
      running := false;
      worker := None;
      threads := 0;
      queue := [];
      handled := [];
      accepted := [];
    }

    method Start()
      modifies this
      ensures Model() == Started(old(Model()))
    {
      if !running {
        worker := Some(threads);
        threads := threads + 1;
        running := true;
      }
    }

    method Stop()
      modifies this
      ensures Model() == Stopped(old(Model()))
    {
      if running {
        running := false;
        var pending := queue;
        handled := handled + seq(|pending|, i requires 0 <= i < |pending| => Handled(pending[i], Discarded));
        queue := [];
        worker := None;
      }
    }

    method Enqueue(c: Command) returns (r: Result<bool>)
      modifies this
      ensures Offer(old(Model()), c) == Offered(r, Model())
    {
      if running {
        if |queue| < Capacity {
          queue := queue + [c];
          accepted := accepted + [c];
          r := Ok(true);
        } else {
          r := Ok(false);
        }
      } else {
        r := Err(NotRunning);
      }
    }

    /** The body of the worker loop: poll, and execute what came, behind the fault boundary. */
    method PollOnce()
      modifies this
      ensures Model() == Poll(old(Model()))
    {
      if queue != [] {
        var command := queue[0];
        queue := queue[1..];
        if command.throws {
          handled := handled + [Handled(command, Failed)];
        } else {
          handled := handled + [Handled(command, Executed)];
        }
      }
    }

    /** CommandThread.run for `rounds` rounds of its loop. */
    method RunWorker(rounds: nat)
      modifies this
      ensures Model() == Rounds(old(Model()), rounds)
    {
      var done := 0;
      while done < rounds
        invariant 0 <= done <= rounds
        invariant Rounds(old(Model()), rounds) == Rounds(Model(), rounds - done)
      {
        PollOnce();
        done := done + 1;
      }
    }
  }
}
