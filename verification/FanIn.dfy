/** The fan-in of DNS answers as a step system: the spawning loop, one worker per
    domain and server, a bounded channel, and the collector that closes it. */
module FanIn {
  import opened Types
  import opened Resolver
  import StoreSpec

  const CAPACITY := 1000

  /** A worker queries, then passes its two checks of the context and waits in
      the select to send, then returns, which decrements the counter. It returns
      an error if it has an answer and meets the cancelled context at a check or
      in the select; a failed query is no error. */
  datatype Worker = Querying | Sending(res: DnsResult) | Leaving | Finished

  datatype Collecting = NotStarted | Looping | Stopped

  datatype State = State(
    counted: nat,               // increments of the counter by the spawning loop
    workers: seq<Worker>,
    counter: int,
    channel: seq<DnsResult>,
    closed: bool,
    collector: Collecting,
    sent: seq<DnsResult>,       // everything that went into the channel
    received: seq<DnsResult>,   // everything the collector took out
    cancelled: bool,
    panicked: bool,             // somebody sent on the closed channel
    answered: seq<DnsResult>,   // every result that a worker set out to send
    failed: bool)               // a worker returned the error of the context

  datatype Step =
    | CountWorker
    | Spawn
    | Start
    | Answered(i: nat, res: DnsResult)
    | NoAnswer(i: nat)
    | Refused(i: nat)
    | Send(i: nat)
    | GiveUp(i: nat)
    | Return(i: nat)
    | Tick
    | Receive
    | Cancel
    | ContextDone

  const INITIAL := State(0, [], 0, [], false, NotStarted, [], [], false, false, [], false)

  /** jobs holds the domain of every worker, in the order of spawning. */
  predicate Enabled(jobs: seq<Domain>, s: State, step: Step) {
    match step
    case CountWorker => s.counted < |jobs| && s.counted == |s.workers|
    case Spawn => |s.workers| < s.counted
    case Start => s.collector == NotStarted && |s.workers| == |jobs|
    case Answered(i, res) =>
      i < |s.workers| && s.workers[i] == Querying && !s.cancelled && i < |jobs| && res.domain == jobs[i]
    case NoAnswer(i) => i < |s.workers| && s.workers[i] == Querying
    case Refused(i) => i < |s.workers| && s.workers[i] == Querying && s.cancelled
    case Send(i) => i < |s.workers| && s.workers[i].Sending? && (s.closed || |s.channel| < CAPACITY)
    case GiveUp(i) => i < |s.workers| && s.workers[i].Sending? && s.cancelled
    case Return(i) => i < |s.workers| && s.workers[i] == Leaving
    case Tick => s.collector == Looping
    case Receive => s.collector == Looping && s.channel != []
    case Cancel => true
    case ContextDone => s.collector == Looping && s.cancelled
  }

  function Next(jobs: seq<Domain>, s: State, step: Step): State
    requires Enabled(jobs, s, step)
  {
    match step
    case CountWorker => s.(counted := s.counted + 1, counter := s.counter + 1)
    case Spawn => s.(workers := s.workers + [Querying])
    case Start => s.(collector := Looping)
    case Answered(i, res) => s.(workers := s.workers[i := Sending(res)], answered := s.answered + [res])
    case NoAnswer(i) => s.(workers := s.workers[i := Leaving])
    case Refused(i) => s.(workers := s.workers[i := Leaving], failed := true)
    case Send(i) =>
      if s.closed then s.(panicked := true)
      else s.(channel := s.channel + [s.workers[i].res], sent := s.sent + [s.workers[i].res],
              workers := s.workers[i := Leaving])
    case GiveUp(i) => s.(workers := s.workers[i := Leaving], failed := true)
    case Return(i) => s.(workers := s.workers[i := Finished], counter := s.counter - 1)
    case Tick => if s.counter <= 0 then s.(closed := true, collector := Stopped) else s
    case Receive => s.(channel := s.channel[1..], received := s.received + [s.channel[0]])
    case Cancel => s.(cancelled := true)
    case ContextDone => s.(closed := true, collector := Stopped)
  }

  /** The state after the first n steps, if each was possible. */
  function After(jobs: seq<Domain>, steps: seq<Step>, n: nat): Option<State>
    requires n <= |steps|
  {
    if n == 0 then Some(INITIAL)
    else match After(jobs, steps, n - 1)
         case None => None
         case Some(s) => if Enabled(jobs, s, steps[n - 1]) then Some(Next(jobs, s, steps[n - 1])) else None
  }

  function Unfinished(ws: seq<Worker>): nat {
    if ws == [] then 0 else Unfinished(ws[..|ws| - 1]) + if ws[|ws| - 1] == Finished then 0 else 1
  }

  lemma {:induction false} UnfinishedUpdate(ws: seq<Worker>, i: nat, w: Worker)
    requires i < |ws|
    ensures Unfinished(ws[i := w]) ==
            Unfinished(ws) - (if ws[i] == Finished then 0 else 1) + if w == Finished then 0 else 1
  {
    var init := ws[..|ws| - 1];
    if i == |init| {
      assert ws[i := w][..|ws| - 1] == init;
    } else {
      UnfinishedUpdate(init, i, w);
      assert ws[i := w][..|ws| - 1] == init[i := w];
    }
  }

  lemma {:induction false} NoneUnfinished(ws: seq<Worker>)
    ensures Unfinished(ws) == 0 <==> forall i :: 0 <= i < |ws| ==> ws[i] == Finished
  {
    if ws == [] {
    } else {
      NoneUnfinished(ws[..|ws| - 1]);
    }
  }

  ghost predicate Counting(jobs: seq<Domain>, s: State) {
    && |s.workers| <= s.counted <= |s.workers| + 1 && s.counted <= |jobs|
    && s.counter == Unfinished(s.workers) + s.counted - |s.workers|
    && (s.collector != NotStarted ==> |s.workers| == s.counted == |jobs|)
    && (s.closed <==> s.collector == Stopped)
    && (s.closed && !s.cancelled ==> Unfinished(s.workers) == 0)
    && (s.panicked ==> s.closed && s.cancelled)
    && (s.failed ==> s.cancelled)
  }

  ghost predicate Flowing(jobs: seq<Domain>, s: State) {
    && |s.workers| <= |jobs|
    && s.received + s.channel == s.sent && |s.channel| <= CAPACITY
    && (forall i :: 0 <= i < |s.workers| && s.workers[i].Sending? ==> s.workers[i].res.domain == jobs[i])
    && (forall r :: r in s.sent ==> r.domain in jobs)
  }

  ghost predicate Invariant(jobs: seq<Domain>, s: State) {
    Counting(jobs, s) && Flowing(jobs, s)
  }

  lemma StepKeepsCounting(jobs: seq<Domain>, s: State, step: Step)
    requires Counting(jobs, s) && Enabled(jobs, s, step)
    ensures Counting(jobs, Next(jobs, s, step))
  {
    NoneUnfinished(s.workers);
    match step
    case Spawn =>
      assert (s.workers + [Querying])[..|s.workers|] == s.workers;
    case Answered(i, res) =>
      UnfinishedUpdate(s.workers, i, Sending(res));
    case NoAnswer(i) =>
      UnfinishedUpdate(s.workers, i, Leaving);
    case Refused(i) =>
      UnfinishedUpdate(s.workers, i, Leaving);
    case Send(i) =>
      UnfinishedUpdate(s.workers, i, Leaving);
    case GiveUp(i) =>
      UnfinishedUpdate(s.workers, i, Leaving);
    case Return(i) =>
      UnfinishedUpdate(s.workers, i, Finished);
    case _ =>
  }

  lemma StepKeepsFlowing(jobs: seq<Domain>, s: State, step: Step)
    requires Flowing(jobs, s) && Enabled(jobs, s, step)
    requires |s.workers| <= s.counted <= |jobs|
    ensures Flowing(jobs, Next(jobs, s, step))
  {
    if step.Receive? {
      assert s.received + [s.channel[0]] + s.channel[1..] == s.received + s.channel;
    }
  }

  lemma {:induction false} RunKeepsInvariant(jobs: seq<Domain>, steps: seq<Step>, n: nat)
    requires n <= |steps| && After(jobs, steps, n).Some?
    ensures Invariant(jobs, After(jobs, steps, n).value)
  {
    hide Invariant, Next, Enabled;
    if n == 0 {
      InitialInvariant(jobs);
    } else {
      RunKeepsInvariant(jobs, steps, n - 1);
      var s := After(jobs, steps, n - 1).value;
      StepKeepsInvariant(jobs, s, steps[n - 1]);
    }
  }

  lemma StepKeepsInvariant(jobs: seq<Domain>, s: State, step: Step)
    requires Invariant(jobs, s) && Enabled(jobs, s, step)
    ensures Invariant(jobs, Next(jobs, s, step))
  {
    hide Next, Enabled, Flowing;
    StepKeepsCounting(jobs, s, step);
    StepKeepsFlowing(jobs, s, step);
  }

  lemma InitialInvariant(jobs: seq<Domain>)
    ensures Invariant(jobs, INITIAL)
  {
  }

  /** In every run, for any number of domains and servers: the counter is the
      number of workers counted and not finished; what was sent is what was
      received and what is buffered, in order; and unless the context was
      cancelled, once the channel is closed every worker has finished, so nobody
      is left to send. */
  lemma CloseIsSafe(jobs: seq<Domain>, steps: seq<Step>)
    requires After(jobs, steps, |steps|).Some?
    ensures
      var s := After(jobs, steps, |steps|).value;
      && s.counter == Unfinished(s.workers) + s.counted - |s.workers|
      && s.received + s.channel == s.sent && |s.channel| <= 1000
      && (forall r :: r in s.received ==> r.domain in jobs)
      && (s.closed && !s.cancelled ==>
            |s.workers| == |jobs| && forall i :: 0 <= i < |s.workers| ==> s.workers[i] == Finished)
      && (s.panicked ==> s.cancelled)
  {
    RunKeepsInvariant(jobs, steps, |steps|);
    var s := After(jobs, steps, |steps|).value;
    hide After;
    NoneUnfinished(s.workers);
    forall r | r in s.received
      ensures r.domain in jobs
    {
      assert r in s.received + s.channel;
    }
  }

  // ---------- the channel closed by the tick ----------

  lemma {:induction false} EarlierState(jobs: seq<Domain>, steps: seq<Step>, n: nat, m: nat)
    requires n <= m <= |steps| && After(jobs, steps, m).Some?
    ensures After(jobs, steps, n).Some?
  {
    if n == m {
    } else {
      EarlierState(jobs, steps, n, m - 1);
    }
  }

  /** Every worker was spawned and has returned, and nobody panicked. */
  ghost predicate AllOver(jobs: seq<Domain>, s: State) {
    && |s.workers| == s.counted == |jobs| && s.closed && !s.panicked
    && forall i :: 0 <= i < |s.workers| ==> s.workers[i] == Finished
  }

  lemma StepKeepsAllOver(jobs: seq<Domain>, s: State, step: Step)
    requires AllOver(jobs, s) && Enabled(jobs, s, step)
    ensures AllOver(jobs, Next(jobs, s, step))
  {
  }

  /** The tick closes the channel only when the counter is down. */
  lemma TickCloses(jobs: seq<Domain>, s: State)
    requires Counting(jobs, s) && Enabled(jobs, s, Tick) && Next(jobs, s, Tick).closed
    ensures AllOver(jobs, Next(jobs, s, Tick))
  {
    NoneUnfinished(s.workers);
  }

  lemma {:induction false} AllOverStays(jobs: seq<Domain>, steps: seq<Step>, n: nat, m: nat)
    requires n <= m <= |steps| && After(jobs, steps, m).Some?
    requires After(jobs, steps, n).Some? && AllOver(jobs, After(jobs, steps, n).value)
    ensures AllOver(jobs, After(jobs, steps, m).value)
  {
    hide Next, Enabled, AllOver;
    if n == m {
    } else {
      AllOverStays(jobs, steps, n, m - 1);
      StepKeepsAllOver(jobs, After(jobs, steps, m - 1).value, steps[m - 1]);
    }
  }

  /** Once the tick has closed the channel, every worker has finished and no
      later step panics, whether the context is cancelled or not: before the
      tick, after it, or never. */
  lemma TickCloseIsSafe(jobs: seq<Domain>, steps: seq<Step>, n: nat, m: nat)
    requires 0 < n <= m <= |steps| && After(jobs, steps, m).Some?
    requires steps[n - 1] == Tick && After(jobs, steps, n).Some? && After(jobs, steps, n).value.closed
    ensures
      var s := After(jobs, steps, m).value;
      |s.workers| == |jobs| && !s.panicked && forall i :: 0 <= i < |s.workers| ==> s.workers[i] == Finished
  {
    EarlierState(jobs, steps, n - 1, n);
    RunKeepsInvariant(jobs, steps, n - 1);
    hide Next, Enabled, Counting, Flowing;
    TickCloses(jobs, After(jobs, steps, n - 1).value);
    AllOverStays(jobs, steps, n, m);
  }

  // ---------- when a panic is still possible ----------

  ghost predicate SomeSending(s: State) {
    exists i :: 0 <= i < |s.workers| && s.workers[i].Sending?
  }

  ghost predicate SomeQuerying(s: State) {
    exists i :: 0 <= i < |s.workers| && s.workers[i] == Querying
  }

  /** Before the channel is closed a panic is ahead if somebody sends, or if the
      context still lets somebody get that far. Afterwards only those count who
      are already at the select. */
  ghost predicate PanicAhead(jobs: seq<Domain>, s: State) {
    SomeSending(s) || (!s.closed && !s.cancelled && (SomeQuerying(s) || |s.workers| < |jobs|))
  }

  lemma StepTowardsPanic(jobs: seq<Domain>, s: State, step: Step)
    requires Counting(jobs, s) && Enabled(jobs, s, step) && !s.panicked && !PanicAhead(jobs, s)
    ensures !Next(jobs, s, step).panicked && !PanicAhead(jobs, Next(jobs, s, step))
  {
    NoneUnfinished(s.workers);
  }

  lemma {:induction false} NoPanicAhead(jobs: seq<Domain>, steps: seq<Step>, n: nat, m: nat)
    requires n <= m <= |steps| && After(jobs, steps, m).Some? && After(jobs, steps, n).Some?
    requires !After(jobs, steps, n).value.panicked && !PanicAhead(jobs, After(jobs, steps, n).value)
    ensures !After(jobs, steps, m).value.panicked && !PanicAhead(jobs, After(jobs, steps, m).value)
  {
    hide Next, Enabled, PanicAhead, Flowing, Counting;
    if n == m {
    } else {
      NoPanicAhead(jobs, steps, n, m - 1);
      RunKeepsInvariant(jobs, steps, m - 1);
      StepTowardsPanic(jobs, After(jobs, steps, m - 1).value, steps[m - 1]);
    }
  }

  lemma NobodyStarts(jobs: seq<Domain>, s: State, step: Step, i: nat)
    requires s.cancelled && Enabled(jobs, s, step)
    ensures
      var t := Next(jobs, s, step);
      && t.cancelled && |s.workers| <= |t.workers|
      && (i < |t.workers| && t.workers[i].Sending? ==> i < |s.workers| && s.workers[i] == t.workers[i])
  {
  }

  /** With a cancelled context nobody comes to the select: whoever waits there
      later waited there, with the same result, when the context was cancelled. */
  lemma {:induction false} NobodyStartsSending(jobs: seq<Domain>, steps: seq<Step>, n: nat, m: nat, i: nat)
    requires n <= m <= |steps| && After(jobs, steps, m).Some?
    requires After(jobs, steps, n).Some? && After(jobs, steps, n).value.cancelled
    ensures
      var s, t := After(jobs, steps, n).value, After(jobs, steps, m).value;
      && t.cancelled && |s.workers| <= |t.workers|
      && (i < |t.workers| && t.workers[i].Sending? ==> i < |s.workers| && s.workers[i] == t.workers[i])
  {
    hide Enabled, Next;
    if n == m {
    } else {
      NobodyStartsSending(jobs, steps, n, m - 1, i);
      NobodyStarts(jobs, After(jobs, steps, m - 1).value, steps[m - 1], i);
    }
  }

  /** On a closed channel, some next step panics exactly when a worker waits to
      send. */
  lemma ClosedPanicsIffSending(jobs: seq<Domain>, s: State)
    requires s.closed && !s.panicked
    ensures (exists step :: Enabled(jobs, s, step) && Next(jobs, s, step).panicked) <==> SomeSending(s)
  {
    if SomeSending(s) {
      var i :| 0 <= i < |s.workers| && s.workers[i].Sending?;
      assert Enabled(jobs, s, Send(i)) && Next(jobs, s, Send(i)).panicked;
    }
  }

  // ---------- building runs ----------

  lemma {:induction false} AfterPrefix(jobs: seq<Domain>, steps: seq<Step>, more: seq<Step>, n: nat)
    requires n <= |steps|
    ensures After(jobs, steps + more, n) == After(jobs, steps, n)
  {
    if n == 0 {
    } else {
      AfterPrefix(jobs, steps, more, n - 1);
    }
  }

  /** A run that leads to a given state. */
  ghost predicate Leads(jobs: seq<Domain>, steps: seq<Step>, s: State) {
    After(jobs, steps, |steps|) == Some(s)
  }

  lemma OneStep(jobs: seq<Domain>, steps: seq<Step>, s: State, step: Step)
    requires Leads(jobs, steps, s) && Enabled(jobs, s, step)
    ensures Leads(jobs, steps + [step], Next(jobs, s, step))
  {
    hide Next, Enabled;
    AfterPrefix(jobs, steps, [step], |steps|);
  }

  /** The state can be reached by going on from the given run. */
  ghost predicate Ahead(jobs: seq<Domain>, steps: seq<Step>, t: State) {
    exists more: seq<Step> :: Leads(jobs, steps + more, t)
  }

  lemma Here(jobs: seq<Domain>, steps: seq<Step>, s: State)
    requires Leads(jobs, steps, s)
    ensures Ahead(jobs, steps, s)
  {
    assert steps + [] == steps;
  }

  lemma Onward(jobs: seq<Domain>, steps: seq<Step>, s: State, step: Step)
    requires Ahead(jobs, steps, s) && Enabled(jobs, s, step)
    ensures Ahead(jobs, steps, Next(jobs, s, step))
  {
    hide Next, Enabled, Leads;
    var more :| Leads(jobs, steps + more, s);
    OneStep(jobs, steps + more, s, step);
    assert steps + more + [step] == steps + (more + [step]);
  }

  lemma AheadIsSound(jobs: seq<Domain>, steps: seq<Step>, s: State)
    requires Ahead(jobs, steps, s)
    ensures Invariant(jobs, s)
  {
    hide Invariant, After;
    var more :| Leads(jobs, steps + more, s);
    RunKeepsInvariant(jobs, steps + more, |steps + more|);
  }

  /** The spawning loop can go on to its end. */
  lemma {:induction false} SpawnAll(jobs: seq<Domain>, steps: seq<Step>, s: State) returns (t: State)
    requires Ahead(jobs, steps, s) && Counting(jobs, s)
    ensures Ahead(jobs, steps, t) && |t.workers| == |jobs| && s.workers <= t.workers
    ensures t == s.(counted := |jobs|, workers := t.workers, counter := t.counter)
    ensures forall i :: |s.workers| <= i < |jobs| ==> t.workers[i] == Querying
    decreases |jobs| - |s.workers|
  {
    hide Ahead, Unfinished;
    if |s.workers| == |jobs| {
      t := s;
    } else {
      var u := s;
      if s.counted == |s.workers| {
        StepKeepsCounting(jobs, s, CountWorker);
        Onward(jobs, steps, s, CountWorker);
        u := Next(jobs, s, CountWorker);
      }
      StepKeepsCounting(jobs, u, Spawn);
      Onward(jobs, steps, u, Spawn);
      t := SpawnAll(jobs, steps, Next(jobs, u, Spawn));
    }
  }

  /** From any state before the close, the collector can come to its loop with
      the workers that exist unchanged. */
  lemma ReachLoop(jobs: seq<Domain>, steps: seq<Step>, s: State) returns (t: State)
    requires Ahead(jobs, steps, s) && Counting(jobs, s) && !s.closed
    ensures Ahead(jobs, steps, t) && t.collector == Looping && !t.closed && s.workers <= t.workers
    ensures t.cancelled == s.cancelled && |t.workers| == |jobs| && t.failed == s.failed
    ensures forall i :: |s.workers| <= i < |jobs| ==> t.workers[i] == Querying
  {
    hide Ahead, Unfinished;
    t := SpawnAll(jobs, steps, s);
    if t.collector == NotStarted {
      Onward(jobs, steps, t, Start);
      t := Next(jobs, t, Start);
    }
  }

  lemma PanicFromSending(jobs: seq<Domain>, steps: seq<Step>, s: State, i: nat) returns (t: State)
    requires Ahead(jobs, steps, s) && Counting(jobs, s) && i < |s.workers| && s.workers[i].Sending?
    ensures Ahead(jobs, steps, t) && t.panicked
  {
    hide Ahead, Unfinished;
    t := s;
    if !s.closed {
      t := ReachLoop(jobs, steps, s);
      Onward(jobs, steps, t, Cancel);
      t := Next(jobs, t, Cancel);
      Onward(jobs, steps, t, ContextDone);
      t := Next(jobs, t, ContextDone);
    }
    Onward(jobs, steps, t, Send(i));
    t := Next(jobs, t, Send(i));
  }

  lemma PanicFromQuerying(jobs: seq<Domain>, steps: seq<Step>, s: State, i: nat) returns (t: State)
    requires Ahead(jobs, steps, s) && Counting(jobs, s) && i < |s.workers| && s.workers[i] == Querying && !s.cancelled
    ensures Ahead(jobs, steps, t) && t.panicked
  {
    hide Ahead, Unfinished;
    var answer := Answered(i, DnsResult(jobs[i], [], 0));
    StepKeepsCounting(jobs, s, answer);
    Onward(jobs, steps, s, answer);
    t := PanicFromSending(jobs, steps, Next(jobs, s, answer), i);
  }

  lemma PanicFromAhead(jobs: seq<Domain>, steps: seq<Step>, s: State) returns (t: State)
    requires Leads(jobs, steps, s) && Counting(jobs, s) && PanicAhead(jobs, s)
    ensures Ahead(jobs, steps, t) && t.panicked
  {
    hide Ahead, Leads, Unfinished;
    Here(jobs, steps, s);
    if SomeSending(s) {
      var i :| 0 <= i < |s.workers| && s.workers[i].Sending?;
      t := PanicFromSending(jobs, steps, s, i);
    } else if SomeQuerying(s) {
      var i :| 0 <= i < |s.workers| && s.workers[i] == Querying;
      t := PanicFromQuerying(jobs, steps, s, i);
    } else {
      var u := SpawnAll(jobs, steps, s);
      AheadIsSound(jobs, steps, u);
      t := PanicFromQuerying(jobs, steps, u, |s.workers|);
    }
  }

  /** The exact condition, in every reachable state: some continuation sends on
      the closed channel if and only if a worker waits at the select, or the
      channel is open, the context is not cancelled, and a worker still queries
      or is still to be spawned. */
  lemma PanicIff(jobs: seq<Domain>, steps: seq<Step>)
    requires After(jobs, steps, |steps|).Some? && !After(jobs, steps, |steps|).value.panicked
    ensures (exists t :: Ahead(jobs, steps, t) && t.panicked) <==> PanicAhead(jobs, After(jobs, steps, |steps|).value)
  {
    RunKeepsInvariant(jobs, steps, |steps|);
    var s := After(jobs, steps, |steps|).value;
    hide Counting, Flowing, PanicAhead, After;
    if PanicAhead(jobs, s) {
      assert Leads(jobs, steps, s);
      var _ := PanicFromAhead(jobs, steps, s);
    } else if t :| Ahead(jobs, steps, t) && t.panicked {
      var more :| Leads(jobs, steps + more, t);
      AfterPrefix(jobs, steps, more, |steps|);
      NoPanicAhead(jobs, steps + more, |steps|, |steps + more|);
    }
  }

  /** Every round with at least one worker has a run that panics. */
  lemma CancelCanPanic(jobs: seq<Domain>)
    ensures (exists steps, s :: Leads(jobs, steps, s) && s.panicked) <==> jobs != []
  {
    hide Leads, Enabled, Next;
    PanicIff(jobs, []);
    assert After(jobs, [], 0) == Some(INITIAL);
    if jobs != [] {
      var t :| Ahead(jobs, [], t) && t.panicked;
      var more :| Leads(jobs, [] + more, t);
    } else {
      forall steps, s | Leads(jobs, steps, s)
        ensures !s.panicked
      {
        assert [] + steps == steps;
        assert Ahead(jobs, [], s);
      }
    }
  }

  // ---------- results that are sent and not published ----------

  /** Every worker that still queries can give up and return. */
  lemma {:induction false} FinishAll(jobs: seq<Domain>, steps: seq<Step>, s: State, n: nat) returns (t: State)
    requires Ahead(jobs, steps, s) && n <= |s.workers|
    requires forall i :: 0 <= i < n ==> s.workers[i] == Finished || s.workers[i] == Querying
    ensures Ahead(jobs, steps, t) && |t.workers| == |s.workers|
    ensures t == s.(workers := t.workers, counter := t.counter)
    ensures forall i :: 0 <= i < n ==> t.workers[i] == Finished
    ensures forall i :: n <= i < |s.workers| ==> t.workers[i] == s.workers[i]
  {
    hide Ahead;
    if n == 0 {
      t := s;
    } else {
      t := FinishAll(jobs, steps, s, n - 1);
      if t.workers[n - 1] == Querying {
        Onward(jobs, steps, t, NoAnswer(n - 1));
        t := Next(jobs, t, NoAnswer(n - 1));
        Onward(jobs, steps, t, Return(n - 1));
        t := Next(jobs, t, Return(n - 1));
      }
    }
  }

  /** One worker sends its result and returns, the others have no answer. */
  lemma OnlyOneSends(jobs: seq<Domain>, w: nat, res: DnsResult) returns (t: State)
    requires w < |jobs| && res.domain == jobs[w]
    ensures Ahead(jobs, [], t) && t.collector == Looping && !t.cancelled && !t.closed && t.counter == 0
    ensures t.sent == [res] && t.received == []
  {
    hide Ahead;
    Start0(jobs);
    t := SpawnAll(jobs, [], INITIAL);
    Onward(jobs, [], t, Start);
    t := Next(jobs, t, Start);
    Onward(jobs, [], t, Answered(w, res));
    t := Next(jobs, t, Answered(w, res));
    Onward(jobs, [], t, Send(w));
    t := Next(jobs, t, Send(w));
    Onward(jobs, [], t, Return(w));
    t := Next(jobs, t, Return(w));
    t := FinishAll(jobs, [], t, |t.workers|);
    AheadIsSound(jobs, [], t);
    NoneUnfinished(t.workers);
  }

  lemma Start0(jobs: seq<Domain>)
    ensures Ahead(jobs, [], INITIAL) && Counting(jobs, INITIAL)
  {
    Here(jobs, [], INITIAL);
  }

  // ---------- what is published ----------

  /** The entries are those the results ask for: their domains, their addresses. */
  ghost predicate SaysAll(lst: map<Domain, StoreSpec.PublishItem>, results: seq<DnsResult>) {
    forall d: Domain ::
      && (d in lst <==> Names(results, d))
      && (d in lst ==> forall a: Addr :: a in lst[d].record <==> NamesWith(results, d, a))
  }

  /** Whatever is still buffered was also received, from another server. */
  ghost predicate Repeated(channel: seq<DnsResult>, received: seq<DnsResult>) {
    forall d: Domain :: Names(channel, d) ==>
      Names(received, d) && forall a: Addr :: NamesWith(channel, d, a) ==> NamesWith(received, d, a)
  }

  lemma NamesAppend(r: seq<DnsResult>, s: seq<DnsResult>, d: Domain, a: Addr)
    ensures Names(r + s, d) <==> Names(r, d) || Names(s, d)
    ensures NamesWith(r + s, d, a) <==> NamesWith(r, d, a) || NamesWith(s, d, a)
  {
    assert forall x :: x in r + s <==> x in r || x in s;
  }

  lemma CollectedSaysAll(receipts: seq<Receipt>, now: Time)
    ensures SaysAll(Collected(receipts, now), Results(receipts))
  {
    hide Collected, Names, NamesWith, Results;
    forall d: Domain
      ensures d in Collected(receipts, now) <==> Names(Results(receipts), d)
      ensures d in Collected(receipts, now) ==>
        forall a: Addr :: a in Collected(receipts, now)[d].record <==> NamesWith(Results(receipts), d, a)
    {
      CollectedNames(receipts, now, d, 0);
      forall a: Addr | d in Collected(receipts, now)
        ensures a in Collected(receipts, now)[d].record <==> NamesWith(Results(receipts), d, a)
      {
        CollectedNames(receipts, now, d, a);
      }
    }
  }

  lemma SaysAllIffRepeated(lst: map<Domain, StoreSpec.PublishItem>, received: seq<DnsResult>, channel: seq<DnsResult>)
    requires SaysAll(lst, received)
    ensures SaysAll(lst, received + channel) <==> Repeated(channel, received)
  {
    hide Names, NamesWith;
    forall d: Domain
      ensures Names(received + channel, d) <==> Names(received, d) || Names(channel, d)
    {
      NamesAppend(received, channel, d, 0);
    }
    forall d: Domain, a: Addr
      ensures NamesWith(received + channel, d, a) <==> NamesWith(received, d, a) || NamesWith(channel, d, a)
    {
      NamesAppend(received, channel, d, a);
    }
    if SaysAll(lst, received + channel) {
      forall d: Domain | Names(channel, d)
        ensures Names(received, d) && forall a: Addr :: NamesWith(channel, d, a) ==> NamesWith(received, d, a)
      {
        assert d in lst;
      }
    } else if Repeated(channel, received) {
      forall d: Domain
        ensures d in lst <==> Names(received + channel, d)
        ensures d in lst ==> forall a: Addr :: a in lst[d].record <==> NamesWith(received + channel, d, a)
      {
        forall a: Addr
          ensures NamesWith(received + channel, d, a) <==> NamesWith(received, d, a)
        {
          NamesImply(channel, d, a);
        }
      }
      assert false;
    }
  }

  lemma NamesImply(results: seq<DnsResult>, d: Domain, a: Addr)
    ensures NamesWith(results, d, a) ==> Names(results, d)
  {
  }

  /** The domains and addresses collected in a run are those of everything that
      was sent if and only if what stayed in the buffer was received from elsewhere; so it is
      whenever the buffer is empty. */
  lemma CollectedIffRepeated(jobs: seq<Domain>, steps: seq<Step>, receipts: seq<Receipt>, now: Time)
    requires After(jobs, steps, |steps|).Some? && Results(receipts) == After(jobs, steps, |steps|).value.received
    ensures
      var s := After(jobs, steps, |steps|).value;
      && (SaysAll(Collected(receipts, now), s.sent) <==> Repeated(s.channel, s.received))
      && (s.channel == [] ==> SaysAll(Collected(receipts, now), s.sent))
  {
    RunKeepsInvariant(jobs, steps, |steps|);
    var s := After(jobs, steps, |steps|).value;
    assert s.received + s.channel == s.sent;
    hide After, Collected, SaysAll, Repeated, Results, Invariant;
    CollectedSaysAll(receipts, now);
    SaysAllIffRepeated(Collected(receipts, now), s.received, s.channel);
    if s.channel == [] {
      assert s.received == s.sent;
    }
  }

  // ---------- whether a round publishes ----------

  /** The collector and every worker have returned. */
  ghost predicate Over(jobs: seq<Domain>, s: State) {
    && |s.workers| == |jobs| && s.collector == Stopped && !s.panicked
    && forall i :: 0 <= i < |s.workers| ==> s.workers[i] == Finished
  }

  /** A round in which some worker returned an error publishes nothing. */
  function PublishedBy(s: State, receipts: seq<Receipt>, now: Time): Option<map<Domain, StoreSpec.PublishItem>> {
    if s.failed then None else Some(Collected(receipts, now))
  }

  ghost function Waits(w: Worker, x: DnsResult): nat {
    if w == Sending(x) then 1 else 0
  }

  /** How many workers wait to send the result. */
  ghost function Waiting(ws: seq<Worker>, x: DnsResult): nat {
    if ws == [] then 0 else Waiting(ws[..|ws| - 1], x) + Waits(ws[|ws| - 1], x)
  }

  lemma {:induction false} WaitingUpdate(ws: seq<Worker>, i: nat, w: Worker, x: DnsResult)
    requires i < |ws|
    ensures Waiting(ws[i := w], x) == Waiting(ws, x) - Waits(ws[i], x) + Waits(w, x)
  {
    var init := ws[..|ws| - 1];
    if i == |init| {
      assert ws[i := w][..|ws| - 1] == init;
    } else {
      WaitingUpdate(init, i, w, x);
      assert ws[i := w][..|ws| - 1] == init[i := w];
    }
  }

  lemma WaitingSpawn(ws: seq<Worker>, x: DnsResult)
    ensures Waiting(ws + [Querying], x) == Waiting(ws, x)
  {
    assert (ws + [Querying])[..|ws|] == ws;
  }

  lemma {:induction false} NobodyWaits(ws: seq<Worker>, x: DnsResult)
    requires forall i :: 0 <= i < |ws| ==> ws[i] == Finished
    ensures Waiting(ws, x) == 0
  {
    if ws == [] {
    } else {
      NobodyWaits(ws[..|ws| - 1], x);
    }
  }

  /** Unless a worker failed, every answer was sent or is about to be. */
  ghost predicate Accounted(s: State, x: DnsResult) {
    s.failed || multiset(s.answered)[x] == multiset(s.sent)[x] + Waiting(s.workers, x)
  }

  lemma StepKeepsAccounted(jobs: seq<Domain>, s: State, step: Step, x: DnsResult)
    requires Accounted(s, x) && Enabled(jobs, s, step)
    ensures Accounted(Next(jobs, s, step), x)
  {
    hide Waiting;
    match step
    case Spawn =>
      WaitingSpawn(s.workers, x);
    case Answered(i, res) =>
      WaitingUpdate(s.workers, i, Sending(res), x);
    case NoAnswer(i) =>
      WaitingUpdate(s.workers, i, Leaving, x);
    case Send(i) =>
      WaitingUpdate(s.workers, i, Leaving, x);
    case Return(i) =>
      WaitingUpdate(s.workers, i, Finished, x);
    case _ =>
  }

  lemma {:induction false} RunKeepsAccounted(jobs: seq<Domain>, steps: seq<Step>, n: nat, x: DnsResult)
    requires n <= |steps| && After(jobs, steps, n).Some?
    ensures Accounted(After(jobs, steps, n).value, x)
  {
    hide Next, Enabled, Accounted;
    if n == 0 {
      NoneAnswered(x);
    } else {
      RunKeepsAccounted(jobs, steps, n - 1, x);
      StepKeepsAccounted(jobs, After(jobs, steps, n - 1).value, steps[n - 1], x);
    }
  }

  lemma NoneAnswered(x: DnsResult)
    ensures Accounted(INITIAL, x)
  {
  }

  /** A round that is over and did not fail sent every answer. */
  lemma EveryAnswerSent(jobs: seq<Domain>, steps: seq<Step>)
    requires After(jobs, steps, |steps|).Some? && Over(jobs, After(jobs, steps, |steps|).value)
    ensures
      var s := After(jobs, steps, |steps|).value;
      !s.failed ==> multiset(s.answered) == multiset(s.sent)
  {
    var s := After(jobs, steps, |steps|).value;
    forall x: DnsResult
      ensures !s.failed ==> multiset(s.answered)[x] == multiset(s.sent)[x]
    {
      RunKeepsAccounted(jobs, steps, |steps|, x);
      NobodyWaits(s.workers, x);
    }
  }

  lemma SameResultsSaySame(lst: map<Domain, StoreSpec.PublishItem>, r: seq<DnsResult>, s: seq<DnsResult>)
    requires multiset(r) == multiset(s)
    ensures SaysAll(lst, r) <==> SaysAll(lst, s)
  {
    forall x: DnsResult
      ensures x in r <==> x in s
    {
      assert x in r <==> x in multiset(r);
      assert x in s <==> x in multiset(s);
    }
    forall d: Domain, a: Addr
      ensures NamesWith(r, d, a) <==> NamesWith(s, d, a)
    {
    }
    forall d: Domain
      ensures Names(r, d) <==> Names(s, d)
    {
    }
  }

  /** A worker returns the error of the context. */
  predicate Errs(step: Step) {
    step.Refused? || step.GiveUp?
  }

  lemma {:induction false} FailedIffErred(jobs: seq<Domain>, steps: seq<Step>, n: nat)
    requires n <= |steps| && After(jobs, steps, n).Some?
    ensures After(jobs, steps, n).value.failed <==> exists k :: 0 <= k < n && Errs(steps[k])
  {
    if n == 0 {
    } else {
      FailedIffErred(jobs, steps, n - 1);
      FailedStep(jobs, After(jobs, steps, n - 1).value, steps[n - 1]);
      hide Next, Enabled, Errs;
    }
  }

  lemma FailedStep(jobs: seq<Domain>, s: State, step: Step)
    requires Enabled(jobs, s, step)
    ensures Next(jobs, s, step).failed <==> s.failed || Errs(step)
  {
  }

  /** When a round is over it publishes if and only if no worker returned an
      error, so always without a cancellation; and a round that publishes gives the domains and addresses of every answer that any worker
      had if and only if what stayed in the buffer was received from elsewhere. */
  lemma PublishedIffRepeated(jobs: seq<Domain>, steps: seq<Step>, receipts: seq<Receipt>, now: Time)
    requires After(jobs, steps, |steps|).Some? && Over(jobs, After(jobs, steps, |steps|).value)
    requires Results(receipts) == After(jobs, steps, |steps|).value.received
    ensures
      var s := After(jobs, steps, |steps|).value;
      var published := PublishedBy(s, receipts, now);
      && (published.Some? <==> forall step :: step in steps ==> !Errs(step))
      && (!s.cancelled ==> published.Some?)
      && (published.Some? ==>
            && multiset(s.answered) == multiset(s.sent)
            && (SaysAll(published.value, s.answered) <==> Repeated(s.channel, s.received)))
  {
    RunKeepsInvariant(jobs, steps, |steps|);
    EveryAnswerSent(jobs, steps);
    FailedIffErred(jobs, steps, |steps|);
    CollectedIffRepeated(jobs, steps, receipts, now);
    var s := After(jobs, steps, |steps|).value;
    hide After, Collected, SaysAll, Repeated, Results, Flowing;
    if !s.failed {
      SameResultsSaySame(Collected(receipts, now), s.answered, s.sent);
    }
  }

  /** The tick may win while a result is still buffered. Whatever the workers, and
      whatever one of them found, that result can be sent and never merged,
      although nothing was cancelled, so the batch lacks its domain. */
  lemma TickCanDropResults(jobs: seq<Domain>, w: nat, res: DnsResult)
    requires w < |jobs| && res.domain == jobs[w]
    ensures exists steps, s :: Leads(jobs, steps, s) && s.closed && !s.cancelled && s.sent == [res]
                               && !Repeated(s.channel, s.received)
  {
    var t := OnlyOneSends(jobs, w, res);
    AheadIsSound(jobs, [], t);
    assert t.channel == [res] by { assert t.received + t.channel == t.channel; }
    assert Names([res], res.domain) && !Names([], res.domain);
    Onward(jobs, [], t, Tick);
    var s := Next(jobs, t, Tick);
    hide Leads;
    var more :| Leads(jobs, [] + more, s);
  }

  // ---------- rounds that can happen ----------

  /** Every worker of a state has yet to get its answer, and nothing was sent. */
  ghost predicate AllAsk(jobs: seq<Domain>, s: State) {
    && |s.workers| == |jobs| && s.collector == Looping && !s.closed && !s.cancelled && !s.failed && !s.panicked
    && s.sent == [] && s.received == [] && s.channel == [] && s.answered == []
    && forall i :: 0 <= i < |s.workers| ==> s.workers[i] == Querying
  }

  ghost predicate OnePerWorker(jobs: seq<Domain>, results: seq<DnsResult>) {
    |results| == |jobs| && forall i :: 0 <= i < |jobs| ==> results[i].domain == jobs[i]
  }

  lemma EverybodyAsks(jobs: seq<Domain>) returns (s: State)
    ensures Ahead(jobs, [], s) && AllAsk(jobs, s)
  {
    hide Ahead;
    Start0(jobs);
    s := SpawnAll(jobs, [], INITIAL);
    Onward(jobs, [], s, Start);
    s := Next(jobs, s, Start);
  }

  /** The first n workers have sent their results and returned; either each was
      received at once, or none was. */
  ghost predicate Served(s: State, results: seq<DnsResult>, n: nat, take: bool, t: State)
    requires n <= |results|
  {
    && |t.workers| == |s.workers|
    && t == s.(workers := t.workers, counter := t.counter, answered := results[..n], sent := results[..n],
               channel := if take then [] else results[..n], received := if take then results[..n] else [])
    && (forall i :: 0 <= i < n && i < |t.workers| ==> t.workers[i] == Finished)
    && (forall i :: n <= i < |t.workers| ==> t.workers[i] == Querying)
  }

  lemma {:induction false} Serve(jobs: seq<Domain>, s: State, results: seq<DnsResult>, n: nat, take: bool)
    returns (t: State)
    requires Ahead(jobs, [], s) && AllAsk(jobs, s) && OnePerWorker(jobs, results) && n <= |jobs|
    requires !take ==> |jobs| <= 1000
    ensures Ahead(jobs, [], t) && Served(s, results, n, take, t)
  {
    hide Ahead;
    if n == 0 {
      t := s;
    } else {
      var u := Serve(jobs, s, results, n - 1, take);
      t := ServeOne(jobs, u, n - 1, results[n - 1], take);
      assert results[..n] == results[..n - 1] + [results[n - 1]];
    }
  }

  lemma ServeOne(jobs: seq<Domain>, s: State, i: nat, res: DnsResult, take: bool) returns (t: State)
    requires Ahead(jobs, [], s) && i < |s.workers| && i < |jobs| && s.workers[i] == Querying && res.domain == jobs[i]
    requires s.collector == Looping && !s.cancelled && !s.closed && |s.channel| < 1000
    requires take ==> s.channel == []
    ensures Ahead(jobs, [], t)
    ensures t == s.(workers := s.workers[i := Finished], counter := s.counter - 1, answered := s.answered + [res],
                    sent := s.sent + [res], channel := if take then [] else s.channel + [res],
                    received := if take then s.received + [res] else s.received)
  {
    hide Ahead;
    Onward(jobs, [], s, Answered(i, res));
    t := Next(jobs, s, Answered(i, res));
    Onward(jobs, [], t, Send(i));
    t := Next(jobs, t, Send(i));
    Onward(jobs, [], t, Return(i));
    t := Next(jobs, t, Return(i));
    if take {
      Onward(jobs, [], t, Receive);
      t := Next(jobs, t, Receive);
    }
    assert s.workers[i := Sending(res)][i := Leaving][i := Finished] == s.workers[i := Finished];
  }

  /** The step by which the collector closes the channel. */
  predicate Closes(last: Step, cancel: bool) {
    last == Tick || (last == ContextDone && cancel)
  }

  /** The collector stops: by its tick, whether or not the context is cancelled
      by then, or on the cancelled context. */
  lemma StopCollector(jobs: seq<Domain>, steps: seq<Step>, s: State, last: Step, cancel: bool)
    returns (more: seq<Step>, t: State)
    requires Leads(jobs, steps, s) && s.collector == Looping && !s.cancelled && |s.workers| == |jobs| && !s.panicked
    requires (forall i :: 0 <= i < |s.workers| ==> s.workers[i] == Finished) && Closes(last, cancel)
    ensures Leads(jobs, more + [last], t) && Over(jobs, t)
    ensures t == s.(closed := true, collector := Stopped, cancelled := cancel)
  {
    RunKeepsInvariant(jobs, steps, |steps|);
    NoneUnfinished(s.workers);
    hide Leads, Unfinished, Flowing;
    var u := s;
    more := steps;
    if cancel {
      OneStep(jobs, steps, s, Cancel);
      more := steps + [Cancel];
      u := Next(jobs, s, Cancel);
    }
    OneStep(jobs, more, u, last);
    t := Next(jobs, u, last);
  }

  lemma LeadsThere(jobs: seq<Domain>, s: State) returns (steps: seq<Step>)
    requires Ahead(jobs, [], s)
    ensures Leads(jobs, steps, s)
  {
    hide Leads;
    var more: seq<Step> :| Leads(jobs, [] + more, s);
    steps := more;
    assert [] + more == more;
  }

  /** Whatever the workers and whatever each of them finds: a round that is over,
      received every result and publishes the domains and addresses of all. Its
      last step is the tick, of a round cancelled by then or never, or the end of
      the cancelled context. */
  lemma EveryResultCanBePublished(jobs: seq<Domain>, receipts: seq<Receipt>, now: Time, last: Step, cancel: bool)
    requires OnePerWorker(jobs, Results(receipts)) && Closes(last, cancel)
    ensures exists steps, s :: Leads(jobs, steps + [last], s) && Over(jobs, s) && s.cancelled == cancel
                               && s.received == Results(receipts)
                               && PublishedBy(s, receipts, now) == Some(Collected(receipts, now))
                               && SaysAll(Collected(receipts, now), Results(receipts))
  {
    var results := Results(receipts);
    hide Ahead, Over, SaysAll, Collected, Results, Leads;
    var s := EverybodyAsks(jobs);
    var t := Serve(jobs, s, results, |jobs|, true);
    assert results[..|jobs|] == results;
    var steps := LeadsThere(jobs, t);
    var more, u := StopCollector(jobs, steps, t, last, cancel);
    CollectedSaysAll(receipts, now);
  }

  /** As long as the buffer has room for all, nothing need be received before an
      uncancelled round closes: it then publishes nothing of what was sent. */
  lemma EveryResultCanBeDropped(jobs: seq<Domain>, results: seq<DnsResult>, now: Time)
    requires OnePerWorker(jobs, results) && |jobs| <= 1000
    ensures exists steps, s :: Leads(jobs, steps, s) && Over(jobs, s) && !s.cancelled && s.sent == results
                               && PublishedBy(s, [], now) == Some(map[]) && s.received == []
  {
    hide Ahead, Over, Leads;
    var s := EverybodyAsks(jobs);
    var t := Serve(jobs, s, results, |jobs|, false);
    assert results[..|jobs|] == results;
    var steps := LeadsThere(jobs, t);
    var more, u := StopCollector(jobs, steps, t, Tick, false);
  }

  // ---------- every round can end ----------

  predicate Unanswered(w: Worker) {
    w == Querying || w.Sending?
  }

  /** With a cancelled context every worker can return, with an error if it had
      yet to answer. */
  lemma {:induction false} GiveUpAll(jobs: seq<Domain>, steps: seq<Step>, s: State, n: nat) returns (t: State)
    requires Ahead(jobs, steps, s) && n <= |s.workers| && s.cancelled
    ensures Ahead(jobs, steps, t) && |t.workers| == |s.workers|
    ensures t == s.(workers := t.workers, counter := t.counter, failed := t.failed)
    ensures t.failed <==> s.failed || exists i :: 0 <= i < n && Unanswered(s.workers[i])
    ensures forall i :: 0 <= i < n ==> t.workers[i] == Finished
    ensures forall i :: n <= i < |s.workers| ==> t.workers[i] == s.workers[i]
  {
    hide Ahead;
    if n == 0 {
      t := s;
    } else {
      t := GiveUpAll(jobs, steps, s, n - 1);
      var i := n - 1;
      if t.workers[i] == Querying {
        Onward(jobs, steps, t, Refused(i));
        t := Next(jobs, t, Refused(i));
      } else if t.workers[i].Sending? {
        Onward(jobs, steps, t, GiveUp(i));
        t := Next(jobs, t, GiveUp(i));
      }
      if t.workers[i] == Leaving {
        Onward(jobs, steps, t, Return(i));
        t := Next(jobs, t, Return(i));
      }
    }
  }

  lemma EndCancelled(jobs: seq<Domain>, steps: seq<Step>, s: State) returns (t: State)
    requires Ahead(jobs, steps, s) && |s.workers| == |jobs| && s.collector != NotStarted && !s.panicked
    ensures Ahead(jobs, steps, t) && Over(jobs, t)
    ensures t.failed <==> s.failed || exists i :: 0 <= i < |s.workers| && Unanswered(s.workers[i])
  {
    hide Ahead, Unanswered;
    Onward(jobs, steps, s, Cancel);
    t := GiveUpAll(jobs, steps, Next(jobs, s, Cancel), |s.workers|);
    if t.collector == Looping {
      Onward(jobs, steps, t, ContextDone);
      t := Next(jobs, t, ContextDone);
    }
  }

  /** From every reachable state without a panic the round can end, and it can
      end without publishing as long as some worker has yet to answer. */
  lemma RoundCanEnd(jobs: seq<Domain>, steps: seq<Step>)
    requires After(jobs, steps, |steps|).Some? && !After(jobs, steps, |steps|).value.panicked
    ensures
      var s := After(jobs, steps, |steps|).value;
      exists t :: Ahead(jobs, steps, t) && Over(jobs, t) &&
        (t.failed <==> s.failed || |s.workers| < |jobs| ||
                       exists i :: 0 <= i < |s.workers| && Unanswered(s.workers[i]))
  {
    RunKeepsInvariant(jobs, steps, |steps|);
    var s := After(jobs, steps, |steps|).value;
    Here(jobs, steps, s);
    hide Ahead, Flowing, After, Unfinished, Over;
    if s.closed {
      var t := EndCancelled(jobs, steps, s);
    } else {
      var u := ReachLoop(jobs, steps, s);
      AheadIsSound(jobs, steps, u);
      assert |s.workers| < |jobs| ==> Unanswered(u.workers[|s.workers|]);
      var t := EndCancelled(jobs, steps, u);
    }
  }

  /** The collector can take everything out of the buffer. */
  lemma {:induction false} Drain(jobs: seq<Domain>, steps: seq<Step>, s: State) returns (t: State)
    requires Ahead(jobs, steps, s) && s.collector == Looping
    ensures Ahead(jobs, steps, t) && t == s.(channel := [], received := s.received + s.channel)
    decreases |s.channel|
  {
    hide Ahead;
    if s.channel == [] {
      t := s;
      assert s.received + s.channel == s.received;
    } else {
      Onward(jobs, steps, s, Receive);
      t := Drain(jobs, steps, Next(jobs, s, Receive));
      assert s.received + [s.channel[0]] + s.channel[1..] == s.received + s.channel;
    }
  }

  /** While the collector takes what is sent, every worker can return without an
      error. */
  lemma {:induction false} AnswerAll(jobs: seq<Domain>, steps: seq<Step>, s: State, n: nat) returns (t: State)
    requires Ahead(jobs, steps, s) && n <= |s.workers| && s.collector == Looping && !s.closed && s.channel == []
    ensures Ahead(jobs, steps, t) && |t.workers| == |s.workers|
    ensures t == s.(workers := t.workers, counter := t.counter, sent := t.sent, received := t.received)
    ensures forall i :: 0 <= i < n ==> t.workers[i] == Finished
    ensures forall i :: n <= i < |s.workers| ==> t.workers[i] == s.workers[i]
  {
    hide Ahead;
    if n == 0 {
      t := s;
    } else {
      t := AnswerAll(jobs, steps, s, n - 1);
      var i := n - 1;
      if t.workers[i] == Querying {
        Onward(jobs, steps, t, NoAnswer(i));
        t := Next(jobs, t, NoAnswer(i));
      } else if t.workers[i].Sending? {
        t := SendAndReceive(jobs, steps, t, i);
      }
      if t.workers[i] == Leaving {
        Onward(jobs, steps, t, Return(i));
        t := Next(jobs, t, Return(i));
      }
    }
  }

  lemma SendAndReceive(jobs: seq<Domain>, steps: seq<Step>, s: State, i: nat) returns (t: State)
    requires Ahead(jobs, steps, s) && s.collector == Looping && !s.closed && s.channel == []
    requires i < |s.workers| && s.workers[i].Sending?
    ensures Ahead(jobs, steps, t)
    ensures t == s.(workers := s.workers[i := Leaving], sent := t.sent, received := t.received)
  {
    hide Ahead;
    Onward(jobs, steps, s, Send(i));
    t := Next(jobs, s, Send(i));
    Onward(jobs, steps, t, Receive);
    t := Next(jobs, t, Receive);
  }

  /** From every reachable state in which the channel is open and the context is
      not cancelled, the round can end uncancelled with nothing left in the
      buffer, so that everything sent is published. */
  lemma RoundCanEndWell(jobs: seq<Domain>, steps: seq<Step>)
    requires After(jobs, steps, |steps|).Some?
    requires !After(jobs, steps, |steps|).value.closed && !After(jobs, steps, |steps|).value.cancelled
    ensures exists t :: Ahead(jobs, steps, t) && Over(jobs, t) && !t.cancelled && !t.failed && t.channel == []
  {
    RunKeepsInvariant(jobs, steps, |steps|);
    var s := After(jobs, steps, |steps|).value;
    Here(jobs, steps, s);
    hide Ahead, Flowing, After, Unfinished;
    var t := ReachLoop(jobs, steps, s);
    t := Drain(jobs, steps, t);
    t := AnswerAll(jobs, steps, t, |t.workers|);
    AheadIsSound(jobs, steps, t);
    NoneUnfinished(t.workers);
    Onward(jobs, steps, t, Tick);
    t := Next(jobs, t, Tick);
    AheadIsSound(jobs, steps, t);
    assert Over(jobs, t);
  }
}
