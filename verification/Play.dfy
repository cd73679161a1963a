/**
 Running the tasks of a play on its hosts. The linear strategy runs one `ForAll` per task, the free strategy a
 single one over all tasks; either stops at the first `ForAll` that reports an error. A task on a host is an
 uninterpreted deterministic step on that host's own state, which may fail.
 */
module Play {
  import opened Parallel
  import opened Options

  datatype Setup<!T, !S> = Setup(hosts: seq<S>, tasks: seq<T>, run: (nat, T, S) -> (S, Error))

  datatype Strategy = Linear | Free

  /** A host's state, how many tasks of the current batch it has run, its last error, and all it has run so far. */
  datatype Local<T, S> = Local(state: S, pos: nat, err: Error, ran: seq<T>)

  /** Number of batches: one per task, or one in all. */
  function Batches<T, S>(p: Setup<T, S>, strategy: Strategy): nat {
    if strategy == Linear then |p.tasks| else 1
  }

  /** The tasks before batch `b`. */
  function Offset<T, S>(p: Setup<T, S>, strategy: Strategy, b: nat): (o: nat)
    requires b <= Batches(p, strategy)
    ensures o <= |p.tasks|
  {
    if strategy == Linear then b else if b == 0 then 0 else |p.tasks|
  }

  function Batch<T, S>(p: Setup<T, S>, strategy: Strategy, b: nat): seq<T>
    requires b < Batches(p, strategy)
  {
    p.tasks[Offset(p, strategy, b)..Offset(p, strategy, b + 1)]
  }

  /** `executeTasksOnHost`: the tasks in turn, up to and including the first that fails. */
  function RunNext<T, S>(p: Setup<T, S>, batch: seq<T>, i: nat, l: Local<T, S>): Local<T, S> {
    if l.pos < |batch| then
      var (state, err) := p.run(i, batch[l.pos], l.state);
      Local(state, l.pos + 1, err, l.ran + [batch[l.pos]])
    else l
  }

  function Outcome<T, S>(batch: seq<T>, l: Local<T, S>): Option<Error> {
    if l.err.Some? then Some(l.err)
    else if l.pos < |batch| then None
    else Some(None)
  }

  /** The fan-out of one batch over all hosts. */
  function Fan<T, S>(p: Setup<T, S>, batch: seq<T>, base: seq<Local<T, S>>): System<Local<T, S>> {
    System(base, (i, l) => RunNext(p, batch, i, l), l => Outcome(batch, l))
  }

  /** The batch under way, the hosts as they were when it began, its fan-out, and whether the play has failed. */
  datatype PlayState<T, S> = PlayState(batch: nat, base: seq<Local<T, S>>, fan: State<Local<T, S>>, failed: bool)

  function Rebase<T, S>(locals: seq<Local<T, S>>): (base: seq<Local<T, S>>)
    ensures |base| == |locals|
  {
    seq(|locals|, i requires 0 <= i < |locals| => locals[i].(pos := 0, err := None))
  }

  function StartBatch<T, S>(p: Setup<T, S>, strategy: Strategy, b: nat, base: seq<Local<T, S>>): PlayState<T, S>
    requires b <= Batches(p, strategy)
  {
    var batch := if b < Batches(p, strategy) then Batch(p, strategy, b) else [];
    PlayState(b, base, Parallel.Start(Fan(p, batch, base)), false)
  }

  function StartPlay<T, S>(p: Setup<T, S>, strategy: Strategy): PlayState<T, S> {
    StartBatch(p, strategy, 0, seq(|p.hosts|, i requires 0 <= i < |p.hosts| => Local(p.hosts[i], 0, None, [])))
  }

  predicate Done<T, S>(p: Setup<T, S>, strategy: Strategy, s: PlayState<T, S>) {
    s.failed || s.batch == Batches(p, strategy)
  }

  predicate AnyError(slots: seq<Error>) {
    exists i :: 0 <= i < |slots| && slots[i].Some?
  }

  /** Some worker, channel or receive step of the batch; or the barrier after it. */
  ghost predicate PlayNext<T(!new), S(!new)>(
    p: Setup<T, S>, strategy: Strategy, s: PlayState<T, S>, s': PlayState<T, S>)
  {
    && !s.failed && s.batch < Batches(p, strategy)
    && if Finished(s.fan) then
         s' == if AnyError(s.fan.slots) then s.(failed := true)
               else StartBatch(p, strategy, s.batch + 1, Rebase(s.fan.locals))
       else
         && Parallel.Next(Fan(p, Batch(p, strategy, s.batch), s.base), s.fan, s'.fan)
         && s' == s.(fan := s'.fan)
  }

  ghost predicate Execution<T(!new), S(!new)>(p: Setup<T, S>, strategy: Strategy, trace: seq<PlayState<T, S>>) {
    && |trace| > 0
    && trace[0] == StartPlay(p, strategy)
    && forall i | 0 < i < |trace| :: PlayNext(p, strategy, trace[i - 1], trace[i])
  }

  ghost predicate Reachable<T(!new), S(!new)>(p: Setup<T, S>, strategy: Strategy, s: PlayState<T, S>) {
    exists trace :: Execution(p, strategy, trace) && s == trace[|trace| - 1]
  }

  // ---------- One host on its own ----------

  /** The state after the first `k` tasks, and the error of the last of them. */
  function Alone<T, S>(p: Setup<T, S>, i: nat, k: nat): (S, Error)
    requires i < |p.hosts| && k <= |p.tasks|
  {
    if k == 0 then (p.hosts[i], None) else p.run(i, p.tasks[k - 1], Alone(p, i, k - 1).0)
  }

  /** None of the first `k` tasks fails on host `i`. */
  predicate Fine<T, S>(p: Setup<T, S>, i: nat, k: nat)
    requires i < |p.hosts| && k <= |p.tasks|
  {
    k == 0 || (Fine(p, i, k - 1) && Alone(p, i, k).1.None?)
  }

  lemma {:induction false} FinePrefix<T, S>(p: Setup<T, S>, i: nat, j: nat, k: nat)
    requires i < |p.hosts| && j <= k <= |p.tasks| && Fine(p, i, k)
    ensures Fine(p, i, j)
  {
    if j < k { FinePrefix(p, i, j, k - 1); }
  }

  // ---------- What every step keeps ----------

  /** The host has run exactly the first `o + l.pos` tasks, alone, and only the last of them may have failed. */
  ghost predicate Follows<T, S>(p: Setup<T, S>, i: nat, o: nat, batch: seq<T>, l: Local<T, S>)
    requires i < |p.hosts| && o + |batch| <= |p.tasks|
  {
    && l.pos <= |batch|
    && l.ran == p.tasks[..o + l.pos]
    && l.state == Alone(p, i, o + l.pos).0
    && (l.pos == 0 ==> l.err == None && Fine(p, i, o))
    && (l.pos > 0 ==> l.err == Alone(p, i, o + l.pos).1 && Fine(p, i, o + l.pos - 1))
  }

  lemma FollowsNext<T, S>(p: Setup<T, S>, i: nat, o: nat, batch: seq<T>, l: Local<T, S>)
    requires i < |p.hosts| && o + |batch| <= |p.tasks| && batch == p.tasks[o..o + |batch|]
    requires Follows(p, i, o, batch, l) && Outcome(batch, l).None?
    ensures Follows(p, i, o, batch, RunNext(p, batch, i, l))
  {
    var k := o + l.pos;
    assert batch[l.pos] == p.tasks[k];
    assert p.tasks[..k + 1] == p.tasks[..k] + [p.tasks[k]];
  }

  lemma {:induction false} IterateFollows<T(!new), S(!new)>(
    p: Setup<T, S>, o: nat, batch: seq<T>, base: seq<Local<T, S>>, i: nat, k: nat)
    requires i < |p.hosts| == |base| && o + |batch| <= |p.tasks| && batch == p.tasks[o..o + |batch|]
    requires Follows(p, i, o, batch, base[i]) && StillRunning(Fan(p, batch, base), i, k)
    ensures Follows(p, i, o, batch, Iterate(Fan(p, batch, base), i, k))
  {
    var fan := Fan(p, batch, base);
    if k > 0 {
      assert StillRunning(fan, i, k - 1);
      IterateFollows(p, o, batch, base, i, k - 1);
      var l := Iterate(fan, i, k - 1);
      assert fan.outcome(l).None?;
      FollowsNext(p, i, o, batch, l);
    }
  }

  /** The fan-out a play is in; after the last batch there is nothing to run. */
  function Current<T, S>(p: Setup<T, S>, strategy: Strategy, b: nat): (batch: seq<T>)
    requires b <= Batches(p, strategy)
    ensures Offset(p, strategy, b) + |batch| <= |p.tasks|
  {
    if b < Batches(p, strategy) then Batch(p, strategy, b) else []
  }

  ghost predicate PlayInv<T(!new), S(!new)>(p: Setup<T, S>, strategy: Strategy, s: PlayState<T, S>) {
    && s.batch <= Batches(p, strategy)
    && |s.base| == |p.hosts|
    && Parallel.Inv(Fan(p, Current(p, strategy, s.batch), s.base), s.fan)
    && (forall i: nat | i < |p.hosts| ::
          && s.base[i].pos == 0
          && Follows(p, i, Offset(p, strategy, s.batch), Current(p, strategy, s.batch), s.base[i]))
    && (s.failed ==> s.batch < Batches(p, strategy) && Finished(s.fan) && AnyError(s.fan.slots))
  }

  /** Every host follows its own sequential run at every moment. */
  lemma HostFollows<T(!new), S(!new)>(p: Setup<T, S>, strategy: Strategy, s: PlayState<T, S>, i: nat)
    requires PlayInv(p, strategy, s) && i < |p.hosts|
    ensures |s.fan.locals| == |s.fan.stages| == |s.fan.slots| == |p.hosts|
    ensures Follows(p, i, Offset(p, strategy, s.batch), Current(p, strategy, s.batch), s.fan.locals[i])
  {
    var batch := Current(p, strategy, s.batch);
    var fan := Fan(p, batch, s.base);
    assert OnTrack(fan, i, s.fan.locals[i]);
    var k: nat :| s.fan.locals[i] == Iterate(fan, i, k) && StillRunning(fan, i, k);
    IterateFollows(p, Offset(p, strategy, s.batch), batch, s.base, i, k);
  }

  lemma StartBatchInv<T(!new), S(!new)>(p: Setup<T, S>, strategy: Strategy, b: nat, base: seq<Local<T, S>>)
    requires b <= Batches(p, strategy) && |base| == |p.hosts|
    requires forall i: nat | i < |p.hosts| ::
      base[i].pos == 0 && Follows(p, i, Offset(p, strategy, b), Current(p, strategy, b), base[i])
    ensures PlayInv(p, strategy, StartBatch(p, strategy, b, base))
  {
    StartInv(Fan(p, Current(p, strategy, b), base));
  }

  lemma FanOutcomes<T(!new), S(!new)>(p: Setup<T, S>, batch: seq<T>, base: seq<Local<T, S>>)
    ensures Fan(p, batch, base).start == base
  {}

  lemma FanOutcome<T(!new), S(!new)>(p: Setup<T, S>, batch: seq<T>, base: seq<Local<T, S>>, l: Local<T, S>)
    ensures Fan(p, batch, base).outcome(l) == Outcome(batch, l) && Fan(p, batch, base).start == base
  {}

  lemma BatchLength<T(!new), S(!new)>(p: Setup<T, S>, strategy: Strategy, b: nat)
    requires b < Batches(p, strategy)
    ensures Offset(p, strategy, b) + |Batch(p, strategy, b)| == Offset(p, strategy, b + 1)
  {}

  /** A host that finished its batch without error starts the next one. */
  lemma BarrierLocal<T(!new), S(!new)>(p: Setup<T, S>, strategy: Strategy, b: nat, i: nat, l: Local<T, S>)
    requires b < Batches(p, strategy) && i < |p.hosts|
    requires Follows(p, i, Offset(p, strategy, b), Batch(p, strategy, b), l) &&
        Outcome(Batch(p, strategy, b), l) == Some(None)
    ensures Follows(p, i, Offset(p, strategy, b + 1), Current(p, strategy, b + 1), l.(pos := 0, err := None))
  {
    hide Alone;
    BatchLength(p, strategy, b);
    assert l.pos == |Batch(p, strategy, b)|;
  }

  /** At a barrier without errors every host has finished the whole batch. */
  lemma BarrierFollows<T(!new), S(!new)>(p: Setup<T, S>, strategy: Strategy, s: PlayState<T, S>, i: nat)
    requires PlayInv(p, strategy, s) && s.batch < Batches(p, strategy) && Finished(s.fan) && i < |p.hosts|
    requires !AnyError(s.fan.slots)
    ensures |s.fan.locals| == |p.hosts|
    ensures Follows(p, i, Offset(p, strategy, s.batch + 1), Current(p, strategy, s.batch + 1), Rebase(s.fan.locals)[i])
  {
    hide Follows, Inv, Fan, Outcome;
    var batch := Batch(p, strategy, s.batch);
    HostFollows(p, strategy, s, i);
    FanOutcome(p, batch, s.base, s.fan.locals[i]);
    SlotsAreOutcomes(Fan(p, batch, s.base), s.fan, i);
    assert s.fan.slots[i].None?;
    BarrierLocal(p, strategy, s.batch, i, s.fan.locals[i]);
  }

  lemma PlayStartInv<T(!new), S(!new)>(p: Setup<T, S>, strategy: Strategy)
    ensures PlayInv(p, strategy, StartPlay(p, strategy))
  {
    var base := seq(|p.hosts|, i requires 0 <= i < |p.hosts| => Local(p.hosts[i], 0, None, []));
    StartBatchInv(p, strategy, 0, base);
  }

  lemma PlayNextInv<T(!new), S(!new)>(p: Setup<T, S>, strategy: Strategy, s: PlayState<T, S>, s': PlayState<T, S>)
    requires PlayInv(p, strategy, s) && PlayNext(p, strategy, s, s')
    ensures PlayInv(p, strategy, s')
  {
    hide Follows, Inv, Fan, Parallel.Next, StartBatch, Batch, Offset;
    if !Finished(s.fan) {
      NextInv(Fan(p, Batch(p, strategy, s.batch), s.base), s.fan, s'.fan);
    } else if !AnyError(s.fan.slots) {
      var base := Rebase(s.fan.locals);
      InvLength(Fan(p, Batch(p, strategy, s.batch), s.base), s.fan);
      assert |base| == |p.hosts| by { FanOutcomes(p, Batch(p, strategy, s.batch), s.base); }
      forall i: nat | i < |p.hosts| ensures
        && base[i].pos == 0
        && Follows(p, i, Offset(p, strategy, s.batch + 1), Current(p, strategy, s.batch + 1), base[i])
      {
        BarrierFollows(p, strategy, s, i);
      }
      StartBatchInv(p, strategy, s.batch + 1, base);
    }
  }

  lemma {:induction false} ExecutionInv<T(!new), S(!new)>(
    p: Setup<T, S>, strategy: Strategy, trace: seq<PlayState<T, S>>, k: nat)
    requires Execution(p, strategy, trace) && k < |trace|
    ensures PlayInv(p, strategy, trace[k])
  {
    if k == 0 {
      PlayStartInv(p, strategy);
    } else {
      ExecutionInv(p, strategy, trace, k - 1);
      PlayNextInv(p, strategy, trace[k - 1], trace[k]);
    }
  }

  lemma ReachableInv<T(!new), S(!new)>(p: Setup<T, S>, strategy: Strategy, s: PlayState<T, S>)
    requires Reachable(p, strategy, s)
    ensures PlayInv(p, strategy, s)
  {
    var trace :| Execution(p, strategy, trace) && s == trace[|trace| - 1];
    ExecutionInv(p, strategy, trace, |trace| - 1);
  }

  lemma ReachableFollows<T(!new), S(!new)>(p: Setup<T, S>, strategy: Strategy, s: PlayState<T, S>, i: nat)
    requires Reachable(p, strategy, s) && i < |p.hosts|
    ensures s.batch <= Batches(p, strategy)
    ensures |s.fan.locals| == |s.fan.stages| == |s.fan.slots| == |p.hosts|
    ensures Follows(p, i, Offset(p, strategy, s.batch), Current(p, strategy, s.batch), s.fan.locals[i])
  {
    hide Reachable, Follows;
    ReachableInv(p, strategy, s);
    HostFollows(p, strategy, s, i);
  }

  lemma ReachableSlot<T(!new), S(!new)>(p: Setup<T, S>, strategy: Strategy, s: PlayState<T, S>, i: nat)
    requires Reachable(p, strategy, s) && s.failed && i < |p.hosts|
    ensures s.batch < Batches(p, strategy) && AnyError(s.fan.slots)
    ensures |s.fan.locals| == |s.fan.slots| == |p.hosts|
    ensures Outcome(Batch(p, strategy, s.batch), s.fan.locals[i]) == Some(s.fan.slots[i])
  {
    hide Reachable, Follows, Inv, Fan;
    ReachableInv(p, strategy, s);
    HostFollows(p, strategy, s, i);
    FanOutcome(p, Batch(p, strategy, s.batch), s.base, s.fan.locals[i]);
    SlotsAreOutcomes(Fan(p, Batch(p, strategy, s.batch), s.base), s.fan, i);
  }

  // ---------- Safety, progress, and the two strategies compared ----------

  /**
   The barrier of the linear strategy: whenever some host has started its task `k` (counted from 0), every host
   has run all tasks before it, and none of these failed anywhere.
   */
  lemma LinearBarrier<T(!new), S(!new)>(p: Setup<T, S>, s: PlayState<T, S>, i: nat, j: nat, k: nat)
    requires Reachable(p, Linear, s) && i < |p.hosts| && j < |p.hosts|
    requires |s.fan.locals| == |p.hosts| && k < |s.fan.locals[i].ran|
    ensures k <= |s.fan.locals[j].ran| && k <= |p.tasks| && Fine(p, j, k)
  {
    hide Reachable, Alone, Fine;
    ReachableFollows(p, Linear, s, i);
    ReachableFollows(p, Linear, s, j);
    LinearStarted(p, s.batch, j, s.fan.locals[j]);
    FinePrefix(p, j, k, s.batch);
  }

  lemma LinearStarted<T(!new), S(!new)>(p: Setup<T, S>, b: nat, j: nat, l: Local<T, S>)
    requires j < |p.hosts| && b <= |p.tasks| && Follows(p, j, b, Current(p, Linear, b), l)
    ensures Fine(p, j, b)
  {
    if l.pos > 0 { FinePrefix(p, j, b, b + l.pos - 1); }
  }

  /** Under either strategy every host runs its tasks in order, skips none, and stops at its first failure. */
  lemma HostRunsPrefix<T(!new), S(!new)>(p: Setup<T, S>, strategy: Strategy, s: PlayState<T, S>, i: nat)
    requires Reachable(p, strategy, s) && i < |p.hosts|
    ensures |s.fan.locals| == |p.hosts|
    ensures var l := s.fan.locals[i];
            && l.ran <= p.tasks && l.state == Alone(p, i, |l.ran|).0
            && (l.ran != [] ==> Fine(p, i, |l.ran| - 1))
  {
    hide Reachable, Alone, Fine;
    ReachableFollows(p, strategy, s, i);
    var l := s.fan.locals[i];
    var o := Offset(p, strategy, s.batch);
    assert |l.ran| == o + l.pos;
    if l.pos == 0 && o > 0 { FinePrefix(p, i, o - 1, o); }
  }

  /** A host at the end of a batch: it ran all of it, or up to a failing task. */
  lemma FailedHost<T(!new), S(!new)>(p: Setup<T, S>, o: nat, batch: seq<T>, l: Local<T, S>, i: nat)
    requires i < |p.hosts| && o + |batch| <= |p.tasks| && Follows(p, i, o, batch, l) && Outcome(batch, l).Some?
    ensures |l.ran| == o + l.pos <= o + |batch| && l.ran == p.tasks[..|l.ran|]
    ensures |l.ran| < o + |batch| ==> !Fine(p, i, |l.ran|)
    ensures l.err.Some? ==> |l.ran| > o && !Fine(p, i, |l.ran|)
    ensures Fine(p, i, o)
  {
    if l.pos > 0 { FinePrefix(p, i, o, o + l.pos - 1); }
  }

  /** The end of a play: a success ran everything everywhere; a failure stopped after a batch in which a host failed. */
  lemma DonePlay<T(!new), S(!new)>(p: Setup<T, S>, strategy: Strategy, s: PlayState<T, S>, i: nat)
    requires Reachable(p, strategy, s) && Done(p, strategy, s) && i < |p.hosts|
    ensures |s.fan.locals| == |p.hosts|
    ensures !s.failed ==> s.fan.locals[i].ran == p.tasks && Fine(p, i, |p.tasks|)
    ensures !s.failed ==> s.fan.locals[i].state == Alone(p, i, |p.tasks|).0
    ensures s.failed ==>
      && s.batch < Batches(p, strategy)
      && var ran := s.fan.locals[i].ran;
         && |ran| <= Offset(p, strategy, s.batch + 1) && ran == p.tasks[..|ran|]
         && (|ran| < Offset(p, strategy, s.batch + 1) ==> !Fine(p, i, |ran|))
         && Fine(p, i, Offset(p, strategy, s.batch))
         && (ran != [] ==> Fine(p, i, |ran| - 1))
  {
    hide Reachable;
    HostRunsPrefix(p, strategy, s, i);
    ReachableFollows(p, strategy, s, i);
    var l := s.fan.locals[i];
    if s.failed {
      ReachableSlot(p, strategy, s, i);
      BatchLength(p, strategy, s.batch);
      FailedHost(p, Offset(p, strategy, s.batch), Batch(p, strategy, s.batch), l, i);
    } else {
      assert p.tasks[..|p.tasks|] == p.tasks;
    }
  }

  lemma FailingSlot<T(!new), S(!new)>(p: Setup<T, S>, strategy: Strategy, s: PlayState<T, S>) returns (i: nat)
    requires Reachable(p, strategy, s) && s.failed
    ensures i < |p.hosts| && |s.fan.slots| == |p.hosts| && s.fan.slots[i].Some?
  {
    hide Reachable, Follows;
    ReachableInv(p, strategy, s);
    i :| 0 <= i < |s.fan.slots| && s.fan.slots[i].Some?;
    InvLength(Fan(p, Batch(p, strategy, s.batch), s.base), s.fan);
  }

  /** A failed play has a host on which some task fails. */
  lemma FailureHasCause<T(!new), S(!new)>(p: Setup<T, S>, strategy: Strategy, s: PlayState<T, S>) returns (i: nat)
    requires Reachable(p, strategy, s) && s.failed
    ensures i < |p.hosts| && !Fine(p, i, |p.tasks|)
    ensures strategy == Linear ==> s.batch < |p.tasks| && !Fine(p, i, s.batch + 1)
  {
    hide Reachable;
    i := FailingSlot(p, strategy, s);
    ReachableFollows(p, strategy, s, i);
    ReachableSlot(p, strategy, s, i);
    BatchLength(p, strategy, s.batch);
    hide Follows, Fine;
    var l := s.fan.locals[i];
    FailedHost(p, Offset(p, strategy, s.batch), Batch(p, strategy, s.batch), l, i);
    if Fine(p, i, |p.tasks|) { FinePrefix(p, i, |l.ran|, |p.tasks|); }
  }

  /** One strategy fails exactly when the other does: when some task fails on some host. */
  lemma FailsExactly<T(!new), S(!new)>(p: Setup<T, S>, strategy: Strategy, s: PlayState<T, S>)
    requires Reachable(p, strategy, s) && Done(p, strategy, s)
    ensures s.failed <==> exists i: nat :: i < |p.hosts| && !Fine(p, i, |p.tasks|)
  {
    if s.failed {
      var i := FailureHasCause(p, strategy, s);
    } else {
      forall i: nat | i < |p.hosts| ensures Fine(p, i, |p.tasks|) { DonePlay(p, strategy, s, i); }
    }
  }

  /** What a host ran under `linear` is a prefix of what it ran under `free`; without failures the states agree. */
  lemma StrategiesAgree<T(!new), S(!new)>(p: Setup<T, S>, linear: PlayState<T, S>, free: PlayState<T, S>, i: nat)
    requires Reachable(p, Linear, linear) && Done(p, Linear, linear)
    requires Reachable(p, Free, free) && Done(p, Free, free) && i < |p.hosts|
    ensures linear.failed == free.failed
    ensures |linear.fan.locals| == |free.fan.locals| == |p.hosts|
    ensures linear.fan.locals[i].ran <= free.fan.locals[i].ran
    ensures !linear.failed ==> linear.fan.locals[i].state == free.fan.locals[i].state
  {
    hide Reachable, Alone, Fine;
    FailsExactly(p, Linear, linear);
    FailsExactly(p, Free, free);
    DonePlay(p, Linear, linear, i);
    DonePlay(p, Free, free, i);
    if free.failed {
      var a, b := |linear.fan.locals[i].ran|, |free.fan.locals[i].ran|;
      if a > b { FinePrefix(p, i, b, a - 1); }
    }
  }

  /** A play that is not done can go on. */
  lemma PlayProgress<T(!new), S(!new)>(
    p: Setup<T, S>, strategy: Strategy, s: PlayState<T, S>) returns (s': PlayState<T, S>)
    requires Reachable(p, strategy, s) && !Done(p, strategy, s)
    ensures PlayNext(p, strategy, s, s')
  {
    ReachableInv(p, strategy, s);
    if Finished(s.fan) {
      s' := if AnyError(s.fan.slots) then s.(failed := true)
          else StartBatch(p, strategy, s.batch + 1, Rebase(s.fan.locals));
    } else {
      var fan' := NoDeadlock(Fan(p, Batch(p, strategy, s.batch), s.base), s.fan);
      s' := s.(fan := fan');
    }
  }

  // ---------- Every run is finite ----------

  /** A host returns from a batch after one step per task at most. */
  lemma {:induction false} HostReturns<T(!new), S(!new)>(
    p: Setup<T, S>, batch: seq<T>, base: seq<Local<T, S>>, i: nat, l: Local<T, S>) returns (j: nat)
    ensures Halts(Fan(p, batch, base), i, l, j)
    ensures j <= if l.pos < |batch| then |batch| - l.pos else 0
    decreases if l.pos < |batch| then |batch| - l.pos else 0
  {
    var fan := Fan(p, batch, base);
    if fan.outcome(l).Some? {
      j := 0;
    } else {
      var j' := HostReturns(p, batch, base, i, fan.step(i, l));
      j := j' + 1;
      forall k: nat | k < j ensures fan.outcome(From(fan, i, l, k)).None? {
        if k > 0 { assert From(fan, i, l, k) == From(fan, i, fan.step(i, l), k - 1); }
      }
    }
  }

  /** Every host returns from a batch, so the fan-out over it finishes. */
  lemma FanReturns<T(!new), S(!new)>(p: Setup<T, S>, batch: seq<T>, base: seq<Local<T, S>>)
    ensures AllReturn(Fan(p, batch, base))
  {
    var fan := Fan(p, batch, base);
    forall i: nat | i < |fan.start| ensures Ends(fan, i) {
      var j := HostReturns(p, batch, base, i, base[i]);
      forall k: nat ensures From(fan, i, base[i], k) == Iterate(fan, i, k) { FromIterate(fan, i, 0, k); }
      assert StillRunning(fan, i, j);
      assert Returns(fan, i, fan.outcome(Iterate(fan, i, j)).value);
    }
  }

  /** The most steps a batch of `n` tasks can take on `hosts` hosts, with the barrier after it. */
  function BatchSteps(hosts: nat, n: nat): nat { hosts * (n + 2) + 1 }

  lemma {:induction false} WorkAtStart<T(!new), S(!new)>(
    p: Setup<T, S>, batch: seq<T>, base: seq<Local<T, S>>, n: nat)
    requires n <= |base|
    ensures var fan := Fan(p, batch, base); WorkOf(fan, Parallel.Start(fan), n) <= n * (|batch| + 2)
  {
    hide Left;
    if n > 0 {
      WorkAtStart(p, batch, base, n - 1);
      var fan := Fan(p, batch, base);
      var j := HostReturns(p, batch, base, n - 1, base[n - 1]);
      HaltsOnce(fan, n - 1, base[n - 1], j);
      assert n * (|batch| + 2) == (n - 1) * (|batch| + 2) + (|batch| + 2);
    }
  }

  /** The most steps that batches `b` and later can take. */
  function StepsFrom<T, S>(p: Setup<T, S>, strategy: Strategy, b: nat): nat
    requires b <= Batches(p, strategy)
    decreases Batches(p, strategy) - b
  {
    if b == Batches(p, strategy) then 0
    else BatchSteps(|p.hosts|, |Batch(p, strategy, b)|) + StepsFrom(p, strategy, b + 1)
  }

  /** The most steps that are left in a state. */
  ghost function StepsLeft<T(!new), S(!new)>(p: Setup<T, S>, strategy: Strategy, s: PlayState<T, S>): nat
    requires |s.fan.locals| == |s.fan.stages| && s.batch <= Batches(p, strategy)
  {
    if Done(p, strategy, s) then 0
    else Work(Fan(p, Batch(p, strategy, s.batch), s.base), s.fan) + 1 + StepsFrom(p, strategy, s.batch + 1)
  }

  lemma StepsAtStart<T(!new), S(!new)>(p: Setup<T, S>, strategy: Strategy, b: nat, base: seq<Local<T, S>>)
    requires b <= Batches(p, strategy) && |base| == |p.hosts|
    ensures var s := StartBatch(p, strategy, b, base);
      |s.fan.locals| == |s.fan.stages| && StepsLeft(p, strategy, s) <= StepsFrom(p, strategy, b)
  {
    if b < Batches(p, strategy) { WorkAtStart(p, Batch(p, strategy, b), base, |base|); }
  }

  lemma PlayLengths<T(!new), S(!new)>(p: Setup<T, S>, strategy: Strategy, s: PlayState<T, S>)
    requires PlayInv(p, strategy, s)
    ensures |s.fan.locals| == |s.fan.stages| == |p.hosts| && s.batch <= Batches(p, strategy)
  {}

  /** Every step of a play, barriers included, is at least one step less to go. */
  lemma PlayStepCounts<T(!new), S(!new)>(
    p: Setup<T, S>, strategy: Strategy, s: PlayState<T, S>, s': PlayState<T, S>)
    requires PlayInv(p, strategy, s) && PlayNext(p, strategy, s, s')
    ensures PlayInv(p, strategy, s')
    ensures |s.fan.locals| == |s.fan.stages| && s.batch <= Batches(p, strategy)
    ensures |s'.fan.locals| == |s'.fan.stages| && s'.batch <= Batches(p, strategy)
    ensures StepsLeft(p, strategy, s') < StepsLeft(p, strategy, s)
  {
    hide PlayInv, Parallel.Next, Batch, Offset, Work, Fan, StartBatch, Rebase, AnyError;
    PlayNextInv(p, strategy, s, s');
    PlayLengths(p, strategy, s);
    PlayLengths(p, strategy, s');
    if !Finished(s.fan) {
      FanCounts(p, strategy, s, s'.fan);
    } else if !AnyError(s.fan.slots) {
      StepsAtStart(p, strategy, s.batch + 1, Rebase(s.fan.locals));
      StartBatchAt(p, strategy, s.batch + 1, Rebase(s.fan.locals));
    }
  }

  lemma StartBatchAt<T, S>(p: Setup<T, S>, strategy: Strategy, b: nat, base: seq<Local<T, S>>)
    requires b <= Batches(p, strategy)
    ensures var s := StartBatch(p, strategy, b, base); s.batch == b && s.base == base && !s.failed
  {}

  lemma FanCounts<T(!new), S(!new)>(
    p: Setup<T, S>, strategy: Strategy, s: PlayState<T, S>, fan': State<Local<T, S>>)
    requires PlayInv(p, strategy, s) && s.batch < Batches(p, strategy)
    requires Parallel.Next(Fan(p, Batch(p, strategy, s.batch), s.base), s.fan, fan')
    ensures |s.fan.locals| == |s.fan.stages| && |fan'.locals| == |fan'.stages|
    ensures var fan := Fan(p, Batch(p, strategy, s.batch), s.base); Work(fan, fan') + 1 == Work(fan, s.fan)
  {
    hide Parallel.Inv, Parallel.Next, Work, Fan, Follows;
    var batch := Batch(p, strategy, s.batch);
    FanReturns(p, batch, s.base);
    EveryStepCounts(Fan(p, batch, s.base), s.fan, fan');
  }

  /**
   No run of a play is longer than the bound for all its batches, whatever the interleaving; and a run that
   has not reached the end of the play can go on.
   */
  lemma {:induction false} RunsAreFinite<T(!new), S(!new)>(
    p: Setup<T, S>, strategy: Strategy, trace: seq<PlayState<T, S>>)
    requires Execution(p, strategy, trace)
    ensures var last := trace[|trace| - 1];
      && PlayInv(p, strategy, last) && |last.fan.locals| == |last.fan.stages| && last.batch <= Batches(p, strategy)
      && |trace| - 1 + StepsLeft(p, strategy, last) <= StepsFrom(p, strategy, 0)
      && (Done(p, strategy, last) || exists s' :: PlayNext(p, strategy, last, s'))
    decreases |trace|
  {
    hide PlayInv, PlayNext, StepsLeft, StepsFrom, StartBatch;
    var n := |trace| - 1;
    var last := trace[n];
    assert Reachable(p, strategy, last);
    if n == 0 {
      var base := seq(|p.hosts|, i requires 0 <= i < |p.hosts| => Local(p.hosts[i], 0, None, []));
      PlayStartInv(p, strategy);
      PlayLengths(p, strategy, last);
      StepsAtStart(p, strategy, 0, base);
    } else {
      assert Execution(p, strategy, trace[..n]);
      RunsAreFinite(p, strategy, trace[..n]);
      PlayStepCounts(p, strategy, trace[n - 1], last);
    }
    if !Done(p, strategy, last) { var s' := PlayProgress(p, strategy, last); }
  }

  /** The bound in figures: under `linear` one batch a task, under `free` one batch for all. */
  lemma BoundInFigures<T, S>(p: Setup<T, S>)
    ensures StepsFrom(p, Linear, 0) == |p.tasks| * BatchSteps(|p.hosts|, 1)
    ensures StepsFrom(p, Free, 0) == BatchSteps(|p.hosts|, |p.tasks|)
  {
    LinearSteps(p, 0);
    assert Batch(p, Free, 0) == p.tasks;
    assert StepsFrom(p, Free, 1) == 0;
  }

  lemma {:induction false} LinearSteps<T, S>(p: Setup<T, S>, b: nat)
    requires b <= |p.tasks|
    ensures StepsFrom(p, Linear, b) == (|p.tasks| - b) * BatchSteps(|p.hosts|, 1)
    decreases |p.tasks| - b
  {
    hide BatchSteps;
    if b < |p.tasks| {
      LinearSteps(p, b + 1);
      assert |Batch(p, Linear, b)| == 1;
      var m := |p.tasks| - b;
      assert m * BatchSteps(|p.hosts|, 1) == (m - 1) * BatchSteps(|p.hosts|, 1) + BatchSteps(|p.hosts|, 1);
    }
  }

  /** The loop a worker runs: it makes exactly the worker's steps, up to the one after which it returns. */
  method ExecuteTasksOnHost<T(!new), S(!new)>(p: Setup<T, S>, batch: seq<T>, i: nat, ghost base: seq<Local<T, S>>,
      start: Local<T, S>)
    returns (l: Local<T, S>)
    requires i < |base| && start == base[i] && start.pos == 0 && start.err == None
    ensures OnTrack(Fan(p, batch, base), i, l) && Outcome(batch, l).Some?
    ensures l.err.None? <==> Outcome(batch, l) == Some(None)
  {
    l := start;
    ghost var fan := Fan(p, batch, base);
    ghost var k: nat := 0;
    for n := 0 to |batch|
      invariant l.pos == n && l.err == None
      invariant k == n && l == Iterate(fan, i, k) && StillRunning(fan, i, k)
    {
      var (state, err) := p.run(i, batch[n], l.state);
      l := Local(state, n + 1, err, l.ran + [batch[n]]);
      assert fan.outcome(Iterate(fan, i, k)).None?;
      k := k + 1;
      assert l == Iterate(fan, i, k) && StillRunning(fan, i, k);
      if err.Some? { return; }
    }
  }
}
