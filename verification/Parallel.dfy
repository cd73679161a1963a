/**
 Fan-out and fan-in: `ForAll` starts one goroutine per element, each sends its index and error on one
 buffered channel, and the caller receives as many messages as there are elements.
 The machine below allows every interleaving of worker steps, sends and receives.
 */
module Parallel {
  import Text
  import opened Options

  /** `nil` or the text of an error. */
  type Error = Option<string>

  /**
   What the workers do: worker `i` starts in `start[i]` and moves by `step` until `outcome` yields the
   value that the function returns for element `i`.
   */
  datatype System<!L> = System(start: seq<L>, step: (nat, L) -> L, outcome: L -> Option<Error>)

  datatype Stage = Working | Queued | Received

  datatype Message = Message(idx: nat, err: Error)

  datatype State<L> = State(locals: seq<L>, stages: seq<Stage>, chan: seq<Message>, slots: seq<Error>, received: nat)

  function Start<L>(sys: System<L>): State<L> {
    var n := |sys.start|;
    State(sys.start, seq(n, i => Working), [], seq(n, i => None), 0)
  }

  ghost predicate WorkStep<L(!new)>(sys: System<L>, s: State<L>, s': State<L>, i: nat)
    requires i < |s.locals| == |s.stages|
  {
    && s.stages[i] == Working && sys.outcome(s.locals[i]).None?
    && s' == s.(locals := s.locals[i := sys.step(i, s.locals[i])])
  }

  /** The channel has room for one message per element, so that this never blocks. */
  ghost predicate SendStep<L(!new)>(sys: System<L>, s: State<L>, s': State<L>, i: nat)
    requires i < |s.locals| == |s.stages|
  {
    && s.stages[i] == Working && sys.outcome(s.locals[i]).Some?
    && |s.chan| < |s.locals|
    && s' == s.(stages := s.stages[i := Queued], chan := s.chan + [Message(i, sys.outcome(s.locals[i]).value)])
  }

  ghost predicate ReceiveStep<L(!new)>(sys: System<L>, s: State<L>, s': State<L>) {
    && s.received < |s.locals|
    && s.chan != [] && s.chan[0].idx < |s.slots| == |s.stages|
    && s' == s.(stages := s.stages[s.chan[0].idx := Received], chan := s.chan[1..],
                slots := s.slots[s.chan[0].idx := s.chan[0].err], received := s.received + 1)
  }

  ghost predicate Next<L(!new)>(sys: System<L>, s: State<L>, s': State<L>) {
    && |s.locals| == |s.stages|
    && ((exists i: nat :: i < |s.locals| && WorkStep(sys, s, s', i))
        || (exists i: nat :: i < |s.locals| && SendStep(sys, s, s', i))
        || ReceiveStep(sys, s, s'))
  }

  /** The caller has received one message per element: `ForAll` returns the slots. */
  predicate Finished<L>(s: State<L>) { s.received == |s.locals| }

  // ---------- What every step keeps ----------

  function Iterate<L>(sys: System<L>, i: nat, k: nat): L
    requires i < |sys.start|
  {
    if k == 0 then sys.start[i] else sys.step(i, Iterate(sys, i, k - 1))
  }

  /** Worker `i` has made `k` steps and had not returned before any of them. */
  ghost predicate StillRunning<L(!new)>(sys: System<L>, i: nat, k: nat)
    requires i < |sys.start|
  {
    forall j: nat | j < k :: sys.outcome(Iterate(sys, i, j)).None?
  }

  ghost predicate OnTrack<L(!new)>(sys: System<L>, i: nat, l: L)
    requires i < |sys.start|
  {
    exists k: nat :: l == Iterate(sys, i, k) && StillRunning(sys, i, k)
  }

  /** The function returns `r` for element `i`. */
  ghost predicate Returns<L(!new)>(sys: System<L>, i: nat, r: Error)
    requires i < |sys.start|
  {
    exists k: nat :: StillRunning(sys, i, k) && sys.outcome(Iterate(sys, i, k)) == Some(r)
  }

  /** The indices of the workers in a stage. */
  function In(stages: seq<Stage>, stage: Stage): set<nat> {
    set i | 0 <= i < |stages| && stages[i] == stage
  }

  ghost predicate Inv<L(!new)>(sys: System<L>, s: State<L>) {
    var n := |sys.start|;
    && |s.locals| == |s.stages| == |s.slots| == n
    && (forall i: nat | i < n :: OnTrack(sys, i, s.locals[i]))
    && (forall i: nat | i < n && s.stages[i] != Working :: sys.outcome(s.locals[i]).Some?)
    && (forall i: nat | i < n && s.stages[i] == Received :: sys.outcome(s.locals[i]) == Some(s.slots[i]))
    && (forall i: nat | i < n && s.stages[i] != Received :: s.slots[i] == None)
    && Delivers(sys, s)
    && s.received == |In(s.stages, Received)|
  }

  /** The channel holds one message of each queued worker and nothing else. */
  ghost predicate Delivers<L(!new)>(sys: System<L>, s: State<L>)
    requires |s.locals| == |s.stages|
  {
    && |s.chan| == |In(s.stages, Queued)|
    && (forall k: nat | k < |s.chan| :: s.chan[k].idx < |s.stages| && s.stages[s.chan[k].idx] == Queued
         && sys.outcome(s.locals[s.chan[k].idx]) == Some(s.chan[k].err))
    && (forall j: nat, k: nat | j < k < |s.chan| :: s.chan[j].idx != s.chan[k].idx)
  }

  lemma StageMoves(stages: seq<Stage>, i: nat, stage: Stage)
    requires i < |stages| && stages[i] != stage
    ensures var stages' := stages[i := stage];
            && In(stages', stage) == In(stages, stage) + {i}
            && In(stages', stages[i]) == In(stages, stages[i]) - {i}
            && |In(stages', stage)| == |In(stages, stage)| + 1
            && |In(stages', stages[i])| == |In(stages, stages[i])| - 1
            && forall other :: other != stage && other != stages[i] ==> In(stages', other) == In(stages, other)
  {
    var stages' := stages[i := stage];
    assert i !in In(stages, stage) && i in In(stages, stages[i]);
    assert In(stages', stage) == In(stages, stage) + {i};
    assert In(stages', stages[i]) == In(stages, stages[i]) - {i};
    forall other: Stage ensures other != stage && other != stages[i] ==> In(stages', other) == In(stages, other) {
    }
  }

  lemma StageBound(stages: seq<Stage>, stage: Stage)
    ensures |In(stages, stage)| <= |stages|
    ensures |In(stages, stage)| == |stages| ==> forall i: nat | i < |stages| :: stages[i] == stage
    ensures (forall i: nat | i < |stages| :: stages[i] != stage) ==> |In(stages, stage)| == 0
  {
    Range(|stages|);
    var all := Upto(|stages|);
    assert In(stages, stage) <= all;
    Subset(In(stages, stage), all);
    if |In(stages, stage)| == |stages| {
      forall i: nat | i < |stages| ensures stages[i] == stage { assert i in all; }
    }
    if forall i: nat | i < |stages| :: stages[i] != stage { assert In(stages, stage) == {}; }
  }

  function Upto(n: nat): set<nat> { if n == 0 then {} else Upto(n - 1) + {n - 1} }

  lemma {:induction false} Range(n: nat)
    ensures |Upto(n)| == n
    ensures forall i: nat :: i in Upto(n) <==> i < n
  {
    if n > 0 { Range(n - 1); }
  }

  lemma {:induction false} Subset(a: set<nat>, b: set<nat>)
    requires a <= b
    ensures |a| <= |b|
    ensures |a| == |b| ==> a == b
    decreases a
  {
    if a != {} {
      var x :| x in a;
      Subset(a - {x}, b - {x});
    }
  }

  lemma StartInv<L(!new)>(sys: System<L>)
    ensures Inv(sys, Start(sys))
  {
    var s := Start(sys);
    forall i: nat | i < |sys.start| ensures OnTrack(sys, i, s.locals[i]) {
      assert s.locals[i] == Iterate(sys, i, 0) && StillRunning(sys, i, 0);
    }
    assert In(s.stages, Queued) == {} && In(s.stages, Received) == {};
  }

  lemma WorkInv<L(!new)>(sys: System<L>, s: State<L>, s': State<L>, i: nat)
    requires Inv(sys, s) && i < |s.locals| && WorkStep(sys, s, s', i)
    ensures Inv(sys, s')
  {
    var k: nat :| s.locals[i] == Iterate(sys, i, k) && StillRunning(sys, i, k);
    assert s'.locals[i] == Iterate(sys, i, k + 1) && StillRunning(sys, i, k + 1);
    assert OnTrack(sys, i, s'.locals[i]);
    assert Delivers(sys, s');
  }

  lemma SendInv<L(!new)>(sys: System<L>, s: State<L>, s': State<L>, i: nat)
    requires Inv(sys, s) && i < |s.locals| && SendStep(sys, s, s', i)
    ensures Inv(sys, s')
  {
    StageMoves(s.stages, i, Queued);
    assert Delivers(sys, s') by { hide In; }
  }

  lemma ReceiveInv<L(!new)>(sys: System<L>, s: State<L>, s': State<L>)
    requires Inv(sys, s) && ReceiveStep(sys, s, s')
    ensures Inv(sys, s')
  {
    var i := s.chan[0].idx;
    StageMoves(s.stages, i, Received);
    assert Delivers(sys, s') by {
      hide In;
      forall k: nat | k < |s'.chan| ensures s'.chan[k].idx != i { assert s'.chan[k] == s.chan[k + 1]; }
    }
  }

  lemma NextInv<L(!new)>(sys: System<L>, s: State<L>, s': State<L>)
    requires Inv(sys, s) && Next(sys, s, s')
    ensures Inv(sys, s')
  {
    hide Inv, WorkStep, SendStep, ReceiveStep;
    if i: nat :| i < |s.locals| && WorkStep(sys, s, s', i) {
      WorkInv(sys, s, s', i);
    } else if i: nat :| i < |s.locals| && SendStep(sys, s, s', i) {
      SendInv(sys, s, s', i);
    } else {
      ReceiveInv(sys, s, s');
    }
  }

  // ---------- What the caller gets ----------

  /** Slot `i` holds exactly what the function returns for element `i`, whatever the order of arrival. */
  lemma SlotsAreOutcomes<L(!new)>(sys: System<L>, s: State<L>, i: nat)
    requires Inv(sys, s) && Finished(s) && i < |sys.start|
    ensures s.stages[i] == Received && sys.outcome(s.locals[i]) == Some(s.slots[i])
    ensures Returns(sys, i, s.slots[i])
  {
    StageBound(s.stages, Received);
    var k: nat :| s.locals[i] == Iterate(sys, i, k) && StillRunning(sys, i, k);
    assert sys.outcome(Iterate(sys, i, k)) == Some(s.slots[i]);
  }

  /** A worker that has returned always finds room in the channel: no send blocks. */
  lemma NoSendBlocks<L(!new)>(sys: System<L>, s: State<L>, i: nat)
    requires Inv(sys, s) && i < |sys.start| && s.stages[i] == Working
    ensures |s.chan| < |s.locals|
  {
    StageBound(s.stages, Queued);
  }

  /** Until the caller has everything, somebody can move. */
  lemma NoDeadlock<L(!new)>(sys: System<L>, s: State<L>) returns (s': State<L>)
    requires Inv(sys, s) && !Finished(s)
    ensures Next(sys, s, s')
  {
    StageBound(s.stages, Received);
    if i: nat :| i < |s.stages| && s.stages[i] == Working {
      NoSendBlocks(sys, s, i);
      if sys.outcome(s.locals[i]).None? {
        s' := s.(locals := s.locals[i := sys.step(i, s.locals[i])]);
        assert WorkStep(sys, s, s', i);
      } else {
        s' := s.(stages := s.stages[i := Queued], chan := s.chan + [Message(i, sys.outcome(s.locals[i]).value)]);
        assert SendStep(sys, s, s', i);
      }
    } else {
      StageCover(s.stages);
      s' := s.(stages := s.stages[s.chan[0].idx := Received], chan := s.chan[1..],
               slots := s.slots[s.chan[0].idx := s.chan[0].err], received := s.received + 1);
      assert ReceiveStep(sys, s, s');
    }
  }

  lemma StageCover(stages: seq<Stage>)
    requires forall i: nat | i < |stages| :: stages[i] != Working
    ensures |In(stages, Queued)| + |In(stages, Received)| == |stages|
  {
    Range(|stages|);
    assert In(stages, Queued) + In(stages, Received) == Upto(|stages|);
    assert In(stages, Queued) !! In(stages, Received);
  }

  // ---------- ForAll finishes ----------

  ghost predicate Ends<L(!new)>(sys: System<L>, i: nat)
    requires i < |sys.start|
  {
    exists r :: Returns(sys, i, r)
  }

  /** The function returns on every element. */
  ghost predicate AllReturn<L(!new)>(sys: System<L>) {
    forall i: nat | i < |sys.start| :: Ends(sys, i)
  }

  /** Worker `i` after `j` more steps from `l`. */
  function From<L>(sys: System<L>, i: nat, l: L, j: nat): L {
    if j == 0 then l else From(sys, i, sys.step(i, l), j - 1)
  }

  /** From `l` on, worker `i` returns after exactly `j` steps. */
  ghost predicate Halts<L(!new)>(sys: System<L>, i: nat, l: L, j: nat) {
    sys.outcome(From(sys, i, l, j)).Some? && forall k: nat | k < j :: sys.outcome(From(sys, i, l, k)).None?
  }

  /** The steps left until the return. */
  ghost function Left<L(!new)>(sys: System<L>, i: nat, l: L): (j: nat)
    ensures (exists j' :: Halts(sys, i, l, j')) ==> Halts(sys, i, l, j)
  {
    if exists j: nat :: Halts(sys, i, l, j) then var j: nat :| Halts(sys, i, l, j); j else 0
  }

  lemma HaltsOnce<L(!new)>(sys: System<L>, i: nat, l: L, j: nat)
    requires Halts(sys, i, l, j)
    ensures Left(sys, i, l) == j
  {
    var k := Left(sys, i, l);
    assert !(j < k) && !(k < j);
  }

  /** A step before the return leaves one step less. */
  lemma StepLeft<L(!new)>(sys: System<L>, i: nat, l: L, j: nat)
    requires Halts(sys, i, l, j) && sys.outcome(l).None?
    ensures j > 0 && Left(sys, i, l) == j && Left(sys, i, sys.step(i, l)) == j - 1
  {
    var l' := sys.step(i, l);
    assert From(sys, i, l, 0) == l;
    forall k: nat | k < j - 1 ensures sys.outcome(From(sys, i, l', k)).None? {
      assert From(sys, i, l, k + 1) == From(sys, i, l', k);
    }
    HaltsOnce(sys, i, l', j - 1);
    HaltsOnce(sys, i, l, j);
  }

  lemma {:induction false} FromIterate<L>(sys: System<L>, i: nat, k: nat, j: nat)
    requires i < |sys.start|
    ensures From(sys, i, Iterate(sys, i, k), j) == Iterate(sys, i, k + j)
    decreases j
  {
    if j > 0 { FromIterate(sys, i, k + 1, j - 1); }
  }

  /** A worker on its track to a return gets there. */
  lemma TrackHalts<L(!new)>(sys: System<L>, i: nat, l: L) returns (j: nat)
    requires i < |sys.start| && OnTrack(sys, i, l) && Ends(sys, i)
    ensures Halts(sys, i, l, j)
  {
    var k: nat :| l == Iterate(sys, i, k) && StillRunning(sys, i, k);
    var r :| Returns(sys, i, r);
    var n: nat :| StillRunning(sys, i, n) && sys.outcome(Iterate(sys, i, n)) == Some(r);
    assert k <= n;
    j := n - k;
    FromIterate(sys, i, k, j);
    forall m: nat | m < j ensures sys.outcome(From(sys, i, l, m)).None? { FromIterate(sys, i, k, m); }
  }

  /** The steps a worker still takes part in: its own, its send and the receipt of its message. */
  ghost function Weight<L(!new)>(sys: System<L>, i: nat, stage: Stage, l: L): nat {
    match stage
    case Working => Left(sys, i, l) + 2
    case Queued => 1
    case Received => 0
  }

  /** How many steps the first `n` workers still take part in. */
  ghost function WorkOf<L(!new)>(sys: System<L>, s: State<L>, n: nat): nat
    requires n <= |s.locals| == |s.stages|
  {
    if n == 0 then 0 else WorkOf(sys, s, n - 1) + Weight(sys, n - 1, s.stages[n - 1], s.locals[n - 1])
  }

  ghost function Work<L(!new)>(sys: System<L>, s: State<L>): nat
    requires |s.locals| == |s.stages|
  {
    WorkOf(sys, s, |s.locals|)
  }

  lemma {:induction false} WorkFalls<L(!new)>(sys: System<L>, s: State<L>, s': State<L>, i: nat, n: nat)
    requires n <= |s.locals| == |s.stages| == |s'.locals| == |s'.stages| && i < |s.locals|
    requires forall j: nat | j < n && j != i :: s'.locals[j] == s.locals[j] && s'.stages[j] == s.stages[j]
    requires Weight(sys, i, s'.stages[i], s'.locals[i]) + 1 == Weight(sys, i, s.stages[i], s.locals[i])
    ensures WorkOf(sys, s', n) + (if i < n then 1 else 0) == WorkOf(sys, s, n)
  {
    if n > 0 { WorkFalls(sys, s, s', i, n - 1); }
  }

  /** Every step of every interleaving is one step less to do. */
  lemma EveryStepCounts<L(!new)>(sys: System<L>, s: State<L>, s': State<L>)
    requires Inv(sys, s) && Next(sys, s, s') && AllReturn(sys)
    ensures |s.locals| == |s.stages| && |s'.locals| == |s'.stages|
    ensures Work(sys, s') + 1 == Work(sys, s)
  {
    hide Inv, Delivers, OnTrack, Ends, Left, Halts;
    var n := |s.locals|;
    InvLength(sys, s);
    if i: nat :| i < n && WorkStep(sys, s, s', i) {
      InvTrack(sys, s, i);
      var j := TrackHalts(sys, i, s.locals[i]);
      StepLeft(sys, i, s.locals[i], j);
      WorkFalls(sys, s, s', i, n);
    } else if i: nat :| i < n && SendStep(sys, s, s', i) {
      HaltsNow(sys, i, s.locals[i]);
      WorkFalls(sys, s, s', i, n);
    } else {
      HeadQueued(sys, s);
      WorkFalls(sys, s, s', s.chan[0].idx, n);
    }
  }

  lemma HaltsNow<L(!new)>(sys: System<L>, i: nat, l: L)
    requires sys.outcome(l).Some?
    ensures Left(sys, i, l) == 0
  {
    HaltsOnce(sys, i, l, 0);
  }

  lemma InvTrack<L(!new)>(sys: System<L>, s: State<L>, i: nat)
    requires Inv(sys, s) && i < |sys.start|
    ensures i < |s.locals| && OnTrack(sys, i, s.locals[i])
  {}

  /** The caller has everything exactly when nothing is left to do. */
  lemma FinishedExactly<L(!new)>(sys: System<L>, s: State<L>)
    requires Inv(sys, s)
    ensures |s.locals| == |s.stages| && (Finished(s) <==> Work(sys, s) == 0)
  {
    NoWorkExactly(sys, s, |s.locals|);
    StageBound(s.stages, Received);
    if forall i: nat | i < |s.stages| :: s.stages[i] == Received {
      Range(|s.stages|);
      assert In(s.stages, Received) == Upto(|s.stages|);
    }
  }

  lemma {:induction false} NoWorkExactly<L(!new)>(sys: System<L>, s: State<L>, n: nat)
    requires n <= |s.locals| == |s.stages|
    ensures WorkOf(sys, s, n) == 0 <==> forall i: nat | i < n :: s.stages[i] == Received
  {
    if n > 0 { NoWorkExactly(sys, s, n - 1); }
  }

  /** A run of the machine, under any interleaving. */
  ghost predicate Trace<L(!new)>(sys: System<L>, trace: seq<State<L>>) {
    && trace != [] && trace[0] == Start(sys)
    && forall k | 0 < k < |trace| :: Next(sys, trace[k - 1], trace[k])
  }

  /**
   `ForAll` finishes: when the function returns on every element, all runs take the same number of steps; a
   shorter one can go on, and none goes beyond.
   */
  lemma {:induction false} RunsFinish<L(!new)>(sys: System<L>, trace: seq<State<L>>)
    requires AllReturn(sys) && Trace(sys, trace)
    ensures var last := trace[|trace| - 1];
      && Inv(sys, last) && |last.locals| == |last.stages|
      && |trace| - 1 + Work(sys, last) == Work(sys, Start(sys))
      && (Finished(last) <==> |trace| - 1 == Work(sys, Start(sys)))
      && (Finished(last) || exists s' :: Next(sys, last, s'))
    decreases |trace|
  {
    hide Inv, Next, AllReturn, Work;
    var n := |trace| - 1;
    var last := trace[n];
    if n == 0 {
      StartInv(sys);
    } else {
      assert Trace(sys, trace[..n]);
      RunsFinish(sys, trace[..n]);
      NextInv(sys, trace[n - 1], last);
      EveryStepCounts(sys, trace[n - 1], last);
    }
    FinishedExactly(sys, last);
    if !Finished(last) { var s' := NoDeadlock(sys, last); }
  }

  lemma InvLength<L(!new)>(sys: System<L>, s: State<L>)
    requires Inv(sys, s)
    ensures |sys.start| == |s.locals| == |s.stages| == |s.slots|
  {}

  lemma HeadQueued<L(!new)>(sys: System<L>, s: State<L>)
    requires Inv(sys, s) && s.chan != []
    ensures s.chan[0].idx < |s.stages| && s.stages[s.chan[0].idx] == Queued
  {}

  // ---------- Collecting and combining ----------

  /** `combineErrors`: whatever the order of arrival, each error ends up in the slot of its element. */
  method CombineErrors(arrivals: seq<Message>, count: nat) returns (errors: array<Error>)
    requires |arrivals| == count
    requires forall k | 0 <= k < count :: arrivals[k].idx < count
    requires forall j, k | 0 <= j < k < count :: arrivals[j].idx != arrivals[k].idx
    ensures fresh(errors) && errors.Length == count
    ensures forall k | 0 <= k < count :: errors[arrivals[k].idx] == arrivals[k].err
  {
    errors := new Error[count](_ => None);
    for i := 0 to count
      invariant forall k | 0 <= k < i :: errors[arrivals[k].idx] == arrivals[k].err
    {
      errors[arrivals[i].idx] := arrivals[i].err;
    }
  }

  method IsError(errors: seq<Error>) returns (b: bool)
    ensures b <==> exists i :: 0 <= i < |errors| && errors[i].Some?
  {
    for i := 0 to |errors|
      invariant forall k | 0 <= k < i :: errors[k].None?
    {
      if errors[i].Some? { return true; }
    }
    return false;
  }

  /** The texts of the errors that are there, last one first. */
  function Present(errors: seq<Error>): seq<string> {
    if errors == [] then []
    else
      var n := |errors| - 1;
      (if errors[n].Some? then [errors[n].value] else []) + Present(errors[..n])
  }

  lemma {:induction false} PresentExactly(errors: seq<Error>, text: string)
    ensures text in Present(errors) <==> Some(text) in errors
  {
    if errors != [] {
      var n := |errors| - 1;
      PresentExactly(errors[..n], text);
      assert errors == errors[..n] + [errors[n]];
    }
  }

  /** `Combine`: no error when there is none, else all texts on lines of their own. */
  method Combine(errors: seq<Error>) returns (err: Error)
    ensures err.None? <==> forall i | 0 <= i < |errors| :: errors[i].None?
    ensures err.Some? ==> err.value == Text.Join(Present(errors), '\n')
  {
    err := None;
    for i := 0 to |errors|
      invariant err == if Present(errors[..i]) == [] then None else Some(Text.Join(Present(errors[..i]), '\n'))
      invariant Present(errors[..i]) == [] <==> forall k | 0 <= k < i :: errors[k].None?
    {
      assert errors[..i + 1][..i] == errors[..i];
      var cErr := errors[i];
      if cErr.Some? {
        var rest := Present(errors[..i]);
        if err.None? {
          err := cErr;
          assert [cErr.value] + rest == [cErr.value];
        } else {
          err := Some(cErr.value + "\n" + err.value);
          Text.JoinCons([cErr.value] + rest, '\n');
          assert ([cErr.value] + rest)[1..] == rest;
        }
      } else {
        assert [] + Present(errors[..i]) == Present(errors[..i]);
      }
    }
    assert errors[..|errors|] == errors;
  }
}
