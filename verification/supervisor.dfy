/** `runParity` and `killParity` (packages/parity-electron/src/runParity.js:22,
    32-112) as transitions of the module-level state: the tracked child
    (`let parity`) and the host-wide `global.isParityRunning` flag. What the
    external collaborators answer (`cli.runParity`, `isParityRunning`,
    `getParityPath`, `parityArgv`) is passed in; what the code does to the
    outside world is returned as a list of effects. */
module Supervisor {

  import opened Wrappers

  /** A spawned child. Every call of `spawn` creates a new OS process, so a
      child is identified by the ordinal of its spawn (`id`), not by the command
      it runs: two restarts with the same path and arguments are two children. */
  datatype Child = Child(id: nat, path: string, args: seq<string>)

  /** `tracked` is `let parity`, `runningFlag` is `global.isParityRunning`, and
      `spawned` counts the children spawned so far (the next child's id). */
  datatype State = State(tracked: Option<Child>, runningFlag: bool, spawned: nat)

  /** Every tracked child was spawned earlier. */
  predicate Valid(s: State)
  {
    s.tracked.Some? ==> s.tracked.value.id < s.spawned
  }

  /** The answers of the collaborators `runParity` consults, in the order it
      consults them. `launch` is `cli.runParity` (None when unset). For the
      others, None means the collaborator failed: the promise of
      `isParityRunning` or `getParityPath` rejected, or `parityArgv()` threw. */
  datatype Probe = Probe(
    launch: Option<bool>,
    running: Option<bool>,
    path: Option<string>,
    argv: Option<seq<string>>)

  datatype Effect =
    | QueryRunning          // await isParityRunning(mainWindow)
    | ResolvePath           // await getParityPath()
    | Spawn(child: Child)   // spawn(parityPath, args)
    | NotifyRunning         // webContents.send('parity-running', true)
    | Kill(child: Child)    // parity.kill()

  /** How the promise of an operation settles: fulfilled with a value (None for
      `undefined`), or rejected because a collaborator failed. */
  datatype Settlement = Fulfilled(value: Option<bool>) | Rejected

  /** The state after an operation, its effects in order, and how its promise settles. */
  datatype Step = Step(next: State, effects: seq<Effect>, settled: Settlement)

  const LightFlag: string := "--light"

  const Initial: State := State(None, false, 0)

  /** `[...parityArgv(), '--light']`. */
  function LaunchArgs(argv: seq<string>): (args: seq<string>)
    ensures |args| == |argv| + 1
    ensures args[..|argv|] == argv
    ensures args[|argv|] == LightFlag
  {
    argv + [LightFlag]
  }

  predicate LaunchDisabled(p: Probe)
  {
    p.launch == Some(false)
  }

  /** Every collaborator answered, and the answers call for a new child. */
  predicate Spawns(p: Probe)
  {
    !LaunchDisabled(p) && p.running == Some(false) && p.path.Some? && p.argv.Some?
  }

  /** The child a spawning start creates in state `s`. */
  function NewChild(s: State, p: Probe): (child: Child)
    requires Spawns(p)
  {
    Child(s.spawned, p.path.value, LaunchArgs(p.argv.value))
  }

  /** One call of `runParity`. */
  function Start(s: State, p: Probe): (r: Step)
    ensures LaunchDisabled(p) ==> r == Step(s, [], Fulfilled(None))
    ensures !LaunchDisabled(p) && p.running == None ==> r == Step(s, [QueryRunning], Rejected)
    ensures !LaunchDisabled(p) && p.running == Some(true) ==> r == Step(s, [QueryRunning], Fulfilled(None))
    ensures !LaunchDisabled(p) && p.running == Some(false) && !Spawns(p) ==>
      r == Step(s, [QueryRunning, ResolvePath], Rejected)
    ensures Spawns(p) ==>
      && r.next == State(Some(NewChild(s, p)), true, s.spawned + 1)
      && r.effects == [QueryRunning, ResolvePath, Spawn(NewChild(s, p)), NotifyRunning]
      && r.settled == Fulfilled(Some(true))
  {
    if LaunchDisabled(p) then Step(s, [], Fulfilled(None))
    else match p.running
      case None => Step(s, [QueryRunning], Rejected)
      case Some(true) => Step(s, [QueryRunning], Fulfilled(None))
      case Some(false) =>
        match (p.path, p.argv)
        case (Some(path), Some(argv)) =>
          var child := Child(s.spawned, path, LaunchArgs(argv));
          Step(State(Some(child), true, s.spawned + 1),
               [QueryRunning, ResolvePath, Spawn(child), NotifyRunning],
               Fulfilled(Some(true)))
        case _ => Step(s, [QueryRunning, ResolvePath], Rejected)
  }

  /** One call of `killParity`. The running flag is left as it is. */
  function Stop(s: State): (r: Step)
    ensures r.settled == Fulfilled(Some(true))
    ensures r.next == State(None, s.runningFlag, s.spawned)
    ensures s.tracked.None? ==> r.effects == []
    ensures s.tracked.Some? ==> r.effects == [Kill(s.tracked.value)]
  {
    match s.tracked
    case None => Step(s, [], Fulfilled(Some(true)))
    case Some(child) => Step(State(None, s.runningFlag, s.spawned), [Kill(child)], Fulfilled(Some(true)))
  }

  predicate IsSpawn(e: Effect)
  {
    e.Spawn?
  }

  /** A child is spawned exactly when launching is not disabled, no other
      instance was detected, and every collaborator answered. */
  lemma StartSpawnsIff(s: State, p: Probe)
    ensures (exists k :: 0 <= k < |Start(s, p).effects| && IsSpawn(Start(s, p).effects[k]))
      <==> Spawns(p)
  {
    var r := Start(s, p);
    if Spawns(p) {
      assert IsSpawn(r.effects[2]);
    }
  }

  /** The promise rejects exactly when a collaborator that was consulted
      failed, and then nothing was spawned and the state is unchanged. */
  lemma StartRejectsIff(s: State, p: Probe)
    ensures Start(s, p).settled.Rejected? <==>
      !LaunchDisabled(p) && (p.running.None? || (p.running == Some(false) && !Spawns(p)))
    ensures Start(s, p).settled.Rejected? ==> Start(s, p).next == s
  {
  }

  /** With launching disabled, `runParity` returns before asking anything:
      the answers of the other collaborators cannot change what it does. */
  lemma DisabledStartIgnoresProbes(s: State, p: Probe, q: Probe)
    requires LaunchDisabled(p) && LaunchDisabled(q)
    ensures Start(s, p) == Start(s, q)
    ensures Start(s, p).next == s
  {
  }

  /** With another instance detected, path and arguments are never consulted. */
  lemma RunningStartIgnoresPathAndArgs(s: State, p: Probe, q: Probe)
    requires !LaunchDisabled(p) && p.running == Some(true)
    requires q.launch == p.launch && q.running == Some(true)
    ensures Start(s, p) == Start(s, q)
    ensures Start(s, p).next.tracked == s.tracked
  {
  }

  /** `killParity` is idempotent: a second call does nothing. */
  lemma StopIdempotent(s: State)
    ensures Stop(Stop(s).next) == Step(Stop(s).next, [], Fulfilled(Some(true)))
  {
  }

  /** A start that spawns, followed by a stop, kills exactly that child, once. */
  lemma StartThenStopKillsSpawned(s: State, p: Probe)
    requires Spawns(p)
    ensures Stop(Start(s, p).next).effects == [Kill(NewChild(s, p))]
    ensures Stop(Start(s, p).next).next.tracked.None?
  {
  }

  /** Every operation keeps the tracked child among those already spawned. */
  lemma StepValid(s: State, p: Probe)
    requires Valid(s)
    ensures Valid(Start(s, p).next) && Valid(Stop(s).next)
    ensures Start(s, p).next.spawned >= s.spawned && Stop(s).next.spawned == s.spawned
  {
  }

  /** `runParity` does not guard against a child it already tracks: a spawning
      start always tracks a brand-new child, whatever was tracked before. */
  lemma StartOverwritesTracked(s: State, p: Probe)
    requires Valid(s) && Spawns(p)
    ensures Start(s, p).next.tracked == Some(NewChild(s, p))
    ensures Start(s, p).next.tracked != s.tracked
  {
  }

  // ----- sequences of calls -----

  datatype Call = StartCall(probe: Probe) | StopCall

  function Apply(s: State, c: Call): (r: Step)
  {
    match c
    case StartCall(p) => Start(s, p)
    case StopCall => Stop(s)
  }

  /** The final state and the effects of a sequence of calls, each completing
      before the next begins. */
  function Run(s: State, calls: seq<Call>): (r: (State, seq<Effect>))
    decreases |calls|
  {
    if |calls| == 0 then (s, [])
    else
      var step := Apply(s, calls[0]);
      var rest := Run(step.next, calls[1..]);
      (rest.0, step.effects + rest.1)
  }

  function CountSpawns(effects: seq<Effect>): (n: nat)
    decreases |effects|
  {
    if |effects| == 0 then 0 else (if effects[0].Spawn? then 1 else 0) + CountSpawns(effects[1..])
  }

  function CountKills(effects: seq<Effect>): (n: nat)
    decreases |effects|
  {
    if |effects| == 0 then 0 else (if effects[0].Kill? then 1 else 0) + CountKills(effects[1..])
  }

  lemma {:induction false} CountsAppend(xs: seq<Effect>, ys: seq<Effect>)
    ensures CountSpawns(xs + ys) == CountSpawns(xs) + CountSpawns(ys)
    ensures CountKills(xs + ys) == CountKills(xs) + CountKills(ys)
    decreases |xs|
  {
    if |xs| == 0 {
      assert xs + ys == ys;
    } else {
      assert (xs + ys)[1..] == xs[1..] + ys;
      CountsAppend(xs[1..], ys);
    }
  }

  function Tracking(s: State): (n: nat)
  {
    if s.tracked.Some? then 1 else 0
  }

  /** One call spawns at most what it starts tracking and kills at most what
      it stops tracking. */
  lemma StepCounts(s: State, c: Call)
    ensures CountKills(Apply(s, c).effects) + Tracking(Apply(s, c).next) <= CountSpawns(Apply(s, c).effects) + Tracking(s)
    ensures Apply(s, c).next.spawned == s.spawned + CountSpawns(Apply(s, c).effects)
  {
    var e := Apply(s, c).effects;
    if c.StartCall? && Spawns(c.probe) {
      var child := NewChild(s, c.probe);
      var e3: seq<Effect> := [NotifyRunning];
      var e2 := [Spawn(child)] + e3;
      var e1 := [ResolvePath] + e2;
      assert e3[1..] == [] && e2[1..] == e3 && e1[1..] == e2 && e[1..] == e1;
      assert CountSpawns(e3) == 0 && CountKills(e3) == 0;
      assert CountSpawns(e2) == 1 && CountKills(e2) == 0;
      assert CountSpawns(e1) == 1 && CountKills(e1) == 0;
    } else if |e| == 1 {
      assert e[1..] == [];
    }
  }

  /** Over any sequence of calls, kills never outnumber spawns (plus a child
      tracked at the outset), and a still-tracked child has not been killed. */
  lemma {:induction false} KillsNeverExceedSpawns(s: State, calls: seq<Call>)
    ensures CountKills(Run(s, calls).1) + Tracking(Run(s, calls).0) <= CountSpawns(Run(s, calls).1) + Tracking(s)
    decreases |calls|
  {
    if |calls| > 0 {
      var step := Apply(s, calls[0]);
      KillsNeverExceedSpawns(step.next, calls[1..]);
      CountsAppend(step.effects, Run(step.next, calls[1..]).1);
      StepCounts(s, calls[0]);
    }
  }

  /** Every kill in the trace targets the child tracked at the outset or one
      spawned earlier in the same trace. */
  ghost predicate KillsOnlyKnown(initial: Option<Child>, trace: seq<Effect>)
  {
    forall k :: 0 <= k < |trace| && trace[k].Kill? ==>
      initial == Some(trace[k].child) || exists j :: 0 <= j < k && trace[j] == Spawn(trace[k].child)
  }

  /** The tracked child at the end is the one tracked at the outset or one the
      trace spawned. */
  ghost predicate TrackedIsKnown(initial: Option<Child>, trace: seq<Effect>, final: Option<Child>)
  {
    final.Some? ==> initial == final || exists j :: 0 <= j < |trace| && trace[j] == Spawn(final.value)
  }

  /** Kills of two consecutive traces go back to known children, when the
      first trace leaves a known child tracked. */
  lemma KillsOnlyKnownAppend(initial: Option<Child>, mid: Option<Child>, head: seq<Effect>, rest: seq<Effect>)
    requires KillsOnlyKnown(initial, head) && TrackedIsKnown(initial, head, mid)
    requires KillsOnlyKnown(mid, rest)
    ensures KillsOnlyKnown(initial, head + rest)
  {
    var trace := head + rest;
    forall k | 0 <= k < |trace| && trace[k].Kill?
      ensures initial == Some(trace[k].child) || exists j :: 0 <= j < k && trace[j] == Spawn(trace[k].child)
    {
      if k < |head| {
        assert trace[k] == head[k];
        if initial != Some(trace[k].child) {
          var j :| 0 <= j < k && head[j] == Spawn(trace[k].child);
          assert trace[j] == head[j];
        }
      } else {
        var k' := k - |head|;
        assert trace[k] == rest[k'];
        var c := trace[k].child;
        if mid == Some(c) {
          if initial != Some(c) {
            var j :| 0 <= j < |head| && head[j] == Spawn(c);
            assert trace[j] == head[j];
          }
        } else {
          var j :| 0 <= j < k' && rest[j] == Spawn(c);
          assert trace[|head| + j] == rest[j];
        }
      }
    }
  }

  lemma TrackedIsKnownAppend(initial: Option<Child>, mid: Option<Child>, final: Option<Child>, head: seq<Effect>, rest: seq<Effect>)
    requires TrackedIsKnown(initial, head, mid) && TrackedIsKnown(mid, rest, final)
    ensures TrackedIsKnown(initial, head + rest, final)
  {
    var trace := head + rest;
    if final.Some? {
      var c := final.value;
      if mid == Some(c) {
        if initial != Some(c) {
          var j :| 0 <= j < |head| && head[j] == Spawn(c);
          assert trace[j] == head[j];
        }
      } else {
        var j :| 0 <= j < |rest| && rest[j] == Spawn(c);
        assert trace[|head| + j] == rest[j];
      }
    }
  }

  lemma {:induction false} KillsOnlySpawned(s: State, calls: seq<Call>)
    ensures KillsOnlyKnown(s.tracked, Run(s, calls).1)
    ensures TrackedIsKnown(s.tracked, Run(s, calls).1, Run(s, calls).0.tracked)
    decreases |calls|
  {
    if |calls| > 0 {
      var step := Apply(s, calls[0]);
      var rest := Run(step.next, calls[1..]);
      KillsOnlySpawned(step.next, calls[1..]);
      var head := step.effects;
      // The first call's effects: a kill there targets s.tracked, and the
      // state it leaves tracks s.tracked or the child it spawned.
      assert KillsOnlyKnown(s.tracked, head);
      assert TrackedIsKnown(s.tracked, head, step.next.tracked) by {
        if |head| == 4 {
          assert head[2] == Spawn(step.next.tracked.value);
        }
      }
      KillsOnlyKnownAppend(s.tracked, step.next.tracked, head, rest.1);
      TrackedIsKnownAppend(s.tracked, step.next.tracked, rest.0.tracked, head, rest.1);
    }
  }

  /** From the initial state, every kill hits a child this supervisor spawned. */
  lemma KillsFromInitial(calls: seq<Call>)
    ensures forall k :: 0 <= k < |Run(Initial, calls).1| && Run(Initial, calls).1[k].Kill? ==>
      exists j :: 0 <= j < k && Run(Initial, calls).1[j] == Spawn(Run(Initial, calls).1[k].child)
    ensures CountKills(Run(Initial, calls).1) <= CountSpawns(Run(Initial, calls).1)
  {
    KillsOnlySpawned(Initial, calls);
    KillsNeverExceedSpawns(Initial, calls);
  }

  /** The spawn counter of the state is the number of spawns in the trace. */
  lemma {:induction false} SpawnCounterMatchesTrace(s: State, calls: seq<Call>)
    ensures Run(s, calls).0.spawned == s.spawned + CountSpawns(Run(s, calls).1)
    decreases |calls|
  {
    if |calls| > 0 {
      var step := Apply(s, calls[0]);
      SpawnCounterMatchesTrace(step.next, calls[1..]);
      CountsAppend(step.effects, Run(step.next, calls[1..]).1);
      StepCounts(s, calls[0]);
    }
  }

  /** Every state a sequence of calls reaches from a valid state is valid;
      in particular every state reachable from `Initial`. */
  lemma {:induction false} RunValid(s: State, calls: seq<Call>)
    requires Valid(s)
    ensures Valid(Run(s, calls).0)
    decreases |calls|
  {
    if |calls| > 0 {
      match calls[0] {
        case StartCall(p) => StepValid(s, p);
        case StopCall =>
      }
      RunValid(Apply(s, calls[0]).next, calls[1..]);
    }
  }

  /** A child that is no longer tracked is never killed again: `killParity`
      only reaches the tracked child, and every later spawn is a new child. */
  lemma {:induction false} ReleasedChildNeverKilled(t: State, gone: Child, calls: seq<Call>)
    requires gone.id < t.spawned && t.tracked != Some(gone)
    ensures forall k :: 0 <= k < |Run(t, calls).1| ==> Run(t, calls).1[k] != Kill(gone)
    decreases |calls|
  {
    if |calls| > 0 {
      var step := Apply(t, calls[0]);
      ReleasedChildNeverKilled(step.next, gone, calls[1..]);
      var head := step.effects;
      var rest := Run(step.next, calls[1..]).1;
      assert forall k :: 0 <= k < |head| ==> head[k] != Kill(gone);
      assert Run(t, calls).1 == head + rest;
    }
  }

  /** When a start spawns over a tracked child, that child is orphaned: no
      later sequence of calls ever kills it. */
  lemma ReplacedChildNeverKilled(s: State, p: Probe, calls: seq<Call>)
    requires Valid(s) && s.tracked.Some? && Spawns(p)
    ensures forall k :: 0 <= k < |Run(Start(s, p).next, calls).1| ==>
      Run(Start(s, p).next, calls).1[k] != Kill(s.tracked.value)
  {
    ReleasedChildNeverKilled(Start(s, p).next, s.tracked.value, calls);
  }

  /** Two spawning starts and a stop, from the initial state, spawn two
      distinct children and kill only the second one. */
  lemma DoubleStartKillsOnlySecond(p: Probe)
    requires Spawns(p)
    ensures var trace := Run(Initial, [StartCall(p), StartCall(p), StopCall]).1;
      && |trace| == 9
      && trace[2] == Spawn(NewChild(Initial, p))
      && trace[6] == Spawn(NewChild(State(None, false, 1), p))
      && trace[8] == Kill(NewChild(State(None, false, 1), p))
      && NewChild(Initial, p) != NewChild(State(None, false, 1), p)
  {
    var calls := [StartCall(p), StartCall(p), StopCall];
    var s1 := Start(Initial, p).next;
    var s2 := Start(s1, p).next;
    assert calls[1..] == [StartCall(p), StopCall];
    assert calls[1..][1..] == [StopCall];
    assert calls[1..][1..][1..] == [];
    assert Run(s2, [StopCall]).1 == [Kill(NewChild(s1, p))];
  }
}
