/**
 The schema migration runner: the protocol of concurrent replicas around the advisory
 lock, the sequential loop one replica runs, and the drill's schema version check.
 */
module MigrationRunner {
  import opened Tables

  ghost predicate Ascending(list: seq<int>) {
    forall i, j | 0 <= i < j < |list| :: list[i] < list[j]
  }

  ghost predicate NoDuplicates(rows: seq<int>) {
    forall i, j | 0 <= i < j < |rows| :: rows[i] != rows[j]
  }

  // ---------- replicas ----------

  /** Where a replica is: examining entry i, inside the transaction of entry i, or not running. */
  datatype Phase = Idle | Checking(i: nat) | Applying(i: nat) | Finished | Stopped

  datatype Replica = Replica(target: int, phase: Phase)

  /** The version table in commit order, the lock, and the replicas. */
  datatype System = System(recorded: seq<int>, holder: Option<nat>, replicas: map<nat, Replica>)

  datatype Action =
    | Start(r: nat, target: int)     // a process begins a migration run
    | Acquire(r: nat)                // takes the advisory lock (or does without, on SQLite)
    | Look(r: nat)                   // reads whether the next version is recorded
    | Commit(r: nat)                 // the transaction ends by inserting the version row
    | Fail(r: nat)                   // the migration returns an error; the transaction rolls back
    | Finish(r: nat)                 // end of the list
    | Crash(r: nat)                  // the process dies: rollback, and its session's lock is freed
    | LoseLock(r: nat)               // the lock's session dies while the process goes on

  function Release(holder: Option<nat>, r: nat): Option<nat> {
    if holder == Some(r) then None else holder
  }

  function At(s: System, r: nat, p: Phase): System
    requires r in s.replicas
  {
    s.(replicas := s.replicas[r := s.replicas[r].(phase := p)])
  }

  function Off(s: System, r: nat, p: Phase): System
    requires r in s.replicas
  {
    At(s, r, p).(holder := Release(s.holder, r))
  }

  predicate InPhase(s: System, r: nat, p: Phase) {
    r in s.replicas && s.replicas[r].phase == p
  }

  predicate Active(p: Phase) {
    p.Checking? || p.Applying?
  }

  /** One interleaved step; `locking` says whether replicas take the advisory lock. */
  ghost predicate Step(list: seq<int>, locking: bool, s: System, a: Action, s': System) {
    match a
    case Start(r, target) =>
      && (r in s.replicas ==> !Active(s.replicas[r].phase))
      && s' == s.(replicas := s.replicas[r := Replica(target, Idle)])
    case Acquire(r) =>
      && InPhase(s, r, Idle)
      && (locking ==> s.holder == None)
      && s' == At(s, r, Checking(0)).(holder := if locking then Some(r) else s.holder)
    case Look(r) =>
      && r in s.replicas && s.replicas[r].phase.Checking? && s.replicas[r].phase.i < |list|
      && var i := s.replicas[r].phase.i;
      && s' == At(s, r, if list[i] > s.replicas[r].target || list[i] in s.recorded then Checking(i + 1) else Applying(i))
    case Commit(r) =>
      && r in s.replicas && s.replicas[r].phase.Applying? && s.replicas[r].phase.i < |list|
      && var i := s.replicas[r].phase.i;
      && s' == if list[i] in s.recorded then Off(s, r, Stopped)  // the primary key rejects the row
               else At(s, r, Checking(i + 1)).(recorded := s.recorded + [list[i]])
    case Fail(r) =>
      && r in s.replicas && s.replicas[r].phase.Applying?
      && s' == Off(s, r, Stopped)
    case Finish(r) =>
      && InPhase(s, r, Checking(|list|))
      && s' == Off(s, r, Finished)
    case Crash(r) =>
      && r in s.replicas
      && s' == Off(s, r, Stopped)
    case LoseLock(r) =>
      && s.holder == Some(r)
      && s' == s.(holder := None)
  }

  /** Every entry below i that the target selects is recorded. */
  ghost predicate CoveredBelow(list: seq<int>, recorded: seq<int>, target: int, i: nat) {
    i <= |list| && forall j | 0 <= j < i && list[j] <= target :: list[j] in recorded
  }

  /** What a replica's position implies about the version table. */
  ghost predicate Progress(list: seq<int>, recorded: seq<int>, rep: Replica) {
    match rep.phase
    case Checking(i) => CoveredBelow(list, recorded, rep.target, i)
    case Applying(i) => i < |list| && list[i] <= rep.target && CoveredBelow(list, recorded, rep.target, i)
    case Finished => CoveredBelow(list, recorded, rep.target, |list|)
    case _ => true
  }

  ghost predicate Invariant(list: seq<int>, s: System) {
    && NoDuplicates(s.recorded)
    && forall r | r in s.replicas :: Progress(list, s.recorded, s.replicas[r])
  }

  lemma ProgressPersists(list: seq<int>, recorded: seq<int>, v: int, rep: Replica)
    requires Progress(list, recorded, rep)
    ensures Progress(list, recorded + [v], rep)
  {
  }

  lemma StepKeepsInvariant(list: seq<int>, locking: bool, s: System, a: Action, s': System)
    requires Invariant(list, s) && Step(list, locking, s, a, s')
    ensures Invariant(list, s')
    ensures s.recorded <= s'.recorded
  {
    if a.Commit? && s'.recorded != s.recorded {
      var i := s.replicas[a.r].phase.i;
      assert Progress(list, s.recorded, s.replicas[a.r]);
      forall r | r in s'.replicas
        ensures Progress(list, s'.recorded, s'.replicas[r])
      {
        ProgressPersists(list, s.recorded, list[i], s.replicas[r]);
      }
    } else {
      forall r | r in s'.replicas
        ensures Progress(list, s'.recorded, s'.replicas[r])
      {
        assert r in s.replicas ==> Progress(list, s.recorded, s.replicas[r]);
      }
    }
  }

  /** The recorded versions of the list are exactly its first n, in whatever order they were recorded. */
  ghost predicate Level(list: seq<int>, recorded: seq<int>, n: nat) {
    n <= |list| && forall i | 0 <= i < |list| :: list[i] in recorded <==> i < n
  }

  /** With every recorded version of the list all earlier ones are recorded too. */
  ghost predicate DownwardClosed(list: seq<int>, recorded: seq<int>) {
    forall i, j | 0 <= i < j < |list| && list[j] in recorded :: list[i] in recorded
  }

  /** Being downward closed and having a level are the same. */
  lemma LevelOf(list: seq<int>, recorded: seq<int>) returns (n: nat)
    ensures n <= |list|
    ensures DownwardClosed(list, recorded) <==> Level(list, recorded, n)
  {
    n := 0;
    while n < |list| && list[n] in recorded
      invariant n <= |list|
      invariant forall i | 0 <= i < n :: list[i] in recorded
    {
      n := n + 1;
    }
  }

  /** With an ascending list, a commit is always the next entry: it raises the level by one. */
  lemma StepKeepsLevel(list: seq<int>, locking: bool, s: System, a: Action, s': System, n: nat) returns (n': nat)
    requires Ascending(list) && Invariant(list, s) && Step(list, locking, s, a, s')
    requires Level(list, s.recorded, n)
    ensures n <= n' && Level(list, s'.recorded, n')
    ensures s'.recorded == s.recorded + list[n..n']
  {
    n' := n;
    if a.Commit? && s'.recorded != s.recorded {
      var i := s.replicas[a.r].phase.i;
      assert Progress(list, s.recorded, s.replicas[a.r]);
      assert i == n by {
        assert i > 0 ==> list[i - 1] in s.recorded;
      }
      n' := n + 1;
      assert list[n..n'] == [list[n]];
    } else {
      assert list[n..n] == [];
    }
  }

  /** A run of the protocol. */
  ghost predicate Run(list: seq<int>, locking: bool, states: seq<System>, actions: seq<Action>) {
    && |states| == |actions| + 1
    && forall i {:trigger actions[i]} | 0 <= i < |actions| :: Step(list, locking, states[i], actions[i], states[i + 1])
  }

  /**
   In every run of any number of replicas with any targets, with or without the lock, with
   failures, crashes and lost lock sessions anywhere, the version table only grows and never
   holds a version twice: migrations commit at most once each.
   */
  lemma {:induction false} EveryRunRecordsOnce(list: seq<int>, locking: bool, states: seq<System>, actions: seq<Action>, i: nat, j: nat)
    requires Run(list, locking, states, actions)
    requires Invariant(list, states[0])
    requires i <= j < |states|
    ensures Invariant(list, states[j])
    ensures states[i].recorded <= states[j].recorded
    decreases j
  {
    if j > 0 {
      EveryRunRecordsOnce(list, locking, states, actions, if i < j then i else j - 1, j - 1);
      assert Step(list, locking, states[j - 1], actions[j - 1], states[j]);
      StepKeepsInvariant(list, locking, states[j - 1], actions[j - 1], states[j]);
    }
  }

  /**
   From any downward-closed version table, in whatever order it was filled and whatever else
   it holds, the commits of every such run are the following entries of the list, in list
   order and without a gap, and the table keeps a level, that is, stays downward closed.
   */
  lemma {:induction false} EveryRunCommitsInOrder(list: seq<int>, locking: bool, states: seq<System>, actions: seq<Action>, j: nat)
    returns (n: nat, m: nat)
    requires Ascending(list) && Run(list, locking, states, actions)
    requires Invariant(list, states[0]) && DownwardClosed(list, states[0].recorded)
    requires j < |states|
    ensures n <= m && Level(list, states[0].recorded, n) && Level(list, states[j].recorded, m)
    ensures states[j].recorded == states[0].recorded + list[n..m]
  {
    if j == 0 {
      n := LevelOf(list, states[0].recorded);
      m := n;
      assert list[n..m] == [];
    } else {
      var k;
      n, k := EveryRunCommitsInOrder(list, locking, states, actions, j - 1);
      EveryRunRecordsOnce(list, locking, states, actions, 0, j - 1);
      m := OneMoreStep(list, locking, states[0].recorded, states, actions, j, n, k);
    }
  }

  lemma OneMoreStep(list: seq<int>, locking: bool, start: seq<int>, states: seq<System>, actions: seq<Action>, j: nat, n: nat, k: nat)
    returns (m: nat)
    requires Ascending(list) && Run(list, locking, states, actions)
    requires 0 < j < |states| && Invariant(list, states[j - 1])
    requires n <= k && Level(list, states[j - 1].recorded, k) && states[j - 1].recorded == start + list[n..k]
    ensures k <= m && Level(list, states[j].recorded, m) && states[j].recorded == start + list[n..m]
  {
    var a := actions[j - 1];
    m := StepKeepsLevel(list, locking, states[j - 1], a, states[j], k);
    JoinSlices(list, start, states[j - 1].recorded, n, k, m);
  }

  lemma JoinSlices(list: seq<int>, a: seq<int>, b: seq<int>, n: nat, k: nat, m: nat)
    requires n <= k <= m <= |list| && b == a + list[n..k]
    ensures b + list[k..m] == a + list[n..m]
  {
    assert list[n..k] + list[k..m] == list[n..m];
  }

  /** In every run, no replica commits a version above its target. */
  lemma CommitsStayWithinTarget(list: seq<int>, locking: bool, states: seq<System>, actions: seq<Action>, j: nat)
    requires Run(list, locking, states, actions) && Invariant(list, states[0])
    requires j < |actions| && actions[j].Commit? && states[j + 1].recorded != states[j].recorded
    ensures actions[j].r in states[j].replicas
    ensures exists v :: v <= states[j].replicas[actions[j].r].target && v in list && states[j + 1].recorded == states[j].recorded + [v]
  {
    EveryRunRecordsOnce(list, locking, states, actions, 0, j);
    var s, r := states[j], actions[j].r;
    assert Progress(list, s.recorded, s.replicas[r]);
    var v := list[s.replicas[r].phase.i];
    assert v in list;
  }

  /** When a replica has finished, everything up to its target is recorded, for good. */
  lemma FinishedMeansRecorded(list: seq<int>, locking: bool, states: seq<System>, actions: seq<Action>, i: nat, j: nat, r: nat)
    requires Run(list, locking, states, actions)
    requires Invariant(list, states[0])
    requires i <= j < |states| && InPhase(states[i], r, Finished)
    ensures forall k | 0 <= k < |list| && list[k] <= states[i].replicas[r].target :: list[k] in states[j].recorded
  {
    EveryRunRecordsOnce(list, locking, states, actions, i, j);
    EveryRunRecordsOnce(list, locking, states, actions, 0, i);
    assert Progress(list, states[i].recorded, states[i].replicas[r]);
  }

  // ---------- what the lock adds ----------

  /** Only the lock holder runs, and no open transaction is for a version already recorded. */
  ghost predicate Exclusive(list: seq<int>, s: System) {
    && (forall r | r in s.replicas && Active(s.replicas[r].phase) :: s.holder == Some(r))
    && forall r | r in s.replicas && s.replicas[r].phase.Applying? ::
         s.replicas[r].phase.i < |list| && list[s.replicas[r].phase.i] !in s.recorded
  }

  /** The commit would violate the version table's primary key. */
  predicate Conflict(list: seq<int>, s: System, a: Action) {
    && a.Commit?
    && a.r in s.replicas && s.replicas[a.r].phase.Applying? && s.replicas[a.r].phase.i < |list|
    && list[s.replicas[a.r].phase.i] in s.recorded
  }

  lemma StepKeepsExclusive(list: seq<int>, s: System, a: Action, s': System)
    requires Exclusive(list, s) && Step(list, true, s, a, s') && !a.LoseLock?
    ensures Exclusive(list, s') && !Conflict(list, s, a)
  {
  }

  /**
   As long as replicas take the lock and no lock session dies under a live process, two
   replicas never run at once and no commit ever meets a version that is already recorded.
   */
  lemma {:induction false} LockPreventsConflicts(list: seq<int>, states: seq<System>, actions: seq<Action>, j: nat)
    requires Run(list, true, states, actions)
    requires Exclusive(list, states[0])
    requires forall k | 0 <= k < |actions| :: !actions[k].LoseLock?
    requires j < |states|
    ensures Exclusive(list, states[j])
    ensures j < |actions| ==> !Conflict(list, states[j], actions[j])
  {
    if j > 0 {
      LockPreventsConflicts(list, states, actions, j - 1);
      StepKeepsExclusive(list, states[j - 1], actions[j - 1], states[j]);
    }
    if j < |actions| {
      assert Step(list, true, states[j], actions[j], states[j + 1]);
      StepKeepsExclusive(list, states[j], actions[j], states[j + 1]);
    }
  }

  lemma Extend(list: seq<int>, locking: bool, states: seq<System>, actions: seq<Action>, a: Action, s: System)
    requires Run(list, locking, states, actions) && Step(list, locking, states[|actions|], a, s)
    ensures Run(list, locking, states + [s], actions + [a])
  {
  }

  /** Two replicas without the lock, both inside the transaction of the first version. */
  lemma BothOpen(list: seq<int>) returns (states: seq<System>, actions: seq<Action>)
    requires |list| > 0
    ensures Run(list, false, states, actions) && states[0] == System([], None, map[])
    ensures var s := states[|actions|];
            s.recorded == [] && InPhase(s, 0, Applying(0)) && InPhase(s, 1, Applying(0))
  {
    var v := list[0];
    var s := System([], None, map[]);
    states, actions := [s], [];
    s := s.(replicas := s.replicas[0 := Replica(v, Idle)]);
    Extend(list, false, states, actions, Start(0, v), s);
    states, actions := states + [s], actions + [Start(0, v)];
    s := s.(replicas := s.replicas[1 := Replica(v, Idle)]);
    Extend(list, false, states, actions, Start(1, v), s);
    states, actions := states + [s], actions + [Start(1, v)];
    s := At(s, 0, Checking(0));
    Extend(list, false, states, actions, Acquire(0), s);
    states, actions := states + [s], actions + [Acquire(0)];
    s := At(s, 1, Checking(0));
    Extend(list, false, states, actions, Acquire(1), s);
    states, actions := states + [s], actions + [Acquire(1)];
    s := At(s, 0, Applying(0));
    Extend(list, false, states, actions, Look(0), s);
    states, actions := states + [s], actions + [Look(0)];
    s := At(s, 1, Applying(0));
    Extend(list, false, states, actions, Look(1), s);
    states, actions := states + [s], actions + [Look(1)];
  }

  /** Without the lock two replicas can both open the first version, and the second commit is rejected. */
  lemma WithoutLockConflictsHappen(list: seq<int>)
    requires |list| > 0
    ensures exists states, actions, j ::
              && Run(list, false, states, actions) && states[0] == System([], None, map[])
              && 0 <= j < |actions| && Conflict(list, states[j], actions[j])
  {
    var states, actions := BothOpen(list);
    var states', actions' := SecondCommitConflicts(list, false, states, actions);
    assert Conflict(list, states'[|actions| + 1], actions'[|actions| + 1]);
  }

  /** Two locking replicas inside the transaction of the first version, after the first one's lock session died. */
  lemma BothOpenAfterLostLock(list: seq<int>) returns (states: seq<System>, actions: seq<Action>)
    requires |list| > 0
    ensures Run(list, true, states, actions) && states[0] == System([], None, map[])
    ensures var s := states[|actions|];
            s.recorded == [] && InPhase(s, 0, Applying(0)) && InPhase(s, 1, Applying(0))
    ensures forall k | 0 <= k < |actions| && actions[k].LoseLock? :: actions[k] == LoseLock(0)
  {
    var v := list[0];
    var s := System([], None, map[]);
    states, actions := [s], [];
    s := s.(replicas := s.replicas[0 := Replica(v, Idle)]);
    Extend(list, true, states, actions, Start(0, v), s);
    states, actions := states + [s], actions + [Start(0, v)];
    s := s.(replicas := s.replicas[1 := Replica(v, Idle)]);
    Extend(list, true, states, actions, Start(1, v), s);
    states, actions := states + [s], actions + [Start(1, v)];
    s := At(s, 0, Checking(0)).(holder := Some(0));
    Extend(list, true, states, actions, Acquire(0), s);
    states, actions := states + [s], actions + [Acquire(0)];
    s := At(s, 0, Applying(0));
    Extend(list, true, states, actions, Look(0), s);
    states, actions := states + [s], actions + [Look(0)];
    s := s.(holder := None);
    Extend(list, true, states, actions, LoseLock(0), s);
    states, actions := states + [s], actions + [LoseLock(0)];
    s := At(s, 1, Checking(0)).(holder := Some(1));
    Extend(list, true, states, actions, Acquire(1), s);
    states, actions := states + [s], actions + [Acquire(1)];
    s := At(s, 1, Applying(0));
    Extend(list, true, states, actions, Look(1), s);
    states, actions := states + [s], actions + [Look(1)];
  }

  /** From two replicas inside the transaction of the first version, the second commit is rejected. */
  lemma SecondCommitConflicts(list: seq<int>, locking: bool, states: seq<System>, actions: seq<Action>)
    returns (states': seq<System>, actions': seq<Action>)
    requires |list| > 0 && Run(list, locking, states, actions)
    requires var s := states[|actions|];
             s.recorded == [] && InPhase(s, 0, Applying(0)) && InPhase(s, 1, Applying(0))
    ensures Run(list, locking, states', actions') && states'[0] == states[0]
    ensures actions' == actions + [Commit(0), Commit(1)]
    ensures Conflict(list, states'[|actions| + 1], actions'[|actions| + 1])
  {
    var s := states[|actions|];
    var s' := At(s, 0, Checking(1)).(recorded := s.recorded + [list[0]]);
    var s'' := Off(s', 1, Stopped);
    Extend(list, locking, states, actions, Commit(0), s');
    Extend(list, locking, states + [s'], actions + [Commit(0)], Commit(1), s'');
    states', actions' := states + [s'] + [s''], actions + [Commit(0)] + [Commit(1)];
  }

  /** The lock alone is not enough: a run of locking replicas with one lost lock session reaches a rejected commit. */
  lemma LostLockConflictsHappen(list: seq<int>)
    requires |list| > 0
    ensures exists states, actions: seq<Action>, j ::
              && Run(list, true, states, actions) && states[0] == System([], None, map[])
              && (forall k | 0 <= k < |actions| && actions[k].LoseLock? :: actions[k] == LoseLock(0))
              && 0 <= j < |actions| && Conflict(list, states[j], actions[j])
  {
    var states, actions := BothOpenAfterLostLock(list);
    var states', actions' := SecondCommitConflicts(list, true, states, actions);
    assert Conflict(list, states'[|actions| + 1], actions'[|actions| + 1]);
  }

  // ---------- the lock is given back ----------

  /** The replica's run ends with this action. */
  predicate Ends(list: seq<int>, s: System, a: Action) {
    a.Finish? || a.Fail? || a.Crash? || Conflict(list, s, a)
  }

  /** A replica that finishes, fails, crashes or is rejected frees the lock if it holds it; no other action of a replica frees it. */
  lemma EndFreesLock(list: seq<int>, locking: bool, s: System, a: Action, s': System)
    requires Step(list, locking, s, a, s') && !a.Start? && !a.Acquire? && !a.LoseLock?
    ensures s'.holder == if Ends(list, s, a) && s.holder == Some(a.r) then None else s.holder
    ensures Ends(list, s, a) ==> InPhase(s', a.r, if a.Finish? then Finished else Stopped) && s'.recorded == s.recorded
  {
  }

  /** Only a replica that is running holds the lock. */
  predicate HolderRuns(s: System) {
    s.holder.Some? ==> s.holder.value in s.replicas && Active(s.replicas[s.holder.value].phase)
  }

  lemma StepKeepsHolder(list: seq<int>, locking: bool, s: System, a: Action, s': System)
    requires HolderRuns(s) && Step(list, locking, s, a, s')
    ensures HolderRuns(s')
  {
  }

  /** In every run from a free lock, the lock is free whenever no replica is running. */
  lemma {:induction false} IdleMeansFree(list: seq<int>, locking: bool, states: seq<System>, actions: seq<Action>, j: nat)
    requires Run(list, locking, states, actions) && HolderRuns(states[0]) && j < |states|
    ensures HolderRuns(states[j])
    ensures (forall r | r in states[j].replicas :: !Active(states[j].replicas[r].phase)) ==> states[j].holder == None
  {
    if j > 0 {
      IdleMeansFree(list, locking, states, actions, j - 1);
      var a := actions[j - 1];
      StepKeepsHolder(list, locking, states[j - 1], a, states[j]);
    }
  }

  lemma Prepend(list: seq<int>, locking: bool, s: System, a: Action, states: seq<System>, actions: seq<Action>)
    requires Run(list, locking, states, actions) && Step(list, locking, s, a, states[0])
    ensures Run(list, locking, [s] + states, [a] + actions)
  {
    var ss, aa := [s] + states, [a] + actions;
    forall i | 0 <= i < |aa|
      ensures Step(list, locking, ss[i], aa[i], ss[i + 1])
    {
      if i > 0 {
        assert aa[i] == actions[i - 1] && ss[i] == states[i - 1] && ss[i + 1] == states[i];
      }
    }
  }

  /** The replica has finished, the lock is free, and all versions of the list from i on up to its target are recorded. */
  ghost predicate RanThrough(list: seq<int>, r: nat, target: int, i: nat, end: System) {
    && InPhase(end, r, Finished) && end.holder == None
    && forall k | i <= k < |list| && list[k] <= target :: list[k] in end.recorded
  }

  lemma {:induction false} RunThrough(list: seq<int>, s: System, r: nat, i: nat) returns (states: seq<System>, actions: seq<Action>)
    requires i <= |list| && InPhase(s, r, Checking(i)) && s.holder == Some(r)
    ensures Run(list, true, states, actions) && states[0] == s
    ensures RanThrough(list, r, s.replicas[r].target, i, states[|actions|])
    ensures s.recorded <= states[|actions|].recorded
    decreases |list| - i
  {
    if i == |list| {
      var end := Off(s, r, Finished);
      states, actions := [s, end], [Finish(r)];
    } else if list[i] > s.replicas[r].target || list[i] in s.recorded {
      var next := At(s, r, Checking(i + 1));
      var ss, aa := RunThrough(list, next, r, i + 1);
      Prepend(list, true, s, Look(r), ss, aa);
      states, actions := [s] + ss, [Look(r)] + aa;
    } else {
      var open := At(s, r, Applying(i));
      var next := At(open, r, Checking(i + 1)).(recorded := s.recorded + [list[i]]);
      var ss, aa := RunThrough(list, next, r, i + 1);
      assert Step(list, true, open, Commit(r), next);
      Prepend(list, true, open, Commit(r), ss, aa);
      Prepend(list, true, s, Look(r), [open] + ss, [Commit(r)] + aa);
      states, actions := [s] + ([open] + ss), [Look(r)] + ([Commit(r)] + aa);
      assert list[i] in next.recorded;
    }
  }

  /**
   From every state of a locking run in which no replica is running, an idle replica can take the lock
   and run to its target: whatever finished, failed or crashed before left nothing behind.
   */
  lemma IdleReplicaCanRun(list: seq<int>, before: seq<System>, done: seq<Action>, j: nat, r: nat) returns (states: seq<System>, actions: seq<Action>)
    requires Run(list, true, before, done) && HolderRuns(before[0]) && j < |before|
    requires forall q | q in before[j].replicas :: !Active(before[j].replicas[q].phase)
    requires InPhase(before[j], r, Idle)
    ensures Run(list, true, states, actions) && states[0] == before[j]
    ensures RanThrough(list, r, before[j].replicas[r].target, 0, states[|actions|])
  {
    IdleMeansFree(list, true, before, done, j);
    states, actions := AcquireAndRun(list, before[j], r);
  }

  /** And so can any replica that starts then, new or once stopped, with any target. */
  lemma StartedReplicaCanRun(list: seq<int>, before: seq<System>, done: seq<Action>, j: nat, r: nat, target: int)
    returns (states: seq<System>, actions: seq<Action>)
    requires Run(list, true, before, done) && HolderRuns(before[0]) && j < |before|
    requires forall q | q in before[j].replicas :: !Active(before[j].replicas[q].phase)
    ensures Run(list, true, states, actions) && states[0] == before[j]
    ensures RanThrough(list, r, target, 0, states[|actions|])
  {
    IdleMeansFree(list, true, before, done, j);
    var s := before[j];
    var started := s.(replicas := s.replicas[r := Replica(target, Idle)]);
    var ss, aa := AcquireAndRun(list, started, r);
    Prepend(list, true, s, Start(r, target), ss, aa);
    states, actions := [s] + ss, [Start(r, target)] + aa;
  }

  lemma AcquireAndRun(list: seq<int>, s: System, r: nat) returns (states: seq<System>, actions: seq<Action>)
    requires s.holder == None && InPhase(s, r, Idle)
    ensures Run(list, true, states, actions) && states[0] == s
    ensures RanThrough(list, r, s.replicas[r].target, 0, states[|actions|])
  {
    var next := At(s, r, Checking(0)).(holder := Some(r));
    var ss, aa := RunThrough(list, next, r, 0);
    Prepend(list, true, s, Acquire(r), ss, aa);
    states, actions := [s] + ss, [Acquire(r)] + aa;
  }

  // ---------- one replica's loop ----------

  /** The versions a run to `target` has to apply, in list order. */
  function Pending(list: seq<int>, target: int, recorded: seq<int>): seq<int> {
    if list == [] then []
    else
      var front, v := Pending(list[..|list| - 1], target, recorded), list[|list| - 1];
      if v <= target && v !in recorded then front + [v] else front
  }

  lemma {:induction false} PendingMembers(list: seq<int>, target: int, recorded: seq<int>, v: int)
    ensures v in Pending(list, target, recorded) <==> v in list && v <= target && v !in recorded
  {
    if list != [] {
      PendingMembers(list[..|list| - 1], target, recorded, v);
      assert list == list[..|list| - 1] + [list[|list| - 1]];
    }
  }

  /** They come in list order. */
  lemma {:induction false} PendingAscends(list: seq<int>, target: int, recorded: seq<int>)
    requires Ascending(list)
    ensures Ascending(Pending(list, target, recorded))
  {
    if list != [] {
      var front := list[..|list| - 1];
      PendingAscends(front, target, recorded);
      var pending := Pending(front, target, recorded);
      forall i | 0 <= i < |pending|
        ensures pending[i] < list[|list| - 1]
      {
        PendingMembers(front, target, recorded, pending[i]);
      }
    }
  }

  datatype Outcome = Migrated | UnknownTarget | MigrationFailed(version: int)

  /**
   Applies the pending versions up to a known target in list order; `works` says which
   migrations succeed. On a failure the versions before it stay recorded.
   */
  method MigrateTo(list: seq<int>, target: int, recorded: seq<int>, works: int -> bool)
    returns (outcome: Outcome, now: seq<int>)
    requires Ascending(list)
    ensures outcome.UnknownTarget? <==> target !in list
    ensures outcome.UnknownTarget? ==> now == recorded
    ensures outcome.Migrated? <==> target in list && forall v | v in Pending(list, target, recorded) :: works(v)
    ensures outcome.Migrated? ==> now == recorded + Pending(list, target, recorded)
    ensures outcome.MigrationFailed? ==>
              && !works(outcome.version)
              && now + [outcome.version] <= recorded + Pending(list, target, recorded)
              && |recorded| <= |now|
              && forall v | v in now[|recorded|..] :: works(v)
  {
    now := recorded;
    if target !in list {
      return UnknownTarget, now;
    }
    ghost var all := Pending(list, target, recorded);
    for k := 0 to |list|
      invariant now == recorded + Pending(list[..k], target, recorded)
      invariant Pending(list[..k], target, recorded) <= all
      invariant forall v | v in Pending(list[..k], target, recorded) :: works(v)
    {
      var version := list[k];
      assert list[..k + 1][..k] == list[..k];
      PendingGrows(list, k + 1, target, recorded);
      PendingMembers(list[..k], target, recorded, version);
      assert version !in list[..k];
      if version > target {
        continue;
      }
      if version in now {
        continue;
      }
      if !works(version) {
        assert Pending(list[..k + 1], target, recorded) == Pending(list[..k], target, recorded) + [version];
        assert all[|Pending(list[..k], target, recorded)|] == version;
        return MigrationFailed(version), now;
      }
      now := now + [version];
    }
    assert list[..|list|] == list;
    outcome := Migrated;
  }

  lemma {:induction false} PendingGrows(list: seq<int>, k: nat, target: int, recorded: seq<int>)
    requires k <= |list|
    ensures Pending(list[..k], target, recorded) <= Pending(list, target, recorded)
  {
    if k < |list| {
      var front := list[..|list| - 1];
      assert front[..k] == list[..k];
      PendingGrows(front, k, target, recorded);
    } else {
      assert list[..k] == list;
    }
  }

  /** Migrating to a and then to b records the same versions as migrating to the greater one. */
  lemma MigrateInTwoLegs(list: seq<int>, a: int, b: int, recorded: seq<int>)
    ensures var one := recorded + Pending(list, a, recorded);
            var two := one + Pending(list, b, one);
            var direct := recorded + Pending(list, if a < b then b else a, recorded);
            forall v :: v in two <==> v in direct
  {
    var one := recorded + Pending(list, a, recorded);
    forall v {:trigger v in one}
      ensures v in one + Pending(list, b, one) <==> v in recorded + Pending(list, if a < b then b else a, recorded)
    {
      PendingMembers(list, a, recorded, v);
      PendingMembers(list, b, one, v);
      PendingMembers(list, if a < b then b else a, recorded, v);
    }
  }

  // ---------- the drill's schema check ----------

  datatype SchemaCheck = Current(latest: int, count: nat) | NoVersions | Missing(versions: seq<int>) | WrongLatest(latest: int)

  /** Linear search of the drill. */
  method ContainsVersion(values: seq<int>, expected: int) returns (found: bool)
    ensures found <==> expected in values
  {
    for i := 0 to |values|
      invariant expected !in values[..i]
    {
      if values[i] == expected {
        return true;
      }
    }
    assert values[..|values|] == values;
    return false;
  }

  /** Every version 1..want is recorded, and want is the greatest recorded one. */
  ghost predicate UpTo(applied: seq<int>, want: int) {
    && (forall v | 1 <= v <= want :: v in applied)
    && want in applied
    && forall v | v in applied :: v <= want
  }

  /**
   Accepts a version table exactly when it holds every version 1..expected and none above;
   a non-positive expectation stands for the latest version of the list.
   */
  method CheckSchemaVersion(applied: seq<int>, expected: int, latestInList: int) returns (result: SchemaCheck)
    requires Ascending(applied)
    ensures var want := if expected <= 0 then latestInList else expected;
            && (result.NoVersions? <==> applied == [])
            && (result.Current? <==> applied != [] && UpTo(applied, want))
            && (result.Current? ==> result.latest == want && result.count == |applied|)
            && (result.WrongLatest? <==>
                applied != [] && (forall v | 1 <= v <= want :: v in applied) && applied[|applied| - 1] != want)
            && (result.WrongLatest? ==> result.latest == applied[|applied| - 1])
            && (result.Missing? ==> result.versions != [] && forall v :: v in result.versions <==> 1 <= v <= want && v !in applied)
  {
    var want := if expected <= 0 then latestInList else expected;
    if |applied| == 0 {
      return NoVersions;
    }
    var missing: seq<int> := [];
    var version := 1;
    while version <= want
      invariant 1 <= version
      invariant version == 1 || version <= want + 1
      invariant forall v :: v in missing <==> 1 <= v < version && v !in applied
      decreases want - version
    {
      var found := ContainsVersion(applied, version);
      if !found {
        missing := missing + [version];
      }
      version := version + 1;
    }
    if |missing| > 0 {
      var m := missing[0];
      assert m in missing;
      assert 1 <= m <= want && m !in applied;
      return Missing(missing);
    }
    var latest := applied[|applied| - 1];
    assert forall v | 1 <= v <= want :: v !in missing;
    if latest != want {
      assert latest in applied;
      return WrongLatest(latest);
    }
    return Current(latest, |applied|);
  }

  /** The list 1, 2, ..., n. */
  predicate Contiguous(list: seq<int>) {
    forall i | 0 <= i < |list| :: list[i] == i + 1
  }

  /**
   For a contiguous list, a version table inside the list on which a run to the latest
   version has succeeded meets the condition of the schema check.
   */
  lemma MigratedPassesCheck(list: seq<int>, recorded: seq<int>)
    requires |list| > 0 && Contiguous(list)
    requires forall v | v in recorded :: v in list
    ensures var latest := list[|list| - 1];
            UpTo(recorded + Pending(list, latest, recorded), latest)
  {
    var latest := list[|list| - 1];
    var now := recorded + Pending(list, latest, recorded);
    forall v
      ensures v in now <==> 1 <= v <= latest
    {
      PendingMembers(list, latest, recorded, v);
      if 1 <= v <= latest { assert list[v - 1] == v; }
    }
  }
}
