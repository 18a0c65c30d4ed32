/**
 The token budget of a quota bucket: reservations, finalization, release and the reaping of
 stale reservations, and when the in-flight balance equals the live reservations.
 */
module QuotaBucket {

  datatype Status = Pending | Finalized | Released

  datatype Reservation = Reservation(request: string, estimated: nat, applied: bool, status: Status, createdAt: int)

  /** One bucket row and its reservations. A limit of zero or less means unlimited. */
  datatype Bucket = Bucket(limit: int, used: nat, pending: nat, rows: seq<Reservation>)

  datatype Action =
    | Add(request: string, estimated: nat, createdAt: int) // the ledger row, ignored for a known request
    | Reserve(i: nat, reserveRequest: bool, requestsFit: bool)
    | Finalize(i: nat, actual: nat)
    | Release(i: nat)
    | Reap(before: int)

  function Less(pending: nat, amount: nat): nat {
    if pending < amount then 0 else pending - amount
  }

  predicate Live(r: Reservation) {
    r.status == Pending && r.applied
  }

  predicate Stale(r: Reservation, before: int) {
    r.status == Pending && r.createdAt < before
  }

  /** The kinds of rows whose estimates are summed. */
  datatype Kind = AllLive | AllStale(before: int) | StaleApplied(before: int) | StaleUnapplied(before: int)

  predicate Chosen(k: Kind, r: Reservation) {
    match k
    case AllLive => Live(r)
    case AllStale(before) => Stale(r, before)
    case StaleApplied(before) => Stale(r, before) && r.applied
    case StaleUnapplied(before) => Stale(r, before) && !r.applied
  }

  function Weight(k: Kind, r: Reservation): nat {
    if Chosen(k, r) then r.estimated else 0
  }

  /** The sum of the estimates of the rows of a kind. */
  function Sum(rows: seq<Reservation>, k: Kind): nat {
    if rows == [] then 0 else Sum(rows[..|rows| - 1], k) + Weight(k, rows[|rows| - 1])
  }

  function Expired(rows: seq<Reservation>, before: int): (out: seq<Reservation>)
    ensures |out| == |rows|
    ensures forall i | 0 <= i < |rows| :: out[i] == if Stale(rows[i], before) then rows[i].(status := Released) else rows[i]
  {
    seq(|rows|, i requires 0 <= i < |rows| => if Stale(rows[i], before) then rows[i].(status := Released) else rows[i])
  }

  predicate Fits(b: Bucket, estimated: nat) {
    b.limit <= 0 || b.used + b.pending + estimated <= b.limit
  }

  /**
   The reservation takes effect. It is made once, by the request whose row was inserted;
   neither the caller nor the statement looks at the row's status again.
   */
  predicate Reserves(b: Bucket, i: nat, reserveRequest: bool, requestsFit: bool) {
    && i < |b.rows| && !b.rows[i].applied
    && (b.rows[i].estimated > 0 || reserveRequest)
    && Fits(b, b.rows[i].estimated) && requestsFit
  }

  /** The updates of a finalization; they do not look at the row's status again. */
  function FinalizeWrites(b: Bucket, i: nat, actual: nat): Bucket
    requires i < |b.rows|
  {
    b.(used := b.used + actual, pending := Less(b.pending, b.rows[i].estimated),
       rows := b.rows[i := b.rows[i].(status := Finalized)])
  }

  /** The bucket after an action, each taken as one transaction; a row index beyond the table stands for an unknown request. */
  function Next(b: Bucket, a: Action): Bucket {
    match a
    case Add(request, estimated, createdAt) =>
      if exists i :: 0 <= i < |b.rows| && b.rows[i].request == request then b
      else b.(rows := b.rows + [Reservation(request, estimated, false, Pending, createdAt)])
    case Reserve(i, reserveRequest, requestsFit) =>
      if !Reserves(b, i, reserveRequest, requestsFit) then b
      else b.(pending := b.pending + b.rows[i].estimated, rows := b.rows[i := b.rows[i].(applied := true)])
    case Finalize(i, actual) =>
      if i >= |b.rows| || !Live(b.rows[i]) then b else FinalizeWrites(b, i, actual)
    case Release(i) =>
      if i >= |b.rows| || b.rows[i].status != Pending then b
      else b.(pending := if b.rows[i].applied then Less(b.pending, b.rows[i].estimated) else b.pending,
              rows := b.rows[i := b.rows[i].(status := Released)])
    case Reap(before) =>
      b.(pending := Less(b.pending, Sum(b.rows, AllStale(before))), rows := Expired(b.rows, before))
  }

  /** The in-flight balance is the sum of the live reservations. */
  predicate Balanced(b: Bucket) {
    b.pending == Sum(b.rows, AllLive)
  }

  // ---------- what each action does ----------

  /** A new request gets a pending row that is not applied; a known one changes nothing. */
  lemma AddMeans(b: Bucket, request: string, estimated: nat, createdAt: int)
    ensures var b' := Next(b, Add(request, estimated, createdAt));
            && b'.limit == b.limit && b'.used == b.used && b'.pending == b.pending
            && (if exists i :: 0 <= i < |b.rows| && b.rows[i].request == request then b'.rows == b.rows
                else b'.rows == b.rows + [Reservation(request, estimated, false, Pending, createdAt)])
  {
  }

  /**
   A reservation takes effect exactly when the row is there and not applied, it asks for something,
   and both limits leave room; it then adds the estimate and marks the row.
   */
  lemma ReserveMeans(b: Bucket, i: nat, reserveRequest: bool, requestsFit: bool)
    requires i < |b.rows| && !b.rows[i].applied
    ensures var b', e := Next(b, Reserve(i, reserveRequest, requestsFit)), b.rows[i].estimated;
            && b'.limit == b.limit && b'.used == b.used
            && (if (e > 0 || reserveRequest) && (b.limit <= 0 || b.used + b.pending + e <= b.limit) && requestsFit
                then b'.pending == b.pending + e && b'.rows == b.rows[i := b.rows[i].(applied := true)]
                else b' == b)
  {
  }

  /** A live row is finalized once: its estimate leaves the balance and the actual use is booked. */
  lemma FinalizeMeans(b: Bucket, i: nat, actual: nat)
    requires i < |b.rows|
    ensures var b' := Next(b, Finalize(i, actual));
            if b.rows[i].status == Pending && b.rows[i].applied then
              && b'.limit == b.limit && b'.used == b.used + actual
              && b'.rows == b.rows[i := b.rows[i].(status := Finalized)]
              && (b.pending >= b.rows[i].estimated ==> b'.pending == b.pending - b.rows[i].estimated)
              && (b.pending < b.rows[i].estimated ==> b'.pending == 0)
            else b' == b
  {
  }

  /** A pending row is released once: only what was applied leaves the balance. */
  lemma ReleaseMeans(b: Bucket, i: nat)
    requires i < |b.rows|
    ensures var b' := Next(b, Release(i));
            if b.rows[i].status == Pending then
              && b'.limit == b.limit && b'.used == b.used
              && b'.rows == b.rows[i := b.rows[i].(status := Released)]
              && (!b.rows[i].applied ==> b'.pending == b.pending)
              && (b.rows[i].applied && b.pending >= b.rows[i].estimated ==> b'.pending == b.pending - b.rows[i].estimated)
              && (b.rows[i].applied && b.pending < b.rows[i].estimated ==> b'.pending == 0)
            else b' == b
  {
  }

  /** Reaping releases exactly the pending rows created before the cutoff and books no use. */
  lemma ReapMeans(b: Bucket, before: int, i: nat)
    requires i < |b.rows|
    ensures var b' := Next(b, Reap(before));
            && b'.limit == b.limit && b'.used == b.used && |b'.rows| == |b.rows|
            && b'.rows[i] == (if b.rows[i].status == Pending && b.rows[i].createdAt < before then b.rows[i].(status := Released) else b.rows[i])
  {
  }

  /** An unknown request changes nothing. */
  lemma UnknownRequestChangesNothing(b: Bucket, i: nat, actual: nat, reserveRequest: bool, requestsFit: bool)
    requires i >= |b.rows|
    ensures Next(b, Finalize(i, actual)) == b && Next(b, Release(i)) == b && Next(b, Reserve(i, reserveRequest, requestsFit)) == b
  {
  }

  // ---------- sums ----------

  lemma {:induction false} SumUpdate(rows: seq<Reservation>, k: Kind, i: nat, r: Reservation)
    requires i < |rows|
    ensures Sum(rows[i := r], k) + Weight(k, rows[i]) == Sum(rows, k) + Weight(k, r)
    ensures Sum(rows, k) >= Weight(k, rows[i])
  {
    var n := |rows| - 1;
    if i < n {
      SumUpdate(rows[..n], k, i, r);
      assert rows[i := r][..n] == rows[..n][i := r];
    } else {
      assert rows[i := r][..n] == rows[..n];
    }
  }

  /** The stale rows split into live and unapplied ones; after expiry the live sum loses the live stale part. */
  lemma {:induction false} ReapSplit(rows: seq<Reservation>, before: int)
    ensures Sum(rows, AllStale(before))
            == Sum(rows, StaleApplied(before)) + Sum(rows, StaleUnapplied(before))
    ensures Sum(rows, AllLive) == Sum(Expired(rows, before), AllLive) + Sum(rows, StaleApplied(before))
  {
    if rows != [] {
      var front := rows[..|rows| - 1];
      ReapSplit(front, before);
      assert Expired(rows, before)[..|rows| - 1] == Expired(front, before);
    }
  }

  // ---------- conservation ----------

  /** The estimates of stale rows that never reached the bucket. */
  function LostEstimates(b: Bucket, before: int): nat {
    Sum(b.rows, StaleUnapplied(before))
  }

  /** What stays live when the stale rows go. */
  function LiveAfterReap(b: Bucket, before: int): nat {
    Sum(Expired(b.rows, before), AllLive)
  }

  /** A reservation that takes effect on a row that was reaped after it was inserted. */
  predicate TooLate(b: Bucket, a: Action) {
    && a.Reserve? && Reserves(b, a.i, a.reserveRequest, a.requestsFit)
    && b.rows[a.i].status != Pending && b.rows[a.i].estimated > 0
  }

  /** The action leaves the in-flight balance equal to the live reservations. */
  predicate Conserves(b: Bucket, a: Action) {
    && !TooLate(b, a)
    && (a.Reap? ==> LostEstimates(b, a.before) == 0 || LiveAfterReap(b, a.before) == 0)
  }

  /**
   From a balanced bucket, an action keeps the balance if and only if it is not a reservation
   on an already reaped row and not a reaping that subtracts estimates never added while
   other reservations are live.
   */
  lemma StepKeepsBalanceIff(b: Bucket, a: Action)
    requires Balanced(b)
    ensures Balanced(Next(b, a)) <==> Conserves(b, a)
  {
    match a
    case Add(request, estimated, createdAt) =>
      var row := Reservation(request, estimated, false, Pending, createdAt);
      assert (b.rows + [row])[..|b.rows|] == b.rows;
    case Reserve(i, _, _) =>
      if i < |b.rows| { SumUpdate(b.rows, AllLive, i, b.rows[i].(applied := true)); }
    case Finalize(i, _) =>
      if i < |b.rows| && Live(b.rows[i]) {
        SumUpdate(b.rows, AllLive, i, b.rows[i].(status := Finalized));
      }
    case Release(i) =>
      if i < |b.rows| && b.rows[i].status == Pending {
        SumUpdate(b.rows, AllLive, i, b.rows[i].(status := Released));
      }
    case Reap(before) =>
      ReapKeepsBalanceIff(b, before);
  }

  /**
   Reaping subtracts the estimate of every stale row, applied or not. It keeps the balance
   if and only if no estimate of a stale unapplied row is subtracted, or nothing stays live.
   */
  lemma ReapKeepsBalanceIff(b: Bucket, before: int)
    requires Balanced(b)
    ensures Balanced(Next(b, Reap(before))) <==> LostEstimates(b, before) == 0 || LiveAfterReap(b, before) == 0
  {
    ReapSplit(b.rows, before);
  }

  /** Two requests, one of them interrupted before it was applied: reaping it drains the other's reservation. */
  lemma ReapCanDrainOthers()
    ensures exists b, before :: Balanced(b) && !Balanced(Next(b, Reap(before)))
  {
    var live := Reservation("a", 5, true, Pending, 10);
    var lost := Reservation("b", 3, false, Pending, 0);
    var rows := [live, lost];
    var b := Bucket(10, 0, 5, rows);
    assert rows[..1] == [live] && [live][..0] == [];
    assert Sum([live], AllLive) == 5 && Sum(rows, AllLive) == 5;
    assert !Stale(live, 5) && Stale(lost, 5);
    assert Sum([live], StaleUnapplied(5)) == 0 && Sum(rows, StaleUnapplied(5)) == 3;
    var after := Expired(rows, 5);
    assert after[..1] == [live];
    assert Sum(after, AllLive) == 5;
    ReapKeepsBalanceIff(b, 5);
    assert Balanced(b) && !Balanced(Next(b, Reap(5)));
  }

  /** A row reaped between its insertion and its reservation: its estimate stays in flight for good. */
  lemma LateReservationLeaks()
    ensures exists b, a :: Balanced(b) && TooLate(b, a) && !Balanced(Next(b, a))
  {
    var rows := [Reservation("a", 5, false, Released, 0)];
    var b := Bucket(10, 0, 0, rows);
    var a := Reserve(0, true, true);
    assert rows[..0] == [] && Sum(rows, AllLive) == 0;
    assert TooLate(b, a);
    StepKeepsBalanceIff(b, a);
    assert Balanced(b) && TooLate(b, a) && !Balanced(Next(b, a));
  }

  /**
   Actions are serialised transactions. If the database lets two finalizations of one request
   both read the row before either writes, the estimate is subtracted twice: the balance
   survives if and only if there was nothing to subtract or nothing else in flight.
   */
  lemma OverlappingFinalizesBalanceIff(b: Bucket, i: nat, x: nat, y: nat)
    requires Balanced(b) && i < |b.rows| && Live(b.rows[i])
    ensures Balanced(FinalizeWrites(FinalizeWrites(b, i, x), i, y))
            <==> b.rows[i].estimated == 0 || Sum(b.rows, AllLive) == b.rows[i].estimated
  {
    var done := b.rows[i].(status := Finalized);
    SumUpdate(b.rows, AllLive, i, done);
    SumUpdate(b.rows[i := done], AllLive, i, done);
  }

  // ---------- budgets over runs ----------

  function Run(b: Bucket, actions: seq<Action>): Bucket {
    if actions == [] then b else Next(Run(b, actions[..|actions| - 1]), actions[|actions| - 1])
  }

  predicate WithinBudget(b: Bucket) {
    b.limit > 0 ==> b.used + b.pending <= b.limit
  }

  /** The in-flight balance is at least the sum of the live reservations. */
  predicate Covered(b: Bucket) {
    b.pending >= Sum(b.rows, AllLive)
  }

  /** A reaping that subtracts more unapplied estimates than the balance has to spare, while others are live. */
  predicate Drains(b: Bucket, a: Action) {
    && a.Reap?
    && LostEstimates(b, a.before) + Sum(b.rows, AllLive) > b.pending
    && LiveAfterReap(b, a.before) > 0
  }

  /** An action keeps the live reservations covered if and only if it is not a draining reaping. */
  lemma StepKeepsCoverIff(b: Bucket, a: Action)
    requires Covered(b)
    ensures Covered(Next(b, a)) <==> !Drains(b, a)
  {
    match a
    case Add(request, estimated, createdAt) =>
      var row := Reservation(request, estimated, false, Pending, createdAt);
      assert (b.rows + [row])[..|b.rows|] == b.rows;
    case Reserve(i, _, _) =>
      if i < |b.rows| { SumUpdate(b.rows, AllLive, i, b.rows[i].(applied := true)); }
    case Finalize(i, _) =>
      if i < |b.rows| && Live(b.rows[i]) {
        SumUpdate(b.rows, AllLive, i, b.rows[i].(status := Finalized));
      }
    case Release(i) =>
      if i < |b.rows| && b.rows[i].status == Pending {
        SumUpdate(b.rows, AllLive, i, b.rows[i].(status := Released));
      }
    case Reap(before) =>
      ReapSplit(b.rows, before);
  }

  /** What a finalization consumes beyond what was reserved for it. */
  function Excess(b: Bucket, a: Action): nat {
    if a.Finalize? && a.i < |b.rows| && Live(b.rows[a.i]) && a.actual > b.rows[a.i].estimated
    then a.actual - b.rows[a.i].estimated else 0
  }

  /** The excess of all finalizations of a run. */
  function Overrun(b: Bucket, actions: seq<Action>): nat {
    if actions == [] then 0
    else
      var front := actions[..|actions| - 1];
      Overrun(b, front) + Excess(Run(b, front), actions[|actions| - 1])
  }

  /**
   A finalization keeps a bucket within its budget if and only if the consumption is at most
   the estimate plus what the budget has left.
   */
  lemma FinalizeWithinBudgetIff(b: Bucket, i: nat, actual: nat)
    requires Covered(b) && WithinBudget(b) && b.limit > 0
    requires i < |b.rows| && Live(b.rows[i])
    ensures WithinBudget(Next(b, Finalize(i, actual)))
            <==> actual <= b.rows[i].estimated + (b.limit - b.used - b.pending)
  {
    SumUpdate(b.rows, AllLive, i, b.rows[i]);
  }

  lemma BudgetStep(b: Bucket, a: Action, overrun: nat)
    requires Covered(b) && b.limit > 0
    requires b.used + b.pending <= b.limit + overrun
    ensures Next(b, a).limit == b.limit
    ensures Next(b, a).used + Next(b, a).pending <= b.limit + overrun + Excess(b, a)
  {
    if a.Finalize? && a.i < |b.rows| && Live(b.rows[a.i]) {
      SumUpdate(b.rows, AllLive, a.i, b.rows[a.i]);
    }
  }

  /** No step of the run is a draining reaping. */
  ghost predicate NeverDrains(b: Bucket, actions: seq<Action>) {
    forall i | 0 <= i < |actions| :: !Drains(Run(b, actions[..i]), actions[i])
  }

  /**
   In every run without a draining reaping, in whatever order the transactions of the requests
   are serialised and whatever they consume, consumption plus in-flight exceeds the limit by no more than the finalizations
   consumed beyond their own estimates.
   */
  lemma {:induction false} OverdraftIsBounded(b: Bucket, actions: seq<Action>)
    requires Covered(b) && WithinBudget(b) && NeverDrains(b, actions)
    ensures Covered(Run(b, actions)) && Run(b, actions).limit == b.limit
    ensures b.limit > 0 ==> Run(b, actions).used + Run(b, actions).pending <= b.limit + Overrun(b, actions)
  {
    if actions != [] {
      var n := |actions| - 1;
      var front, last := actions[..n], actions[n];
      assert NeverDrains(b, front) by {
        forall i | 0 <= i < |front|
          ensures !Drains(Run(b, front[..i]), front[i])
        {
          assert front[..i] == actions[..i];
        }
      }
      OverdraftIsBounded(b, front);
      var now := Run(b, front);
      assert !Drains(now, last);
      StepKeepsCoverIff(now, last);
      if b.limit > 0 {
        BudgetStep(now, last, Overrun(b, front));
      }
    }
  }

  /** Hence a run whose finalizations stay within their estimates never leaves the budget. */
  lemma NeverOverBudget(b: Bucket, actions: seq<Action>)
    requires Covered(b) && WithinBudget(b) && NeverDrains(b, actions) && Overrun(b, actions) == 0
    ensures WithinBudget(Run(b, actions))
  {
    OverdraftIsBounded(b, actions);
  }

  lemma Then(b: Bucket, actions: seq<Action>, a: Action)
    ensures Run(b, actions + [a]) == Next(Run(b, actions), a)
    ensures Overrun(b, actions + [a]) == Overrun(b, actions) + Excess(Run(b, actions), a)
  {
    assert (actions + [a])[..|actions|] == actions;
  }

  /** A request interrupted before its reservation, another one in flight, and a reaping that drains it. */
  lemma DrainedRun() returns (acts: seq<Action>)
    ensures Run(Bucket(10, 0, 0, []), acts)
            == Bucket(10, 0, 2, [Reservation("b", 3, false, Released, 0), Reservation("a", 5, true, Pending, 10)])
    ensures Overrun(Bucket(10, 0, 0, []), acts) == 0
  {
    var b := Bucket(10, 0, 0, []);
    var lost, live := Reservation("b", 3, false, Pending, 0), Reservation("a", 5, false, Pending, 10);
    acts := [];
    Then(b, acts, Add("b", 3, 0));
    acts := acts + [Add("b", 3, 0)];
    assert Run(b, acts) == Bucket(10, 0, 0, [lost]);
    Then(b, acts, Add("a", 5, 10));
    acts := acts + [Add("a", 5, 10)];
    assert Run(b, acts) == Bucket(10, 0, 0, [lost, live]);
    Then(b, acts, Reserve(1, true, true));
    acts := acts + [Reserve(1, true, true)];
    var rows := [lost, live.(applied := true)];
    assert Run(b, acts) == Bucket(10, 0, 5, rows);
    DrainedState(rows, lost, live.(applied := true));
    Then(b, acts, Reap(5));
    acts := acts + [Reap(5)];
  }

  /** The bound cannot be had without the condition: a draining reaping lets requests that keep to their estimates overspend. */
  lemma DrainingOverspends() returns (acts: seq<Action>)
    ensures Overrun(Bucket(10, 0, 0, []), acts) == 0
    ensures Run(Bucket(10, 0, 0, []), acts).used == 13
  {
    var b := Bucket(10, 0, 0, []);
    var drained := DrainedRun();
    OverspendingSteps(Run(b, drained));
    acts := ThenFour(b, drained, Add("c", 8, 11), Reserve(2, true, true), Finalize(1, 5), Finalize(2, 8));
  }

  lemma ThenFour(b: Bucket, acts: seq<Action>, w: Action, x: Action, y: Action, z: Action) returns (more: seq<Action>)
    ensures var one := Next(Run(b, acts), w);
            var two := Next(one, x);
            var three := Next(two, y);
            && Run(b, more) == Next(three, z)
            && Overrun(b, more)
               == Overrun(b, acts) + Excess(Run(b, acts), w) + Excess(one, x) + Excess(two, y) + Excess(three, z)
  {
    Then(b, acts, w);
    Then(b, acts + [w], x);
    Then(b, acts + [w] + [x], y);
    Then(b, acts + [w] + [x] + [y], z);
    more := acts + [w] + [x] + [y] + [z];
  }

  lemma OverspendingSteps(b: Bucket)
    requires b == Bucket(10, 0, 2, [Reservation("b", 3, false, Released, 0), Reservation("a", 5, true, Pending, 10)])
    ensures var one := Next(b, Add("c", 8, 11));
            var two := Next(one, Reserve(2, true, true));
            var three := Next(two, Finalize(1, 5));
            && Excess(two, Finalize(1, 5)) == 0 && Excess(three, Finalize(2, 8)) == 0
            && Next(three, Finalize(2, 8)).used == 13
  {
    var one := Next(b, Add("c", 8, 11));
    assert one == b.(rows := b.rows + [Reservation("c", 8, false, Pending, 11)]);
    var two := Next(one, Reserve(2, true, true));
    assert two.pending == 10 && two.rows[1] == b.rows[1] && two.rows[2] == Reservation("c", 8, true, Pending, 11);
    var three := Next(two, Finalize(1, 5));
    assert three.used == 5 && three.rows[2] == two.rows[2];
  }

  lemma DrainedState(rows: seq<Reservation>, lost: Reservation, live: Reservation)
    requires rows == [lost, live] && Stale(lost, 5) && !Stale(live, 5) && lost.estimated == 3
    ensures Sum(rows, AllStale(5)) == 3
    ensures Expired(rows, 5) == [lost.(status := Released), live]
  {
    assert rows[..1] == [lost] && [lost][..0] == [];
    assert Sum([lost], AllStale(5)) == 3;
  }

  /** One request whose answer is longer than its estimate takes the bucket over its limit. */
  lemma OverconsumptionExceedsLimit()
    ensures exists b, actual :: Balanced(b) && WithinBudget(b) && !WithinBudget(Next(b, Finalize(0, actual)))
  {
    var rows := [Reservation("a", 5, true, Pending, 0)];
    var b := Bucket(5, 0, 5, rows);
    assert rows[..0] == [] && Sum(rows, AllLive) == 5;
    FinalizeWithinBudgetIff(b, 0, 6);
    assert Balanced(b) && WithinBudget(b) && !WithinBudget(Next(b, Finalize(0, 6)));
  }

  // ---------- the reaping loop ----------

  /** The loop over the stale rows: one clamped subtraction each, then one status update. */
  method ReapStale(b: Bucket, before: int) returns (out: Bucket, released: nat)
    ensures out == Next(b, Reap(before))
    ensures released == Sum(b.rows, AllStale(before))
  {
    var pending := b.pending;
    released := 0;
    for k := 0 to |b.rows|
      invariant released == Sum(b.rows[..k], AllStale(before))
      invariant pending == Less(b.pending, released)
    {
      assert b.rows[..k + 1][..k] == b.rows[..k];
      if Stale(b.rows[k], before) {
        pending := Less(pending, b.rows[k].estimated);
        released := released + b.rows[k].estimated;
      }
    }
    assert b.rows[..|b.rows|] == b.rows;
    out := b.(pending := pending, rows := Expired(b.rows, before));
  }
}
