/**
 The caller-facing retry ledger of the gateway: opening a record, settling it, purging it,
 and what a retry then gets, for every interleaving of requests.
 */
module Idempotency {
  import opened Text

  const DAY: int := 86_400_000_000 // microseconds, the life of a record

  const NUL: char := '\0'

  datatype Slot = Slot(tenant: string, principal: string, key: string)

  datatype Status = InProgress | Completed | Failed | Expired

  datatype Row = Row(id: string, fingerprint: string, request: string, status: Status, response: string, expires: int)

  type Ledger = map<Slot, Row>

  /** The four statements; any number of requests may interleave them. */
  datatype Action =
    | Insert(slot: Slot, id: string, fingerprint: string, request: string, now: int)
    | Settle(id: string, request: string, ok: bool, response: string)
    | Lookup(slot: Slot, fingerprint: string, now: int)
    | Purge(before: int)

  datatype Verdict = Execute(row: Row) | Replay(row: Row) | Conflict | Missing

  predicate IdTaken(t: Ledger, id: string) {
    exists s :: s in t && t[s].id == id
  }

  /** The insert does nothing when either unique key is taken. */
  predicate Creates(t: Ledger, a: Action) {
    a.Insert? && a.slot !in t && !IdTaken(t, a.id)
  }

  function Settled(r: Row, a: Action): Row {
    if a.Settle? && r.id == a.id && r.request == a.request && r.status == InProgress
    then r.(status := if a.ok then Completed else Failed, response := a.response)
    else r
  }

  function Next(t: Ledger, a: Action): Ledger {
    match a
    case Insert(slot, id, fingerprint, request, now) =>
      if Creates(t, a) then t[slot := Row(id, fingerprint, request, InProgress, "", now + DAY)] else t
    case Settle(_, _, _, _) => map s | s in t :: Settled(t[s], a)
    case Lookup(_, _, _) => t
    case Purge(before) => map s | s in t && t[s].expires >= before :: t[s]
  }

  function Run(t: Ledger, acts: seq<Action>): Ledger {
    if acts == [] then t else Next(Run(t, acts[..|acts| - 1]), acts[|acts| - 1])
  }

  /** What a request that could not insert is told after its lookup. */
  function Judge(t: Ledger, slot: Slot, fingerprint: string, now: int): Verdict {
    if slot !in t then Missing
    else if t[slot].fingerprint != fingerprint then Conflict
    else if now > t[slot].expires then Execute(t[slot].(status := Expired))
    else if t[slot].status == InProgress then Execute(t[slot])
    else if t[slot].status == Completed || t[slot].status == Failed then Replay(t[slot])
    else Execute(t[slot])
  }

  // ---------- what each statement does ----------

  /**
   What a lookup answers, from any ledger: another fingerprint conflicts, a settled record is replayed until it
   expires, and everything else that is there is executed.
   */
  lemma JudgeMeans(t: Ledger, slot: Slot, fingerprint: string, now: int)
    ensures var v := Judge(t, slot, fingerprint, now);
            && (v == Missing <==> slot !in t)
            && (v == Conflict <==> slot in t && t[slot].fingerprint != fingerprint)
            && (v.Replay? <==> slot in t && t[slot].fingerprint == fingerprint && now <= t[slot].expires
                               && (t[slot].status == Completed || t[slot].status == Failed))
            && (v.Replay? ==> v.row == t[slot])
            && (v.Execute? ==> v.row == if now > t[slot].expires then t[slot].(status := Expired) else t[slot])
  {
  }

  /**
   From any ledger, an insert on a free slot with a new id puts its record there, in progress for
   24 hours, and touches no other slot; on a taken slot, or with a taken id, it does nothing.
   */
  lemma InsertMeans(t: Ledger, slot: Slot, id: string, fingerprint: string, request: string, now: int)
    ensures var t' := Next(t, Insert(slot, id, fingerprint, request, now));
            if slot !in t && (forall s | s in t :: t[s].id != id)
            then t' == t[slot := Row(id, fingerprint, request, InProgress, "", now + 86_400_000_000)]
            else t' == t
  {
  }

  /** A settlement changes status and answer of the record in progress with its id and request, and of no other. */
  lemma SettleMeans(t: Ledger, id: string, request: string, ok: bool, response: string, slot: Slot)
    ensures var t' := Next(t, Settle(id, request, ok, response));
            && (slot in t' <==> slot in t)
            && (slot in t ==>
                  if t[slot].id == id && t[slot].request == request && t[slot].status == InProgress
                  then t'[slot] == t[slot].(status := if ok then Completed else Failed, response := response)
                  else t'[slot] == t[slot])
  {
  }

  /** A purge deletes exactly the records that expired before its time; a lookup changes nothing. */
  lemma PurgeMeans(t: Ledger, before: int, slot: Slot, look: Slot, fingerprint: string, now: int)
    ensures slot in Next(t, Purge(before)) <==> slot in t && !(t[slot].expires < before)
    ensures slot in Next(t, Purge(before)) ==> Next(t, Purge(before))[slot] == t[slot]
    ensures Next(t, Lookup(look, fingerprint, now)) == t
  {
  }

  // ---------- fingerprints ----------

  function Preimage(key: string, verb: string, target: string, body: string): string {
    key + [NUL] + (verb + [NUL] + (target + [NUL] + body))
  }

  /** With NUL-free key, verb and target the hashed text determines the request, whatever the body holds. */
  lemma PreimageDeterminesRequest(k1: string, v1: string, t1: string, b1: string,
                                  k2: string, v2: string, t2: string, b2: string)
    requires NUL !in k1 && NUL !in v1 && NUL !in t1
    requires NUL !in k2 && NUL !in v2 && NUL !in t2
    ensures Preimage(k1, v1, t1, b1) == Preimage(k2, v2, t2, b2) <==> k1 == k2 && v1 == v2 && t1 == t2 && b1 == b2
  {
    if Preimage(k1, v1, t1, b1) == Preimage(k2, v2, t2, b2) {
      var r1, r2 := t1 + [NUL] + b1, t2 + [NUL] + b2;
      SplitAtFirst(k1, v1 + [NUL] + r1, k2, v2 + [NUL] + r2, NUL);
      SplitAtFirst(v1, r1, v2, r2, NUL);
      SplitAtFirst(t1, b1, t2, b2, NUL);
    }
  }


  // ---------- what a retry gets ----------

  /** The settling statements addressed to this row. */
  predicate Addresses(a: Action, r: Row) {
    a.Settle? && a.id == r.id && a.request == r.request
  }

  /** No purge in the run reaches this expiry. */
  predicate Spared(acts: seq<Action>, expires: int) {
    forall i | 0 <= i < |acts| && acts[i].Purge? :: acts[i].before <= expires
  }

  /** The position of the first statement that settles the row, or the length of the run. */
  function FirstSettle(acts: seq<Action>, r: Row): (k: nat)
    ensures k <= |acts|
    ensures forall i | 0 <= i < k :: !Addresses(acts[i], r)
    ensures k < |acts| ==> Addresses(acts[k], r)
  {
    if acts == [] then 0
    else
      var k := FirstSettle(acts[..|acts| - 1], r);
      if k < |acts| - 1 then k
      else if Addresses(acts[|acts| - 1], r) then |acts| - 1
      else |acts|
  }

  /** A record opened in progress, after any run: what the first settlement of its own request made of it. */
  function Outcome(r: Row, acts: seq<Action>): Row {
    var k := FirstSettle(acts, r);
    if k == |acts| then r
    else r.(status := if acts[k].ok then Completed else Failed, response := acts[k].response)
  }

  lemma {:induction false} RowAfterRun(t: Ledger, acts: seq<Action>, slot: Slot)
    requires slot in t && t[slot].status == InProgress
    requires Spared(acts, t[slot].expires)
    ensures slot in Run(t, acts) && Run(t, acts)[slot] == Outcome(t[slot], acts)
  {
    if acts != [] {
      var front := acts[..|acts| - 1];
      assert Spared(front, t[slot].expires);
      RowAfterRun(t, front, slot);
    }
  }

  /**
   A retry with the same fingerprint is executed again if and only if the record has expired or
   the request that opened it has not settled it; otherwise it replays the first settlement,
   whatever other requests did meanwhile. Another fingerprint always conflicts.
   */
  lemma RetryOutcome(t: Ledger, acts: seq<Action>, slot: Slot, fingerprint: string, now: int)
    requires slot in t && t[slot].status == InProgress
    requires Spared(acts, t[slot].expires)
    ensures var v, r := Judge(Run(t, acts), slot, fingerprint, now), t[slot];
            && (v == Conflict <==> fingerprint != r.fingerprint)
            && (fingerprint == r.fingerprint ==>
                  && (v.Execute? <==> now > r.expires || forall i | 0 <= i < |acts| :: !Addresses(acts[i], r))
                  && (v.Replay? <==> now <= r.expires && exists i | 0 <= i < |acts| :: Addresses(acts[i], r))
                  && (v.Replay? ==> v.row == Outcome(r, acts)))
  {
    RowAfterRun(t, acts, slot);
    var k := FirstSettle(acts, t[slot]);
    if k < |acts| {
      assert Addresses(acts[k], t[slot]);
    }
  }

  /** A record that is settled stays as it is until a purge reaches it: all its replays are the same. */
  lemma {:induction false} SettledIsFinal(t: Ledger, acts: seq<Action>, slot: Slot)
    requires slot in t && t[slot].status != InProgress
    requires Spared(acts, t[slot].expires)
    ensures slot in Run(t, acts) && Run(t, acts)[slot] == t[slot]
  {
    if acts != [] {
      var front := acts[..|acts| - 1];
      assert Spared(front, t[slot].expires);
      SettledIsFinal(t, front, slot);
    }
  }

  // ---------- where a replayed answer comes from ----------

  predicate OpenedAt(acts: seq<Action>, i: nat, slot: Slot, r: Row) {
    i < |acts| && acts[i] == Insert(slot, r.id, r.fingerprint, r.request, r.expires - DAY)
  }

  predicate SettledAt(acts: seq<Action>, j: nat, r: Row) {
    j < |acts| && acts[j] == Settle(r.id, r.request, r.status == Completed, r.response)
  }

  /** The row was opened by its own request for this slot and settled, if at all, by that request afterwards. */
  ghost predicate Explained(acts: seq<Action>, slot: Slot, r: Row) {
    && r.status != Expired
    && exists i: nat ::
         && OpenedAt(acts, i, slot, r)
         && (r.status != InProgress ==> exists j: nat | i < j :: SettledAt(acts, j, r))
  }

  lemma ExplainedStays(acts: seq<Action>, a: Action, slot: Slot, r: Row)
    requires Explained(acts, slot, r)
    ensures Explained(acts + [a], slot, Settled(r, a))
  {
    var all, now := acts + [a], Settled(r, a);
    var i: nat :| OpenedAt(acts, i, slot, r) && (r.status != InProgress ==> exists j: nat | i < j :: SettledAt(acts, j, r));
    assert OpenedAt(all, i, slot, now);
    if now != r {
      assert SettledAt(all, |acts|, now);
    } else if r.status != InProgress {
      var j: nat :| i < j && SettledAt(acts, j, r);
      assert SettledAt(all, j, r);
    }
  }

  /** A row after a step is a new one, or an old one that was settled or left alone. */
  lemma RowAfterStep(t: Ledger, a: Action, slot: Slot)
    requires slot in Next(t, a)
    ensures if Creates(t, a) && a.slot == slot
            then Next(t, a)[slot] == Row(a.id, a.fingerprint, a.request, InProgress, "", a.now + DAY)
            else slot in t && Next(t, a)[slot] == Settled(t[slot], a)
  {
  }

  lemma NewRowIsExplained(front: seq<Action>, a: Action)
    requires a.Insert?
    ensures Explained(front + [a], a.slot, Row(a.id, a.fingerprint, a.request, InProgress, "", a.now + DAY))
  {
    assert OpenedAt(front + [a], |front|, a.slot, Row(a.id, a.fingerprint, a.request, InProgress, "", a.now + DAY));
  }

  /** Every row of every run from an empty ledger is explained by that run. */
  lemma {:induction false} EveryRowIsExplained(acts: seq<Action>, slot: Slot)
    requires slot in Run(map[], acts)
    ensures Explained(acts, slot, Run(map[], acts)[slot])
  {
    if acts != [] {
      var front, a := acts[..|acts| - 1], acts[|acts| - 1];
      var before := Run(map[], front);
      assert acts == front + [a];
      RowAfterStep(before, a, slot);
      if Creates(before, a) && a.slot == slot {
        NewRowIsExplained(front, a);
      } else {
        EveryRowIsExplained(front, slot);
        ExplainedStays(front, a, slot, before[slot]);
      }
    }
  }

  /**
   In every run from an empty ledger, a replayed answer was written by an earlier request
   that opened the same slot with the same fingerprint; a replayed record is never in
   progress or expired, so the two replies the handler keeps for those are never given.
   */
  lemma ReplayComesFromItsCreator(acts: seq<Action>, slot: Slot, fingerprint: string, now: int)
    requires Judge(Run(map[], acts), slot, fingerprint, now).Replay?
    ensures var r := Judge(Run(map[], acts), slot, fingerprint, now).row;
            && (r.status == Completed || r.status == Failed)
            && r.fingerprint == fingerprint
            && exists i: nat, j: nat | i < j :: OpenedAt(acts, i, slot, r) && SettledAt(acts, j, r)
  {
    EveryRowIsExplained(acts, slot);
  }

  // ---------- what the ledger does not give ----------

  /**
   Two overlapping requests with one key are both executed. The second one's answer is dropped if
   and only if its request id, which a client may choose, differs from the first one's.
   */
  lemma OverlappingRequestsBothExecute(slot: Slot, fingerprint: string, now: int, first: string, second: string, answer: string)
    ensures var held := Run(map[], [Insert(slot, "1", fingerprint, first, now)]);
            && Creates(map[], Insert(slot, "1", fingerprint, first, now))
            && !Creates(held, Insert(slot, "2", fingerprint, second, now))
            && Judge(held, slot, fingerprint, now).Execute?
            && (Next(held, Settle("1", second, true, answer)) == held <==> second != first)
  {
    var a := Insert(slot, "1", fingerprint, first, now);
    assert [a][..0] == [];
    var held := Run(map[], [a]);
    assert Run(map[], []) == map[];
    assert slot in held && held[slot] == Row("1", fingerprint, first, InProgress, "", now + DAY);
    var settled := Next(held, Settle("1", second, true, answer));
    assert settled[slot] == Settled(held[slot], Settle("1", second, true, answer));
  }
}
