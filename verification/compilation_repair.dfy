/**
 Migration 147: at most one active compilation run per tenant, dataset and kind. The oldest
 active run stays; later ones are cancelled.
 */
module CompilationRepair {
  import opened Text
  import opened Tables

  /** Ids are modelled by their rank in the order the database compares them with. */
  type Id = nat

  /** The detail column: a JSON object with its members, or a text that is none. */
  datatype Detail = Object(members: map<string, string>) | Text(raw: string)

  datatype Run = Run(tenant: string, dataset: string, kind: string, createdAt: int, state: string,
                     cancelScope: string, failureCode: string, updatedAt: int, detail: Detail)
  type Runs = map<Id, Run>

  predicate Active(r: Run) {
    r.state == "accepted" || r.state == "dispatched" || r.state == "unknown"
  }

  function Columns(r: Run): (cs: seq<string>)
    ensures |cs| == 3
  {
    [r.tenant, r.dataset, r.kind]
  }

  /** The grouping key the loop compares: the three columns joined by a NUL character. */
  function Key(r: Run): string {
    Join(Columns(r), '\0')
  }

  predicate NulFree(r: Run) {
    FreeOf(Columns(r), '\0')
  }

  lemma KeyDecidesGroup(a: Run, b: Run)
    requires NulFree(a)
    ensures Key(a) == Key(b) <==> Columns(a) == Columns(b)
  {
    if Key(a) == Key(b) {
      JoinInjective(Columns(a), Columns(b), '\0');
    }
  }

  lemma KeyIsNotEmpty(r: Run)
    ensures Key(r) != ""
  {
    assert Columns(r)[1..] == [r.dataset, r.kind];
  }

  predicate Older(runs: Runs, a: Id, b: Id)
    requires a in runs && b in runs
  {
    runs[a].createdAt < runs[b].createdAt || (runs[a].createdAt == runs[b].createdAt && a < b)
  }

  /** The query result: the active runs, each once, grouped by the three columns, oldest first within a group. */
  ghost predicate ActivesInOrder(runs: Runs, ids: seq<Id>) {
    && (forall i | 0 <= i < |ids| :: ids[i] in runs && Active(runs[ids[i]]))
    && (forall id | id in runs && Active(runs[id]) :: id in ids)
    && (forall i, j | 0 <= i < j < |ids| && Columns(runs[ids[i]]) == Columns(runs[ids[j]]) :: Older(runs, ids[i], ids[j]))
    && (forall i, k, j | 0 <= i < k < j < |ids| && Columns(runs[ids[i]]) == Columns(runs[ids[j]]) ::
          Columns(runs[ids[k]]) == Columns(runs[ids[i]]))
  }

  /** Adds the marker to the detail; a detail that is not an object is replaced. */
  function Marker(d: Detail, stamp: string): (out: Detail)
    ensures out.Object?
    ensures d.Object? ==> forall k | k in d.members && k != "reason" && k != "cancelled_at" :: k in out.members && out.members[k] == d.members[k]
  {
    Object((if d.Object? then d.members else map[])["reason" := "superseded_active_invariant_backfill"]["cancelled_at" := stamp])
  }

  /** The clock of the repair: each update reads a time and its text form. */
  datatype Clock = Clock(now: int, stamp: string)

  function Cancelled(r: Run, clock: Clock): Run {
    r.(state := "cancelled", cancelScope := "invariant_backfill", failureCode := "superseded_active_invariant",
       updatedAt := clock.now, detail := Marker(r.detail, clock.stamp))
  }

  /** The rows the loop marks: those whose key equals the key of the row before. */
  predicate Marked(runs: Runs, ids: seq<Id>, key: Run -> string, i: nat)
    requires i < |ids| && Stored(runs, ids)
  {
    i > 0 && key(runs[ids[i - 1]]) == key(runs[ids[i]])
  }

  /** The first loop: collects the superseded runs by comparing each key with the last one. */
  method CollectSuperseded(runs: Runs, ids: seq<Id>, key: Run -> string) returns (superseded: map<Id, Detail>)
    requires Stored(runs, ids) && Distinct(ids)
    requires forall r :: key(r) != ""
    ensures forall i | 0 <= i < |ids| :: ids[i] in superseded <==> Marked(runs, ids, key, i)
    ensures forall id | id in superseded :: id in ids && id in runs && superseded[id] == runs[id].detail
  {
    superseded := map[];
    var lastKey := "";
    for k := 0 to |ids|
      invariant lastKey == if k == 0 then "" else key(runs[ids[k - 1]])
      invariant forall i | 0 <= i < k :: ids[i] in superseded <==> Marked(runs, ids, key, i)
      invariant forall id | id in superseded :: id in ids[..k] && id in runs && superseded[id] == runs[id].detail
    {
      var run := runs[ids[k]];
      if key(run) == lastKey {
        superseded := superseded[ids[k] := run.detail];
        continue;
      }
      lastKey := key(run);
    }
  }

  ghost predicate Repaired(runs: Runs, ids: seq<Id>, key: Run -> string, clock: Id -> Clock, out: Runs)
    requires Stored(runs, ids)
  {
    && out.Keys == runs.Keys
    && (forall id | id in runs && id !in ids :: out[id] == runs[id])
    && (forall i | 0 <= i < |ids| ::
          out[ids[i]] == if Marked(runs, ids, key, i) then Cancelled(runs[ids[i]], clock(ids[i])) else runs[ids[i]])
  }

  /** Both loops: the marked rows are cancelled, in whatever order the map is walked; nothing else changes. */
  method EnforceOneActive(runs: Runs, ids: seq<Id>, key: Run -> string, clock: Id -> Clock) returns (out: Runs)
    requires ActivesInOrder(runs, ids) && Distinct(ids)
    requires forall r :: key(r) != ""
    ensures Repaired(runs, ids, key, clock, out)
  {
    var superseded := CollectSuperseded(runs, ids, key);
    forall id | id in superseded
      ensures Active(runs[id])
    {
      var i :| 0 <= i < |ids| && ids[i] == id;
    }
    out := CancelAll(runs, superseded, clock);
  }

  /** The second loop: cancels each collected run that is still active. */
  method CancelAll(runs: Runs, superseded: map<Id, Detail>, clock: Id -> Clock) returns (out: Runs)
    requires forall id | id in superseded :: id in runs && Active(runs[id]) && superseded[id] == runs[id].detail
    ensures out.Keys == runs.Keys
    ensures forall id | id in runs :: out[id] == if id in superseded then Cancelled(runs[id], clock(id)) else runs[id]
  {
    out := runs;
    var rest := superseded.Keys;
    while rest != {}
      invariant rest <= superseded.Keys
      invariant out.Keys == runs.Keys
      invariant forall id | id in runs :: out[id] == if id in superseded && id !in rest then Cancelled(runs[id], clock(id)) else runs[id]
    {
      var id :| id in rest;
      if id in out && Active(out[id]) {
        out := out[id := Cancelled(out[id].(detail := superseded[id]), clock(id))];
      }
      rest := rest - {id};
    }
  }

  /** The migration itself, with the key built from the three columns. */
  method CompilationRunActiveInvariant(runs: Runs, ids: seq<Id>, clock: Id -> Clock) returns (out: Runs)
    requires ActivesInOrder(runs, ids) && Distinct(ids)
    ensures Repaired(runs, ids, Key, clock, out)
  {
    forall r ensures Key(r) != "" { KeyIsNotEmpty(r); }
    out := EnforceOneActive(runs, ids, Key, clock);
  }

  /** The oldest active run of its group. */
  ghost predicate Oldest(runs: Runs, id: Id) {
    && id in runs && Active(runs[id])
    && forall o | o in runs && Active(runs[o]) && Columns(runs[o]) == Columns(runs[id]) && o != id :: Older(runs, id, o)
  }

  /** Rows with equal columns have equal keys. */
  ghost predicate KeyOfColumns(key: Run -> string) {
    forall a, b | Columns(a) == Columns(b) :: key(a) == key(b)
  }

  /** No two neighbours of the query share a key without sharing the columns. */
  predicate NeighboursTold(runs: Runs, ids: seq<Id>, key: Run -> string)
    requires Stored(runs, ids)
  {
    forall i | 0 < i < |ids| && key(runs[ids[i - 1]]) == key(runs[ids[i]]) :: Columns(runs[ids[i - 1]]) == Columns(runs[ids[i]])
  }

  /** They never do when no column contains NUL. */
  lemma NulFreeNeighboursAreTold(runs: Runs, ids: seq<Id>)
    requires Stored(runs, ids) && forall r | r in runs :: NulFree(runs[r])
    ensures NeighboursTold(runs, ids, Key)
  {
    forall i | 0 < i < |ids| && Key(runs[ids[i - 1]]) == Key(runs[ids[i]])
      ensures Columns(runs[ids[i - 1]]) == Columns(runs[ids[i]])
    {
      KeyDecidesGroup(runs[ids[i - 1]], runs[ids[i]]);
    }
  }

  /** The first row of its group in the query. */
  predicate Leads(runs: Runs, ids: seq<Id>, i: nat)
    requires i < |ids| && Stored(runs, ids)
  {
    i == 0 || Columns(runs[ids[i - 1]]) != Columns(runs[ids[i]])
  }

  /** The oldest run of a group is the one that leads it. */
  lemma LeaderIsOldest(runs: Runs, ids: seq<Id>, i: nat)
    requires ActivesInOrder(runs, ids) && i < |ids|
    ensures Leads(runs, ids, i) <==> Oldest(runs, ids[i])
  {
    if Leads(runs, ids, i) {
      forall o | o in runs && Active(runs[o]) && Columns(runs[o]) == Columns(runs[ids[i]]) && o != ids[i]
        ensures Older(runs, ids[i], o)
      {
        var j :| 0 <= j < |ids| && ids[j] == o;
      }
    } else {
      assert Older(runs, ids[i - 1], ids[i]);
    }
  }

  /** The repair keeps exactly the runs that have another key than the row before. */
  lemma StaysIff(runs: Runs, ids: seq<Id>, key: Run -> string, clock: Id -> Clock, out: Runs, i: nat)
    requires ActivesInOrder(runs, ids) && Repaired(runs, ids, key, clock, out) && i < |ids|
    ensures Active(out[ids[i]]) <==> !Marked(runs, ids, key, i)
  {
  }

  /**
   For every table and every key built from the columns: the active runs after the repair are exactly
   the oldest of each group if and only if no two neighbours of the query share a key across groups.
   */
  lemma ExactlyTheOldestStayIff(runs: Runs, ids: seq<Id>, key: Run -> string, clock: Id -> Clock, out: Runs)
    requires ActivesInOrder(runs, ids) && Repaired(runs, ids, key, clock, out) && KeyOfColumns(key)
    ensures (forall id | id in runs :: Active(out[id]) <==> Oldest(runs, id)) <==> NeighboursTold(runs, ids, key)
  {
    if NeighboursTold(runs, ids, key) {
      forall id | id in runs
        ensures Active(out[id]) <==> Oldest(runs, id)
      {
        if id in ids {
          var i :| 0 <= i < |ids| && ids[i] == id;
          StaysIff(runs, ids, key, clock, out, i);
          LeaderIsOldest(runs, ids, i);
        }
      }
    }
    if forall id | id in runs :: Active(out[id]) <==> Oldest(runs, id) {
      forall i | 0 < i < |ids| && key(runs[ids[i - 1]]) == key(runs[ids[i]])
        ensures Columns(runs[ids[i - 1]]) == Columns(runs[ids[i]])
      {
        StaysIff(runs, ids, key, clock, out, i);
        LeaderIsOldest(runs, ids, i);
        assert Active(out[ids[i]]) <==> Oldest(runs, ids[i]);
      }
    }
  }

  /** Every row is unchanged or moved from active to cancelled. */
  lemma OthersAreUntouched(runs: Runs, ids: seq<Id>, key: Run -> string, clock: Id -> Clock, out: Runs, id: Id)
    requires ActivesInOrder(runs, ids) && Repaired(runs, ids, key, clock, out) && id in runs
    ensures out[id] == runs[id] || (Active(runs[id]) && out[id] == Cancelled(runs[id], clock(id)))
  {
    if id in ids {
      var i :| 0 <= i < |ids| && ids[i] == id;
    }
  }

  /** Every group that had an active run keeps one if and only if no neighbours share a key across groups. */
  lemma EveryGroupKeepsOneIff(runs: Runs, ids: seq<Id>, key: Run -> string, clock: Id -> Clock, out: Runs)
    requires ActivesInOrder(runs, ids) && Repaired(runs, ids, key, clock, out) && KeyOfColumns(key)
    ensures (forall i | 0 <= i < |ids| :: Represented(runs, out, ids[i])) <==> NeighboursTold(runs, ids, key)
  {
    if NeighboursTold(runs, ids, key) {
      forall i | 0 <= i < |ids|
        ensures Represented(runs, out, ids[i])
      {
        GroupKeepsOne(runs, ids, key, clock, out, i);
      }
    }
    if forall i | 0 <= i < |ids| :: Represented(runs, out, ids[i]) {
      forall i | 0 < i < |ids| && key(runs[ids[i - 1]]) == key(runs[ids[i]])
        ensures Columns(runs[ids[i - 1]]) == Columns(runs[ids[i]])
      {
        assert Represented(runs, out, ids[i]);
        if Leads(runs, ids, i) {
          MarkedLeaderLosesGroup(runs, ids, key, clock, out, i);
        }
      }
    }
  }

  /** Some run of the group of this one is active after the repair. */
  ghost predicate Represented(runs: Runs, out: Runs, id: Id)
    requires id in runs
  {
    exists o :: o in out && Active(out[o]) && Columns(out[o]) == Columns(runs[id])
  }

  lemma {:induction false} GroupKeepsOne(runs: Runs, ids: seq<Id>, key: Run -> string, clock: Id -> Clock, out: Runs, i: nat)
    requires ActivesInOrder(runs, ids) && Repaired(runs, ids, key, clock, out) && NeighboursTold(runs, ids, key)
    requires i < |ids|
    ensures Represented(runs, out, ids[i])
  {
    if Marked(runs, ids, key, i) {
      GroupKeepsOne(runs, ids, key, clock, out, i - 1);
    } else {
      assert out[ids[i]] == runs[ids[i]];
      assert ids[i] in out && Active(out[ids[i]]);
    }
  }

  /** An active run of the repaired table was active before and has its place in the query. */
  lemma PlaceOfActive(runs: Runs, ids: seq<Id>, key: Run -> string, clock: Id -> Clock, out: Runs, o: Id) returns (j: nat)
    requires ActivesInOrder(runs, ids) && Repaired(runs, ids, key, clock, out)
    requires o in out && Active(out[o])
    ensures j < |ids| && ids[j] == o && out[o] == runs[o] && !Marked(runs, ids, key, j)
  {
    OthersAreUntouched(runs, ids, key, clock, out, o);
    assert o in ids;
    j :| 0 <= j < |ids| && ids[j] == o;
    StaysIff(runs, ids, key, clock, out, j);
  }

  /** If the row that leads a group is marked, the whole group is cancelled. */
  lemma MarkedLeaderLosesGroup(runs: Runs, ids: seq<Id>, key: Run -> string, clock: Id -> Clock, out: Runs, i: nat)
    requires ActivesInOrder(runs, ids) && Repaired(runs, ids, key, clock, out) && KeyOfColumns(key)
    requires i < |ids| && Leads(runs, ids, i) && Marked(runs, ids, key, i)
    ensures !Represented(runs, out, ids[i])
  {
    if o :| o in out && Active(out[o]) && Columns(out[o]) == Columns(runs[ids[i]]) {
      var j := PlaceOfActive(runs, ids, key, clock, out, o);
      if j > i {
        SameGroupBetween(runs, ids, i, j);
      } else if j < i {
        SameGroupBetween(runs, ids, j, i);
      }
    }
  }

  lemma SameGroupBetween(runs: Runs, ids: seq<Id>, i: nat, j: nat)
    requires ActivesInOrder(runs, ids) && i < j < |ids| && Columns(runs[ids[i]]) == Columns(runs[ids[j]])
    ensures Columns(runs[ids[j - 1]]) == Columns(runs[ids[j]])
  {
  }

  /** No group keeps two, whatever its columns contain: the partial unique index can be created. */
  lemma GroupKeepsAtMostOne(runs: Runs, ids: seq<Id>, key: Run -> string, clock: Id -> Clock, out: Runs, a: Id, b: Id)
    requires ActivesInOrder(runs, ids) && Repaired(runs, ids, key, clock, out) && KeyOfColumns(key)
    requires a in out && b in out && Active(out[a]) && Active(out[b]) && Columns(out[a]) == Columns(out[b])
    ensures a == b
  {
    var i := PlaceOfActive(runs, ids, key, clock, out, a);
    var j := PlaceOfActive(runs, ids, key, clock, out, b);
    if i < j {
      SameGroupBetween(runs, ids, i, j);
    } else if j < i {
      SameGroupBetween(runs, ids, j, i);
    }
  }

  /** Two groups of one active run each whose columns contain NUL: the second loses its only run. */
  lemma NulCanCancelAGroup(a: Run, b: Run, clock: Id -> Clock, out: Runs)
    requires Active(a) && Active(b)
    requires Columns(a) == ["t", "d", "\0k"] && Columns(b) == ["t", "d\0", "k"]
    requires Repaired(map[0 := a, 1 := b], [0, 1], Key, clock, out)
    ensures ActivesInOrder(map[0 := a, 1 := b], [0, 1]) && !Active(out[1])
  {
    assert Columns(a)[1..] == ["d", "\0k"] && Columns(b)[1..] == ["d\0", "k"];
    JoinTwo("d", "\0k", '\0');
    JoinTwo("d\0", "k", '\0');
    assert "d" + ['\0'] + "\0k" == "d\0" + ['\0'] + "k";
    assert Marked(map[0 := a, 1 := b], [0, 1], Key, 1);
    assert [0, 1][1] == 1;
    assert Columns(a)[1] != Columns(b)[1];
  }

  // ---------- the repair said of the columns alone ----------

  /** The three states in which a run counts as active. */
  predicate InFlight(state: string) {
    state in {"accepted", "dispatched", "unknown"}
  }

  /** The run is in flight, and every other one in flight with its tenant, dataset and kind is younger. */
  ghost predicate FirstInFlight(runs: Runs, id: Id) {
    && id in runs && InFlight(runs[id].state)
    && forall o | o in runs && o != id && InFlight(runs[o].state)
                  && runs[o].tenant == runs[id].tenant && runs[o].dataset == runs[id].dataset && runs[o].kind == runs[id].kind ::
         runs[id].createdAt < runs[o].createdAt || (runs[id].createdAt == runs[o].createdAt && id < o)
  }

  lemma SameColumns(a: Run, b: Run)
    ensures Columns(a) == Columns(b) <==> a.tenant == b.tenant && a.dataset == b.dataset && a.kind == b.kind
  {
    if Columns(a) == Columns(b) {
      assert Columns(a)[0] == Columns(b)[0] && Columns(a)[1] == Columns(b)[1] && Columns(a)[2] == Columns(b)[2];
    }
  }

  lemma OldestMeans(runs: Runs, id: Id)
    ensures Oldest(runs, id) <==> FirstInFlight(runs, id)
  {
    if id in runs {
      forall o | o in runs
        ensures Columns(runs[o]) == Columns(runs[id]) <==>
                runs[o].tenant == runs[id].tenant && runs[o].dataset == runs[id].dataset && runs[o].kind == runs[id].kind
      {
        SameColumns(runs[o], runs[id]);
      }
    }
  }

  /** A cancelled run keeps its columns but the five that record the cancellation, and its detail names reason and time. */
  ghost predicate CancelRecorded(r: Run, clock: Clock, out: Run) {
    && out.detail.Object?
    && out == r.(state := "cancelled", cancelScope := "invariant_backfill",
                 failureCode := "superseded_active_invariant", updatedAt := clock.now, detail := out.detail)
    && "reason" in out.detail.members && out.detail.members["reason"] == "superseded_active_invariant_backfill"
    && "cancelled_at" in out.detail.members && out.detail.members["cancelled_at"] == clock.stamp
    && (r.detail.Object? ==> out.detail.members.Keys == r.detail.members.Keys + {"reason", "cancelled_at"})
    && (r.detail.Object? ==> forall k | k in r.detail.members && k != "reason" && k != "cancelled_at" :: out.detail.members[k] == r.detail.members[k])
    && (!r.detail.Object? ==> out.detail.members.Keys == {"reason", "cancelled_at"})
  }

  lemma CancelledMeans(r: Run, clock: Clock)
    ensures CancelRecorded(r, clock, Cancelled(r, clock))
  {
    assert "reason" != "cancelled_at" by {
      assert |"reason"| == 6 && |"cancelled_at"| == 12;
    }
  }

  lemma InFlightMeans(r: Run)
    ensures Active(r) <==> InFlight(r.state)
    ensures !InFlight("cancelled")
  {
    assert "cancelled" != "accepted" && "cancelled" != "dispatched" && "cancelled" != "unknown" by {
      assert |"cancelled"| == 9 && |"accepted"| == 8 && |"dispatched"| == 10 && |"unknown"| == 7;
    }
  }

  /** The migration of one run, for any key that tells neighbours apart. */
  lemma RepairedRun(runs: Runs, ids: seq<Id>, key: Run -> string, clock: Id -> Clock, out: Runs, id: Id)
    requires ActivesInOrder(runs, ids) && Repaired(runs, ids, key, clock, out) && KeyOfColumns(key) && NeighboursTold(runs, ids, key)
    requires id in runs
    ensures Active(out[id]) <==> Oldest(runs, id)
    ensures out[id] == if Active(runs[id]) && !Oldest(runs, id) then Cancelled(runs[id], clock(id)) else runs[id]
  {
    ExactlyTheOldestStayIff(runs, ids, key, clock, out);
    OthersAreUntouched(runs, ids, key, clock, out, id);
    InFlightMeans(Cancelled(runs[id], clock(id)));
    assert Active(out[id]) <==> Oldest(runs, id);
  }

  /**
   With NUL-free columns, a run is in flight after the migration if and only if it is the first of its
   tenant, dataset and kind; every other run in flight is cancelled with the reason and the time in its
   detail, and no other row changes.
   */
  lemma MigratedRun(runs: Runs, ids: seq<Id>, clock: Id -> Clock, out: Runs, id: Id)
    requires ActivesInOrder(runs, ids) && Repaired(runs, ids, Key, clock, out) && id in runs
    requires forall r | r in runs :: NulFree(runs[r])
    ensures InFlight(out[id].state) <==> FirstInFlight(runs, id)
    ensures if InFlight(runs[id].state) && !FirstInFlight(runs, id) then CancelRecorded(runs[id], clock(id), out[id])
            else out[id] == runs[id]
  {
    KeyIsOfColumns();
    NulFreeNeighboursAreTold(runs, ids);
    RepairedRun(runs, ids, Key, clock, out, id);
    OldestMeans(runs, id);
    InFlightMeans(runs[id]);
    InFlightMeans(out[id]);
    CancelledMeans(runs[id], clock(id));
  }

  lemma KeyIsOfColumns()
    ensures KeyOfColumns(Key)
  {
  }
}
