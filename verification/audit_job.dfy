/**
 A re-anchoring job in progress on a table that others change: how far it will come, and what
 an inserted row or a purge does to what it will leave.
 */
module AuditJob {
  import opened Tables
  import opened AuditLog
  import opened AuditMigrations
  import opened AuditReanchor

  // ---------- valid tables ----------

  /** The listing under which the tenant's rows are a valid chain. */
  ghost predicate Chained(sha: Digest, tbl: Table, t: string, p: seq<string>) {
    EnumeratesTenant(tbl, p, t) && Accepted(sha, Fetch(tbl, p))
  }

  ghost predicate AcceptedIn(sha: Digest, tbl: Table, t: string) {
    exists p :: Chained(sha, tbl, t, p)
  }

  /** Every row belongs to the tenant. */
  predicate Only(tbl: Table, t: string) {
    forall id | id in tbl :: tbl[id].tenant == t
  }

  /** The row at place i of a valid chain is the one with number i + 1. */
  lemma PlaceInChain(sha: Digest, tbl: Table, t: string, p: seq<string>, id: string)
    requires Chained(sha, tbl, t, p) && id in tbl && tbl[id].tenant == t
    ensures 1 <= tbl[id].seqNo <= |p| && p[tbl[id].seqNo - 1] == id
  {
    assert id in p;
    PlaceInNumbering(tbl, p, id);
  }

  lemma NumberInChain(sha: Digest, tbl: Table, t: string, p: seq<string>, i: nat)
    requires Chained(sha, tbl, t, p) && i < |p|
    ensures p[i] in tbl && tbl[p[i]].tenant == t && tbl[p[i]].seqNo == i + 1
  {
    assert Fetch(tbl, p)[i].seqNo == i + 1;
  }

  /** A table has at most one such listing. */
  lemma ChainIsUnique(sha: Digest, tbl: Table, t: string, p: seq<string>, q: seq<string>)
    requires Chained(sha, tbl, t, p) && Chained(sha, tbl, t, q)
    ensures p == q
  {
    SameLength(tbl, p, q, t);
    forall i | 0 <= i < |p|
      ensures p[i] == q[i]
    {
      NumberInChain(sha, tbl, t, p, i);
      PlaceInChain(sha, tbl, t, q, p[i]);
    }
  }

  /** A listing of the valid chain in sequence order is that listing. */
  lemma ListingOfChain(sha: Digest, tbl: Table, t: string, p: seq<string>, r: seq<string>)
    requires Chained(sha, tbl, t, p) && EnumeratesTenant(tbl, r, t) && AscendingSeq(tbl, r)
    ensures r == p
  {
    AscendingIsNumbering(tbl, p, r, t);
  }

  /** The row continues the chain. */
  predicate Continues(sha: Digest, rows: seq<Row>, r: Row) {
    r.seqNo == |rows| + 1 && r.prevHash == LastHash(rows) && r.hash == AuditHash(sha, LastHash(rows), r)
  }

  lemma ExtendedIff(sha: Digest, rows: seq<Row>, r: Row)
    requires Accepted(sha, rows)
    ensures Accepted(sha, rows + [r]) <==> Continues(sha, rows, r)
  {
    var longer := rows + [r];
    PrefixStep(sha, longer, |rows|);
    assert longer[..|rows|] == rows && longer[..|rows| + 1] == longer;
    assert PrevOf(longer, |rows|) == LastHash(rows);
  }

  lemma ListingWithRow(tbl: Table, t: string, p: seq<string>, id: string, r: Row)
    requires EnumeratesTenant(tbl, p, t) && id !in tbl && r.tenant == t
    ensures EnumeratesTenant(tbl[id := r], p + [id], t)
    ensures Fetch(tbl[id := r], p + [id]) == Fetch(tbl, p) + [r]
  {
    forall o | o in tbl[id := r] && tbl[id := r][o].tenant == t
      ensures o in p + [id]
    {
      if o != id { assert o in p; }
    }
  }

  /** A new row in a valid table: valid again if and only if the row continues the chain. */
  lemma AddRowIff(sha: Digest, tbl: Table, t: string, p: seq<string>, id: string, r: Row)
    requires Chained(sha, tbl, t, p) && id !in tbl && r.tenant == t
    ensures AcceptedIn(sha, tbl[id := r], t) <==> Continues(sha, Fetch(tbl, p), r)
    ensures Continues(sha, Fetch(tbl, p), r) ==> Chained(sha, tbl[id := r], t, p + [id])
  {
    var more := tbl[id := r];
    ListingWithRow(tbl, t, p, id, r);
    ExtendedIff(sha, Fetch(tbl, p), r);
    assert Continues(sha, Fetch(tbl, p), r) <==> Chained(sha, more, t, p + [id]);
    if q :| Chained(sha, more, t, q) {
      AddedRowIsLast(sha, tbl, t, p, id, r, q);
    }
  }

  lemma AddedRowIsLast(sha: Digest, tbl: Table, t: string, p: seq<string>, id: string, r: Row, q: seq<string>)
    requires Chained(sha, tbl, t, p) && id !in tbl && r.tenant == t && Chained(sha, tbl[id := r], t, q)
    ensures q == p + [id]
  {
    var more, longer := tbl[id := r], p + [id];
    ListingWithRow(tbl, t, p, id, r);
    SameLength(more, longer, q, t);
    PlaceInChain(sha, more, t, q, id);
    forall i | 0 <= i < |p|
      ensures q[i] == p[i]
    {
      NumberInChain(sha, tbl, t, p, i);
      PlaceInChain(sha, more, t, q, p[i]);
    }
  }

  // ---------- purges of valid tables ----------

  function Purged(tbl: Table, before: int): Table {
    map id | id in tbl && tbl[id].at >= before :: tbl[id]
  }

  /** No deleted row is followed by a surviving one. */
  predicate PurgesTail(rows: seq<Row>, before: int) {
    forall i, j | 0 <= i < j < |rows| && rows[i].at < before :: rows[j].at < before
  }

  /** A purge leaves a valid table valid if and only if it deletes no row before a surviving one. */
  lemma PurgeIff(sha: Digest, tbl: Table, t: string, p: seq<string>, before: int)
    requires Chained(sha, tbl, t, p)
    ensures AcceptedIn(sha, Purged(tbl, before), t) <==> PurgesTail(Fetch(tbl, p), before)
  {
    if PurgesTail(Fetch(tbl, p), before) {
      var k := TailPurge(sha, tbl, t, p, before);
      assert Chained(sha, Purged(tbl, before), t, p[..k]);
    }
    if q :| Chained(sha, Purged(tbl, before), t, q) {
      SurvivorsAreFirst(sha, tbl, t, p, before, q);
    }
  }

  /** What a purge of the end leaves. */
  lemma TailPurge(sha: Digest, tbl: Table, t: string, p: seq<string>, before: int) returns (k: nat)
    requires Chained(sha, tbl, t, p) && PurgesTail(Fetch(tbl, p), before)
    ensures k <= |p| && Chained(sha, Purged(tbl, before), t, p[..k])
    ensures Fetch(Purged(tbl, before), p[..k]) == Fetch(tbl, p)[..k]
  {
    var rows := Fetch(tbl, p);
    k := 0;
    while k < |p| && rows[k].at >= before
      invariant k <= |p|
      invariant forall i | 0 <= i < k :: rows[i].at >= before
    {
      k := k + 1;
    }
    assert k < |p| ==> rows[k].at < before;
    assert forall i | 0 <= i < |p| :: rows[i] == tbl[p[i]] && (rows[i].at >= before <==> i < k);
    PrefixListing(tbl, t, p, before, k);
    PrefixAccepted(sha, rows, k);
  }

  lemma PrefixListing(tbl: Table, t: string, p: seq<string>, before: int, k: nat)
    requires EnumeratesTenant(tbl, p, t) && k <= |p|
    requires forall i | 0 <= i < |p| :: tbl[p[i]].at >= before <==> i < k
    ensures EnumeratesTenant(Purged(tbl, before), p[..k], t)
    ensures Fetch(Purged(tbl, before), p[..k]) == Fetch(tbl, p)[..k]
  {
    var left := Purged(tbl, before);
    forall id | id in left && left[id].tenant == t
      ensures id in p[..k]
    {
      assert id in p;
      var i :| 0 <= i < |p| && p[i] == id;
      assert p[..k][i] == id;
    }
  }

  lemma SurvivorsAreFirst(sha: Digest, tbl: Table, t: string, p: seq<string>, before: int, q: seq<string>)
    requires Chained(sha, tbl, t, p) && Chained(sha, Purged(tbl, before), t, q)
    ensures PurgesTail(Fetch(tbl, p), before)
  {
    var rows, left := Fetch(tbl, p), Purged(tbl, before);
    forall i, j | 0 <= i < j < |rows| && rows[i].at < before
      ensures rows[j].at < before
    {
      if rows[j].at >= before {
        NumberInChain(sha, tbl, t, p, j);
        PlaceInChain(sha, left, t, q, p[j]);
        NumberInChain(sha, left, t, q, i);
        PlaceInChain(sha, tbl, t, p, q[i]);
      }
    }
  }

  // ---------- how far a job will come ----------

  /** Some row of the tenant holds this number. */
  predicate Holds(tbl: Table, t: string, n: int) {
    exists o :: o in tbl && tbl[o].tenant == t && tbl[o].seqNo == n
  }

  /** The rows still to be rewritten, as far as they are there, have negative numbers. */
  ghost predicate Idle(tbl: Table, t: string, ids: seq<string>, k: nat) {
    && Distinct(ids) && k <= |ids|
    && forall i | k <= i < |ids| && ids[i] in tbl :: tbl[ids[i]].tenant == t && tbl[ids[i]].seqNo < 0
  }

  /** The job cannot rewrite this row: it is gone, or another row holds its number. */
  predicate Blocked(tbl: Table, t: string, ids: seq<string>, i: nat)
    requires i < |ids|
  {
    ids[i] !in tbl || Holds(tbl, t, i + 1)
  }

  /** The position at which the job will stop: the first blocked row, or the end. */
  function StopAt(tbl: Table, t: string, ids: seq<string>, k: nat): (d: nat)
    requires k <= |ids|
    ensures k <= d <= |ids|
    ensures forall i | k <= i < d :: !Blocked(tbl, t, ids, i)
    ensures d < |ids| ==> Blocked(tbl, t, ids, d)
    decreases |ids| - k
  {
    if k == |ids| || Blocked(tbl, t, ids, k) then k else StopAt(tbl, t, ids, k + 1)
  }

  /** What the job will leave. */
  function Outcome(link: Link, tbl: Table, t: string, ids: seq<string>, k: nat, prev: string): (out: Table)
    requires k <= |ids|
    ensures out.Keys == tbl.Keys
  {
    OnlyListedRows(link, tbl, t, ids, k, |ids|, prev);
    Loop(Rewriting(link, t, ids), tbl, k, |ids|, prev).table
  }

  /** The outcome is the outcome after one more row, or the table itself where the job stops. */
  lemma OutcomeStep(link: Link, tbl: Table, t: string, ids: seq<string>, k: nat, prev: string)
    requires k < |ids|
    ensures var p := RewriteRow(link, tbl, t, ids[k], k + 1, prev);
            && p.table.Keys == tbl.Keys
            && Outcome(link, tbl, t, ids, k, prev) == if p.ok then Outcome(link, p.table, t, ids, k + 1, p.hash) else tbl
  {
    assert Rewriting(link, t, ids)(tbl, k, prev) == RewriteRow(link, tbl, t, ids[k], k + 1, prev);
  }

  lemma OutcomeEnd(link: Link, tbl: Table, t: string, ids: seq<string>, prev: string)
    ensures Outcome(link, tbl, t, ids, |ids|, prev) == tbl
  {
  }

  /** The row is among those rewritten between two positions. */
  predicate Among(ids: seq<string>, k: nat, d: nat, id: string)
    requires d <= |ids|
  {
    exists i :: k <= i < d && ids[i] == id
  }

  /** Chaining a row changes its two hash columns only. */
  ghost predicate KeepsRest(link: Link) {
    forall p, r :: link(p, r) == r.(prevHash := link(p, r).prevHash, hash := link(p, r).hash)
  }

  lemma LinkingKeepsRest(sha: Digest)
    ensures KeepsRest(Linking(sha))
  {
  }

  /** Rows between two positions have their new numbers and keep the rest; all others are as they were. */
  ghost predicate Advanced(tbl: Table, ids: seq<string>, k: nat, d: nat, out: Table) {
    && k <= d <= |ids| && out.Keys == tbl.Keys
    && (forall i | k <= i < d && ids[i] in tbl ::
          out[ids[i]] == tbl[ids[i]].(seqNo := i + 1, prevHash := out[ids[i]].prevHash, hash := out[ids[i]].hash))
    && (forall id | id in tbl && !Among(ids, k, d, id) :: out[id] == tbl[id])
  }

  /** The first rewriting of a job: what it changes and that it changes nothing about the stop. */
  lemma FirstRewriting(link: Link, tbl: Table, t: string, ids: seq<string>, k: nat, prev: string)
    requires KeepsRest(link) && Idle(tbl, t, ids, k) && k < |ids|
    ensures var p := RewriteRow(link, tbl, t, ids[k], k + 1, prev);
            && (p.ok <==> !Blocked(tbl, t, ids, k))
            && (p.ok ==> Idle(p.table, t, ids, k + 1) && StopAt(p.table, t, ids, k + 1) == StopAt(tbl, t, ids, k))
  {
    var p := RewriteRow(link, tbl, t, ids[k], k + 1, prev);
    if ids[k] in tbl {
      assert SlotTaken(tbl, t, k + 1, ids[k]) <==> Holds(tbl, t, k + 1);
    }
    if p.ok {
      forall i | k + 1 <= i < |ids|
        ensures Blocked(p.table, t, ids, i) <==> Blocked(tbl, t, ids, i)
      {
        HoldsElsewhere(tbl, t, ids[k], p.table[ids[k]], i + 1);
      }
      SameStop(tbl, p.table, t, ids, k + 1);
    }
  }

  lemma HoldsElsewhere(tbl: Table, t: string, id: string, r: Row, n: int)
    requires id in tbl && tbl[id].seqNo != n && r.seqNo != n
    ensures Holds(tbl[id := r], t, n) <==> Holds(tbl, t, n)
  {
    var more := tbl[id := r];
    if Holds(tbl, t, n) {
      var o :| o in tbl && tbl[o].tenant == t && tbl[o].seqNo == n;
      assert more[o] == tbl[o];
    }
    if Holds(more, t, n) {
      var o :| o in more && more[o].tenant == t && more[o].seqNo == n;
      assert o != id;
    }
  }

  lemma {:induction false} SameStop(a: Table, b: Table, t: string, ids: seq<string>, k: nat)
    requires k <= |ids|
    requires forall i | k <= i < |ids| :: Blocked(a, t, ids, i) <==> Blocked(b, t, ids, i)
    ensures StopAt(a, t, ids, k) == StopAt(b, t, ids, k)
    decreases |ids| - k
  {
    if k < |ids| {
      SameStop(a, b, t, ids, k + 1);
    }
  }

  lemma AdvanceOnce(tbl: Table, ids: seq<string>, k: nat, d: nat, r: Row, out: Table)
    requires Distinct(ids) && k < d <= |ids| && ids[k] in tbl
    requires r == tbl[ids[k]].(seqNo := k + 1, prevHash := r.prevHash, hash := r.hash)
    requires Advanced(tbl[ids[k] := r], ids, k + 1, d, out)
    ensures Advanced(tbl, ids, k, d, out) && out[ids[k]] == r
  {
    assert !Among(ids, k + 1, d, ids[k]);
    forall id | id in tbl && !Among(ids, k, d, id)
      ensures out[id] == tbl[id]
    {
      assert ids[k] != id;
      assert !Among(ids, k + 1, d, id);
    }
  }

  /** The job rewrites exactly the rows before the position at which it stops. */
  lemma {:induction false} JobAdvances(link: Link, tbl: Table, t: string, ids: seq<string>, k: nat, prev: string)
    requires KeepsRest(link) && Idle(tbl, t, ids, k)
    ensures Advanced(tbl, ids, k, StopAt(tbl, t, ids, k), Outcome(link, tbl, t, ids, k, prev))
    decreases |ids| - k
  {
    if k < |ids| {
      var p := RewriteRow(link, tbl, t, ids[k], k + 1, prev);
      FirstRewriting(link, tbl, t, ids, k, prev);
      assert Rewriting(link, t, ids)(tbl, k, prev) == p;
      if p.ok {
        JobAdvances(link, p.table, t, ids, k + 1, p.hash);
        AdvanceOnce(tbl, ids, k, StopAt(tbl, t, ids, k), p.table[ids[k]], Outcome(link, tbl, t, ids, k, prev));
      }
    }
  }

  // ---------- two tables, one job ----------

  /** The second table has no other versions of the rows still to be rewritten than the first. */
  ghost predicate SameWork(a: Table, b: Table, ids: seq<string>, k: nat) {
    forall i | k <= i < |ids| && ids[i] in b :: ids[i] in a && b[ids[i]] == a[ids[i]]
  }

  /** After an unblocked first row the job goes on from the next. */
  lemma GoesOn(link: Link, tbl: Table, t: string, ids: seq<string>, k: nat, prev: string) returns (next: Table, hash: string)
    requires KeepsRest(link) && Idle(tbl, t, ids, k) && k < |ids| && !Blocked(tbl, t, ids, k)
    ensures var row := link(prev, tbl[ids[k]].(seqNo := k + 1)); next == tbl[ids[k] := row] && hash == row.hash
    ensures Idle(next, t, ids, k + 1) && StopAt(next, t, ids, k + 1) == StopAt(tbl, t, ids, k)
    ensures Outcome(link, tbl, t, ids, k, prev) == Outcome(link, next, t, ids, k + 1, hash)
  {
    FirstRewriting(link, tbl, t, ids, k, prev);
    var p := RewriteRow(link, tbl, t, ids[k], k + 1, prev);
    assert Rewriting(link, t, ids)(tbl, k, prev) == p;
    next, hash := p.table, p.hash;
  }

  lemma FirstRowStays(link: Link, tbl: Table, t: string, ids: seq<string>, k: nat, prev: string)
    requires KeepsRest(link) && Idle(tbl, t, ids, k) && k < |ids| && !Blocked(tbl, t, ids, k)
    ensures Outcome(link, tbl, t, ids, k, prev)[ids[k]] == link(prev, tbl[ids[k]].(seqNo := k + 1))
  {
    var next, hash := GoesOn(link, tbl, t, ids, k, prev);
    JobAdvances(link, next, t, ids, k + 1, hash);
    assert !Among(ids, k + 1, StopAt(next, t, ids, k + 1), ids[k]);
  }

  /** Row i is chained to the row rewritten before it, or to the hash the job started with. */
  ghost predicate WrittenAt(link: Link, tbl: Table, ids: seq<string>, k: nat, prev: string, out: Table, i: nat) {
    && k <= i < |ids| && ids[i] in tbl && ids[i] in out && (i > k ==> ids[i - 1] in out)
    && out[ids[i]] == link(if i == k then prev else out[ids[i - 1]].hash, tbl[ids[i]].(seqNo := i + 1))
  }

  /** The rows before the stop are written one after the other. */
  lemma {:induction false} JobLinks(link: Link, tbl: Table, t: string, ids: seq<string>, k: nat, prev: string, i: nat)
    requires KeepsRest(link) && Idle(tbl, t, ids, k) && k <= i < StopAt(tbl, t, ids, k)
    ensures WrittenAt(link, tbl, ids, k, prev, Outcome(link, tbl, t, ids, k, prev), i)
    decreases |ids| - k
  {
    assert !Blocked(tbl, t, ids, k) && !Blocked(tbl, t, ids, i);
    FirstRowStays(link, tbl, t, ids, k, prev);
    if i > k {
      var next, hash := GoesOn(link, tbl, t, ids, k, prev);
      JobLinks(link, next, t, ids, k + 1, hash, i);
      WrittenBefore(link, tbl, next, ids, k, prev, hash, Outcome(link, tbl, t, ids, k, prev), i);
    }
  }

  lemma WrittenBefore(link: Link, tbl: Table, next: Table, ids: seq<string>, k: nat, prev: string, hash: string, out: Table, i: nat)
    requires Distinct(ids) && k < i && WrittenAt(link, next, ids, k + 1, hash, out, i)
    requires ids[k] in tbl && ids[k] in next && next == tbl[ids[k] := next[ids[k]]]
    requires ids[k] in out && out[ids[k]].hash == hash
    ensures WrittenAt(link, tbl, ids, k, prev, out, i)
  {
    assert ids[i] != ids[k];
  }

  lemma {:induction false} SameWritten(link: Link, a: Table, b: Table, ids: seq<string>, k: nat, prev: string, x: Table, y: Table, i: nat)
    requires SameWork(a, b, ids, k) && k <= i < |ids|
    requires forall j | k <= j <= i :: WrittenAt(link, a, ids, k, prev, x, j) && WrittenAt(link, b, ids, k, prev, y, j)
    ensures ids[i] in x && ids[i] in y && x[ids[i]] == y[ids[i]]
    decreases i
  {
    assert WrittenAt(link, a, ids, k, prev, x, i) && WrittenAt(link, b, ids, k, prev, y, i);
    if i > k {
      SameWritten(link, a, b, ids, k, prev, x, y, i - 1);
    }
  }

  /** The same job on two such tables writes the same rows as far as both go. */
  lemma SameRewritings(link: Link, a: Table, b: Table, t: string, ids: seq<string>, k: nat, prev: string, i: nat)
    requires KeepsRest(link) && Idle(a, t, ids, k) && Idle(b, t, ids, k) && SameWork(a, b, ids, k)
    requires k <= i < StopAt(a, t, ids, k) && i < StopAt(b, t, ids, k)
    ensures ids[i] in a && ids[i] in b
    ensures Outcome(link, a, t, ids, k, prev)[ids[i]] == Outcome(link, b, t, ids, k, prev)[ids[i]]
  {
    var x, y := Outcome(link, a, t, ids, k, prev), Outcome(link, b, t, ids, k, prev);
    forall j | k <= j <= i
      ensures WrittenAt(link, a, ids, k, prev, x, j) && WrittenAt(link, b, ids, k, prev, y, j)
    {
      JobLinks(link, a, t, ids, k, prev, j);
      JobLinks(link, b, t, ids, k, prev, j);
    }
    SameWritten(link, a, b, ids, k, prev, x, y, i);
  }

  /** No row still to be rewritten is left beyond the stop. */
  ghost predicate Clear(tbl: Table, t: string, ids: seq<string>, k: nat)
    requires k <= |ids|
  {
    forall i | StopAt(tbl, t, ids, k) <= i < |ids| :: ids[i] !in tbl
  }

  /** Rows beyond the stop keep their negative numbers: the outcome has only positive numbers if and only if there are none. */
  lemma ClearIff(link: Link, tbl: Table, t: string, ids: seq<string>, k: nat, prev: string)
    requires KeepsRest(link) && Idle(tbl, t, ids, k)
    ensures Clear(tbl, t, ids, k) <==>
            forall i | k <= i < |ids| && ids[i] in tbl :: Outcome(link, tbl, t, ids, k, prev)[ids[i]].seqNo >= 1
  {
    var d, out := StopAt(tbl, t, ids, k), Outcome(link, tbl, t, ids, k, prev);
    JobAdvances(link, tbl, t, ids, k, prev);
    forall i | k <= i < |ids| && ids[i] in tbl
      ensures i < d ==> out[ids[i]].seqNo == i + 1
      ensures i >= d ==> out[ids[i]].seqNo < 0
    {
      if i >= d {
        assert !Among(ids, k, d, ids[i]);
      }
    }
  }

  // ---------- a row inserted meanwhile ----------

  /** The number is still to be given to a row of the job. */
  predicate Wanted(tbl: Table, ids: seq<string>, k: nat, n: int) {
    exists i :: k <= i < |ids| && ids[i] in tbl && i + 1 == n
  }

  /** A row that is inserted while the job is open and is not in its list. */
  ghost predicate Newcomer(tbl: Table, t: string, ids: seq<string>, id: string, r: Row) {
    id !in tbl && id !in ids && r.tenant == t
  }

  lemma BlockedWithRow(tbl: Table, t: string, ids: seq<string>, id: string, r: Row, i: nat)
    requires Newcomer(tbl, t, ids, id, r) && i < |ids|
    ensures Blocked(tbl[id := r], t, ids, i) <==> Blocked(tbl, t, ids, i) || r.seqNo == i + 1
  {
    var more := tbl[id := r];
    if Holds(tbl, t, i + 1) {
      var o :| o in tbl && tbl[o].tenant == t && tbl[o].seqNo == i + 1;
      assert more[o] == tbl[o];
    }
    if r.seqNo == i + 1 {
      assert more[id].seqNo == i + 1;
    }
    if Holds(more, t, i + 1) {
      var o :| o in more && more[o].tenant == t && more[o].seqNo == i + 1;
      assert o != id ==> tbl[o] == more[o];
    }
  }

  /** If the number is wanted, the job will stop before a row that stays negative. */
  lemma WantedBlocks(link: Link, tbl: Table, t: string, ids: seq<string>, k: nat, prev: string, id: string, r: Row)
    requires KeepsRest(link) && Idle(tbl, t, ids, k) && Newcomer(tbl, t, ids, id, r) && Wanted(tbl, ids, k, r.seqNo)
    ensures Idle(tbl[id := r], t, ids, k) && !Clear(tbl[id := r], t, ids, k)
  {
    var more := tbl[id := r];
    var i :| k <= i < |ids| && ids[i] in tbl && i + 1 == r.seqNo;
    BlockedWithRow(tbl, t, ids, id, r, i);
    assert StopAt(more, t, ids, k) <= i && ids[i] in more;
  }

  /** Otherwise the job goes as far as without the row and leaves it alone. */
  lemma UnwantedIsIgnored(link: Link, tbl: Table, t: string, ids: seq<string>, k: nat, prev: string, id: string, r: Row)
    requires KeepsRest(link) && Idle(tbl, t, ids, k) && Clear(tbl, t, ids, k)
    requires Newcomer(tbl, t, ids, id, r) && !Wanted(tbl, ids, k, r.seqNo)
    ensures Idle(tbl[id := r], t, ids, k) && Clear(tbl[id := r], t, ids, k)
    ensures Outcome(link, tbl[id := r], t, ids, k, prev) == Outcome(link, tbl, t, ids, k, prev)[id := r]
  {
    var more, d := tbl[id := r], StopAt(tbl, t, ids, k);
    forall i | k <= i < |ids|
      ensures Blocked(more, t, ids, i) <==> Blocked(tbl, t, ids, i)
    {
      BlockedWithRow(tbl, t, ids, id, r, i);
    }
    SameStop(more, tbl, t, ids, k);
    var fin, out := Outcome(link, tbl, t, ids, k, prev), Outcome(link, more, t, ids, k, prev);
    forall o | o in more
      ensures out[o] == fin[id := r][o]
    {
      SameRow(link, tbl, more, t, ids, k, prev, o);
    }
  }

  /** One row of the outcomes on two tables that share the work, the second of which does not come further. */
  lemma SameRow(link: Link, a: Table, b: Table, t: string, ids: seq<string>, k: nat, prev: string, id: string)
    requires KeepsRest(link) && Idle(a, t, ids, k) && Idle(b, t, ids, k) && SameWork(a, b, ids, k)
    requires StopAt(b, t, ids, k) <= StopAt(a, t, ids, k) && id in b
    ensures Among(ids, k, StopAt(b, t, ids, k), id) ==>
              id in a && Outcome(link, b, t, ids, k, prev)[id] == Outcome(link, a, t, ids, k, prev)[id]
    ensures !Among(ids, k, StopAt(b, t, ids, k), id) ==> Outcome(link, b, t, ids, k, prev)[id] == b[id]
    ensures id in a && !Among(ids, k, StopAt(a, t, ids, k), id) ==> Outcome(link, a, t, ids, k, prev)[id] == a[id]
  {
    JobAdvances(link, a, t, ids, k, prev);
    JobAdvances(link, b, t, ids, k, prev);
    if Among(ids, k, StopAt(b, t, ids, k), id) {
      var i :| k <= i < StopAt(b, t, ids, k) && ids[i] == id;
      SameRewritings(link, a, b, t, ids, k, prev, i);
    }
  }

  // ---------- rows purged meanwhile ----------

  /** Of the rows still to be rewritten none survives the purge after one that does not. */
  predicate CutsWork(tbl: Table, ids: seq<string>, k: nat, before: int) {
    forall i, j | k <= i < j < |ids| && ids[i] in tbl && ids[j] in tbl && tbl[ids[i]].at < before :: tbl[ids[j]].at < before
  }

  lemma PurgedStop(tbl: Table, t: string, ids: seq<string>, k: nat, before: int)
    requires Idle(tbl, t, ids, k) && Clear(tbl, t, ids, k)
    ensures Idle(Purged(tbl, before), t, ids, k)
    ensures StopAt(Purged(tbl, before), t, ids, k) <= StopAt(tbl, t, ids, k)
    ensures forall i | k <= i < StopAt(tbl, t, ids, k) ::
              ids[i] in tbl && (Blocked(Purged(tbl, before), t, ids, i) <==> tbl[ids[i]].at < before)
  {
    var left, d := Purged(tbl, before), StopAt(tbl, t, ids, k);
    forall i | k <= i < d
      ensures ids[i] in tbl && (Blocked(left, t, ids, i) <==> tbl[ids[i]].at < before)
    {
      assert !Blocked(tbl, t, ids, i);
      assert !Holds(left, t, i + 1);
    }
    if d < |ids| {
      assert Blocked(left, t, ids, d);
    }
  }

  /** After the purge the job still comes through if and only if the purge cuts its work off at one place. */
  lemma PurgedIsClearIff(tbl: Table, t: string, ids: seq<string>, k: nat, before: int)
    requires Idle(tbl, t, ids, k) && Clear(tbl, t, ids, k)
    ensures Idle(Purged(tbl, before), t, ids, k)
    ensures Clear(Purged(tbl, before), t, ids, k) <==> CutsWork(tbl, ids, k, before)
  {
    var left, d, e := Purged(tbl, before), StopAt(tbl, t, ids, k), StopAt(Purged(tbl, before), t, ids, k);
    PurgedStop(tbl, t, ids, k, before);
    if CutsWork(tbl, ids, k, before) {
      forall i | e <= i < |ids|
        ensures ids[i] !in left
      {
        if i < d && e < d {
          assert Blocked(left, t, ids, e);
          assert !Blocked(tbl, t, ids, e) && !Blocked(tbl, t, ids, i);
          assert tbl[ids[e]].at < before;
          assert i > e ==> tbl[ids[i]].at < before;
        }
      }
    }
    if Clear(left, t, ids, k) {
      forall i, j | k <= i < j < |ids| && ids[i] in tbl && ids[j] in tbl && tbl[ids[i]].at < before
        ensures tbl[ids[j]].at < before
      {
        assert i < d;
        assert Blocked(left, t, ids, i);
        assert e <= i;
        assert ids[j] !in left;
      }
    }
  }

  /** And then it leaves what the purge leaves of its outcome. */
  lemma PurgeCommutes(link: Link, tbl: Table, t: string, ids: seq<string>, k: nat, prev: string, before: int)
    requires KeepsRest(link) && Idle(tbl, t, ids, k) && Clear(tbl, t, ids, k)
    requires Idle(Purged(tbl, before), t, ids, k) && Clear(Purged(tbl, before), t, ids, k)
    ensures Outcome(link, Purged(tbl, before), t, ids, k, prev) == Purged(Outcome(link, tbl, t, ids, k, prev), before)
  {
    var left, fin := Purged(tbl, before), Outcome(link, tbl, t, ids, k, prev);
    var out := Outcome(link, left, t, ids, k, prev);
    PurgedStop(tbl, t, ids, k, before);
    forall id | id in tbl
      ensures fin[id].at == tbl[id].at
    {
      TimeStays(link, tbl, t, ids, k, prev, id);
    }
    forall id | id in left
      ensures out[id] == fin[id]
    {
      SameRow(link, tbl, left, t, ids, k, prev, id);
    }
  }

  lemma TimeStays(link: Link, tbl: Table, t: string, ids: seq<string>, k: nat, prev: string, id: string)
    requires KeepsRest(link) && Idle(tbl, t, ids, k) && id in tbl
    ensures Outcome(link, tbl, t, ids, k, prev)[id].at == tbl[id].at
    ensures Outcome(link, tbl, t, ids, k, prev)[id].tenant == tbl[id].tenant
  {
    JobAdvances(link, tbl, t, ids, k, prev);
    if Among(ids, k, StopAt(tbl, t, ids, k), id) {
      var i :| k <= i < StopAt(tbl, t, ids, k) && ids[i] == id;
    }
  }

  // ---------- acceptance of the outcome ----------

  /** A valid outcome leaves no row of the job behind. */
  lemma AcceptedIsClear(sha: Digest, tbl: Table, t: string, ids: seq<string>, k: nat, prev: string)
    requires Idle(tbl, t, ids, k) && AcceptedIn(sha, Outcome(Linking(sha), tbl, t, ids, k, prev), t)
    ensures Clear(tbl, t, ids, k)
  {
    var out := Outcome(Linking(sha), tbl, t, ids, k, prev);
    var q :| Chained(sha, out, t, q);
    LinkingKeepsRest(sha);
    forall i | k <= i < |ids| && ids[i] in tbl
      ensures out[ids[i]].seqNo >= 1
    {
      TimeStays(Linking(sha), tbl, t, ids, k, prev, ids[i]);
      PlaceInChain(sha, out, t, q, ids[i]);
    }
    ClearIff(Linking(sha), tbl, t, ids, k, prev);
  }

  /** A number the job still wants is in its outcome. */
  lemma WantedIsGiven(link: Link, tbl: Table, t: string, ids: seq<string>, k: nat, prev: string, n: int) returns (id: string)
    requires KeepsRest(link) && Idle(tbl, t, ids, k) && Clear(tbl, t, ids, k) && Wanted(tbl, ids, k, n)
    ensures id in tbl && Outcome(link, tbl, t, ids, k, prev)[id].seqNo == n && Outcome(link, tbl, t, ids, k, prev)[id].tenant == t
  {
    var i :| k <= i < |ids| && ids[i] in tbl && i + 1 == n;
    JobAdvances(link, tbl, t, ids, k, prev);
    id := ids[i];
    TimeStays(link, tbl, t, ids, k, prev, id);
  }

  /** A row inserted during the job leaves a valid outcome valid if and only if it continues it. */
  lemma InsertDuringJobIff(sha: Digest, tbl: Table, t: string, ids: seq<string>, k: nat, prev: string, q: seq<string>, id: string, r: Row)
    requires Idle(tbl, t, ids, k) && Newcomer(tbl, t, ids, id, r)
    requires Chained(sha, Outcome(Linking(sha), tbl, t, ids, k, prev), t, q)
    ensures AcceptedIn(sha, Outcome(Linking(sha), tbl[id := r], t, ids, k, prev), t)
            <==> Continues(sha, Fetch(Outcome(Linking(sha), tbl, t, ids, k, prev), q), r)
    ensures Continues(sha, Fetch(Outcome(Linking(sha), tbl, t, ids, k, prev), q), r) ==>
              Outcome(Linking(sha), tbl[id := r], t, ids, k, prev) == Outcome(Linking(sha), tbl, t, ids, k, prev)[id := r]
  {
    var link := Linking(sha);
    var fin := Outcome(link, tbl, t, ids, k, prev);
    LinkingKeepsRest(sha);
    AcceptedIsClear(sha, tbl, t, ids, k, prev);
    if Wanted(tbl, ids, k, r.seqNo) {
      WantedBlocks(link, tbl, t, ids, k, prev, id, r);
      var o := WantedIsGiven(link, tbl, t, ids, k, prev, r.seqNo);
      PlaceInChain(sha, fin, t, q, o);
      if AcceptedIn(sha, Outcome(link, tbl[id := r], t, ids, k, prev), t) {
        AcceptedIsClear(sha, tbl[id := r], t, ids, k, prev);
      }
    } else {
      UnwantedIsIgnored(link, tbl, t, ids, k, prev, id, r);
      AddRowIff(sha, fin, t, q, id, r);
    }
  }

  /** A purge during the job leaves a valid outcome valid if and only if it deletes no row of it before a surviving one. */
  lemma PurgeDuringJobIff(sha: Digest, tbl: Table, t: string, ids: seq<string>, k: nat, prev: string, q: seq<string>, before: int)
    requires Idle(tbl, t, ids, k) && Chained(sha, Outcome(Linking(sha), tbl, t, ids, k, prev), t, q)
    ensures AcceptedIn(sha, Outcome(Linking(sha), Purged(tbl, before), t, ids, k, prev), t)
            <==> PurgesTail(Fetch(Outcome(Linking(sha), tbl, t, ids, k, prev), q), before)
    ensures PurgesTail(Fetch(Outcome(Linking(sha), tbl, t, ids, k, prev), q), before) ==>
              Outcome(Linking(sha), Purged(tbl, before), t, ids, k, prev) == Purged(Outcome(Linking(sha), tbl, t, ids, k, prev), before)
  {
    var link := Linking(sha);
    var fin, left := Outcome(link, tbl, t, ids, k, prev), Purged(tbl, before);
    LinkingKeepsRest(sha);
    AcceptedIsClear(sha, tbl, t, ids, k, prev);
    PurgeIff(sha, fin, t, q, before);
    PurgedIsClearIff(tbl, t, ids, k, before);
    if AcceptedIn(sha, Outcome(link, left, t, ids, k, prev), t) {
      AcceptedIsClear(sha, left, t, ids, k, prev);
    }
    if PurgesTail(Fetch(fin, q), before) {
      TailPurgeCutsWork(sha, tbl, t, ids, k, prev, q, before);
    }
    if Clear(left, t, ids, k) {
      PurgeCommutes(link, tbl, t, ids, k, prev, before);
    }
  }

  lemma TailPurgeCutsWork(sha: Digest, tbl: Table, t: string, ids: seq<string>, k: nat, prev: string, q: seq<string>, before: int)
    requires Idle(tbl, t, ids, k) && Chained(sha, Outcome(Linking(sha), tbl, t, ids, k, prev), t, q) && Clear(tbl, t, ids, k)
    requires PurgesTail(Fetch(Outcome(Linking(sha), tbl, t, ids, k, prev), q), before)
    ensures CutsWork(tbl, ids, k, before)
  {
    forall i, j | k <= i < j < |ids| && ids[i] in tbl && ids[j] in tbl && tbl[ids[i]].at < before
      ensures tbl[ids[j]].at < before
    {
      PlaceOfWork(sha, tbl, t, ids, k, prev, q, i);
      PlaceOfWork(sha, tbl, t, ids, k, prev, q, j);
    }
  }

  /** A row of the job has its place in the valid outcome. */
  lemma PlaceOfWork(sha: Digest, tbl: Table, t: string, ids: seq<string>, k: nat, prev: string, q: seq<string>, i: nat)
    requires Idle(tbl, t, ids, k) && Chained(sha, Outcome(Linking(sha), tbl, t, ids, k, prev), t, q) && Clear(tbl, t, ids, k)
    requires k <= i < |ids| && ids[i] in tbl
    ensures i < |q| && Fetch(Outcome(Linking(sha), tbl, t, ids, k, prev), q)[i].at == tbl[ids[i]].at
  {
    var fin := Outcome(Linking(sha), tbl, t, ids, k, prev);
    LinkingKeepsRest(sha);
    JobAdvances(Linking(sha), tbl, t, ids, k, prev);
    TimeStays(Linking(sha), tbl, t, ids, k, prev, ids[i]);
    PlaceInChain(sha, fin, t, q, ids[i]);
  }

  // ---------- the beginning of the outcome ----------

  /** All numbers are positive, and the rows with the first numbers are exactly these. */
  ghost predicate Begins(tbl: Table, t: string, p: seq<Row>) {
    && (forall id | id in tbl && tbl[id].tenant == t ::
          tbl[id].seqNo >= 1 && (tbl[id].seqNo <= |p| ==> tbl[id] == p[tbl[id].seqNo - 1]))
    && (forall i | 0 <= i < |p| :: Present(tbl, p[i]))
  }

  predicate Present(tbl: Table, r: Row) {
    exists id :: id in tbl && tbl[id] == r
  }

  /** The rows of a tenant hold different numbers. */
  ghost predicate UniqueNumbers(tbl: Table, t: string) {
    forall a, b | a in tbl && b in tbl && tbl[a].tenant == t && tbl[b].tenant == t && tbl[a].seqNo == tbl[b].seqNo :: a == b
  }

  ghost predicate Climbs(tbl: Table, r: seq<string>)
    requires Stored(tbl, r)
  {
    forall a, b | 0 <= a < b < |r| :: tbl[r[a]].seqNo < tbl[r[b]].seqNo
  }

  /** Seen through the query in sequence order: the listing has positive numbers and begins with these rows. */
  lemma BeginsIff(tbl: Table, t: string, p: seq<Row>, r: seq<string>)
    requires Numbered(p) && OfTenant(p, t) && UniqueNumbers(tbl, t)
    requires EnumeratesTenant(tbl, r, t) && AscendingSeq(tbl, r)
    ensures Begins(tbl, t, p) <==> (forall i | 0 <= i < |r| :: tbl[r[i]].seqNo >= 1) && p <= Fetch(tbl, r)
  {
    assert Climbs(tbl, r) by {
      forall i, j | 0 <= i < j < |r|
        ensures tbl[r[i]].seqNo < tbl[r[j]].seqNo
      {
        assert r[i] != r[j];
      }
    }
    if Begins(tbl, t, p) {
      BeginsInListing(tbl, t, p, r);
    }
    if (forall i | 0 <= i < |r| :: tbl[r[i]].seqNo >= 1) && p <= Fetch(tbl, r) {
      ListingBegins(tbl, t, p, r);
    }
  }

  lemma BeginsInListing(tbl: Table, t: string, p: seq<Row>, r: seq<string>)
    requires Numbered(p) && OfTenant(p, t) && Begins(tbl, t, p) && EnumeratesTenant(tbl, r, t) && Climbs(tbl, r)
    ensures p <= Fetch(tbl, r)
  {
    if |p| > 0 {
      BeginsAt(tbl, t, p, r, |p| - 1);
    }
    forall i | 0 <= i < |p|
      ensures Fetch(tbl, r)[i] == p[i]
    {
      BeginsAt(tbl, t, p, r, i);
    }
  }

  lemma ListingBegins(tbl: Table, t: string, p: seq<Row>, r: seq<string>)
    requires Numbered(p) && EnumeratesTenant(tbl, r, t) && UniqueNumbers(tbl, t)
    requires (forall i | 0 <= i < |r| :: tbl[r[i]].seqNo >= 1) && p <= Fetch(tbl, r)
    ensures Begins(tbl, t, p)
  {
    forall i | 0 <= i < |p|
      ensures Present(tbl, p[i]) && tbl[r[i]] == p[i]
    {
      assert tbl[r[i]] == Fetch(tbl, r)[i];
    }
    forall id | id in tbl && tbl[id].tenant == t
      ensures tbl[id].seqNo >= 1 && (tbl[id].seqNo <= |p| ==> tbl[id] == p[tbl[id].seqNo - 1])
    {
      assert id in r;
      if tbl[id].seqNo <= |p| {
        var i := tbl[id].seqNo - 1;
        assert tbl[r[i]] == p[i] && p[i].seqNo == i + 1;
      }
    }
  }

  lemma {:induction false} BeginsAt(tbl: Table, t: string, p: seq<Row>, r: seq<string>, i: nat)
    requires Numbered(p) && OfTenant(p, t) && Begins(tbl, t, p) && EnumeratesTenant(tbl, r, t) && Climbs(tbl, r) && i < |p|
    ensures i < |r| && tbl[r[i]] == p[i]
  {
    assert Present(tbl, p[i]);
    var id :| id in tbl && tbl[id] == p[i];
    assert id in r;
    var j :| 0 <= j < |r| && r[j] == id;
    AtLeastPosition(tbl, r, j);
    if j < i {
      BeginsAt(tbl, t, p, r, j);
    }
  }

  lemma BeginsHolds(tbl: Table, t: string, p: seq<Row>, n: int)
    requires Numbered(p) && OfTenant(p, t) && Begins(tbl, t, p) && 1 <= n <= |p|
    ensures Holds(tbl, t, n)
  {
    assert Present(tbl, p[n - 1]);
    var o :| o in tbl && tbl[o] == p[n - 1];
    assert tbl[o].seqNo == n;
  }

  lemma AddRowBeginsIff(tbl: Table, t: string, p: seq<Row>, id: string, r: Row)
    requires Numbered(p) && OfTenant(p, t) && Begins(tbl, t, p)
    requires id !in tbl && r.tenant == t && !Holds(tbl, t, r.seqNo)
    ensures Begins(tbl[id := r], t, p) <==> r.seqNo >= 1
  {
    var more := tbl[id := r];
    assert more[id] == r;
    if 1 <= r.seqNo <= |p| {
      BeginsHolds(tbl, t, p, r.seqNo);
    }
    PresentStays(tbl, p, id, r);
  }

  lemma PresentStays(tbl: Table, p: seq<Row>, id: string, r: Row)
    requires id !in tbl && forall i | 0 <= i < |p| :: Present(tbl, p[i])
    ensures forall i | 0 <= i < |p| :: Present(tbl[id := r], p[i])
  {
    forall i | 0 <= i < |p|
      ensures Present(tbl[id := r], p[i])
    {
      assert Present(tbl, p[i]);
      var o :| o in tbl && tbl[o] == p[i];
      assert tbl[id := r][o] == p[i];
    }
  }

  /** One of the rows is older than the purge keeps. */
  predicate Hits(p: seq<Row>, before: int) {
    exists i :: 0 <= i < |p| && p[i].at < before
  }

  lemma PurgeBeginsIff(tbl: Table, t: string, p: seq<Row>, before: int)
    requires Begins(tbl, t, p)
    ensures Begins(Purged(tbl, before), t, p) <==> !Hits(p, before)
  {
    var left := Purged(tbl, before);
    if !Hits(p, before) {
      forall i | 0 <= i < |p|
        ensures Present(left, p[i])
      {
        assert Present(tbl, p[i]);
        var o :| o in tbl && tbl[o] == p[i];
        assert left[o] == p[i];
      }
    } else {
      var i :| 0 <= i < |p| && p[i].at < before;
      assert !Present(left, p[i]);
    }
  }

  lemma BeginsIsClear(link: Link, tbl: Table, t: string, ids: seq<string>, k: nat, prev: string, p: seq<Row>)
    requires KeepsRest(link) && Idle(tbl, t, ids, k) && Begins(Outcome(link, tbl, t, ids, k, prev), t, p)
    ensures Clear(tbl, t, ids, k)
  {
    forall i | k <= i < |ids| && ids[i] in tbl
      ensures Outcome(link, tbl, t, ids, k, prev)[ids[i]].seqNo >= 1
    {
      TimeStays(link, tbl, t, ids, k, prev, ids[i]);
    }
    ClearIff(link, tbl, t, ids, k, prev);
  }

  /** A number that is neither held nor wanted is not in the outcome. */
  lemma NotInOutcome(link: Link, tbl: Table, t: string, ids: seq<string>, k: nat, prev: string, n: int)
    requires KeepsRest(link) && Idle(tbl, t, ids, k) && !Holds(tbl, t, n) && !Wanted(tbl, ids, k, n)
    ensures !Holds(Outcome(link, tbl, t, ids, k, prev), t, n)
  {
    var out := Outcome(link, tbl, t, ids, k, prev);
    JobAdvances(link, tbl, t, ids, k, prev);
    forall o | o in tbl
      ensures out[o].tenant == tbl[o].tenant
    {
      TimeStays(link, tbl, t, ids, k, prev, o);
    }
  }

  /** A row inserted during the job keeps the beginning if and only if its number is positive and not wanted. */
  lemma InsertDuringJobBeginsIff(link: Link, tbl: Table, t: string, ids: seq<string>, k: nat, prev: string, p: seq<Row>, id: string, r: Row)
    requires KeepsRest(link) && Idle(tbl, t, ids, k) && Newcomer(tbl, t, ids, id, r) && !Holds(tbl, t, r.seqNo)
    requires Numbered(p) && OfTenant(p, t) && Begins(Outcome(link, tbl, t, ids, k, prev), t, p)
    ensures Begins(Outcome(link, tbl[id := r], t, ids, k, prev), t, p) <==> r.seqNo >= 1 && !Wanted(tbl, ids, k, r.seqNo)
  {
    BeginsIsClear(link, tbl, t, ids, k, prev, p);
    if Wanted(tbl, ids, k, r.seqNo) {
      WantedBlocks(link, tbl, t, ids, k, prev, id, r);
      if Begins(Outcome(link, tbl[id := r], t, ids, k, prev), t, p) {
        BeginsIsClear(link, tbl[id := r], t, ids, k, prev, p);
      }
    } else {
      UnwantedIsIgnored(link, tbl, t, ids, k, prev, id, r);
      NotInOutcome(link, tbl, t, ids, k, prev, r.seqNo);
      AddRowBeginsIff(Outcome(link, tbl, t, ids, k, prev), t, p, id, r);
    }
  }

  /** A purge during the job keeps the beginning if and only if it spares it and cuts the job's work off at one place. */
  lemma PurgeDuringJobBeginsIff(link: Link, tbl: Table, t: string, ids: seq<string>, k: nat, prev: string, p: seq<Row>, before: int)
    requires KeepsRest(link) && Idle(tbl, t, ids, k) && Begins(Outcome(link, tbl, t, ids, k, prev), t, p)
    ensures Begins(Outcome(link, Purged(tbl, before), t, ids, k, prev), t, p)
            <==> !Hits(p, before) && CutsWork(tbl, ids, k, before)
  {
    var left := Purged(tbl, before);
    BeginsIsClear(link, tbl, t, ids, k, prev, p);
    PurgedIsClearIff(tbl, t, ids, k, before);
    if Begins(Outcome(link, left, t, ids, k, prev), t, p) {
      BeginsIsClear(link, left, t, ids, k, prev, p);
    }
    if Clear(left, t, ids, k) {
      PurgeCommutes(link, tbl, t, ids, k, prev, before);
      PurgeBeginsIff(Outcome(link, tbl, t, ids, k, prev), t, p, before);
    }
  }

  // ---------- a job from its start ----------

  /** On a table without negative numbers the job will leave the re-anchored log. */
  lemma FreshJob(sha: Digest, tbl: Table, t: string, ids: seq<string>)
    requires EnumeratesTenant(tbl, ids, t)
    requires forall id | id in tbl && tbl[id].tenant == t :: tbl[id].seqNo >= 1
    ensures Idle(Negated(tbl, t), t, ids, 0)
    ensures Done(Reanchored(sha, Fetch(tbl, ids)), tbl, t, ids, |ids|, Outcome(Linking(sha), Negated(tbl, t), t, ids, 0, ""))
  {
    var rows := Reanchored(sha, Fetch(tbl, ids));
    ReanchoredIsPlan(sha, tbl, ids);
    NegatedIsDone(rows, tbl, t, ids);
    Undisturbed(sha, rows, tbl, Negated(tbl, t), t, ids, 0, |ids|);
    assert forall i | 0 <= i < |ids| :: !ClashAt(tbl, ids, i);
  }

  lemma DoneListing(rows: seq<Row>, tbl: Table, t: string, ids: seq<string>, out: Table)
    requires EnumeratesTenant(tbl, ids, t) && OfTenant(rows, t) && Done(rows, tbl, t, ids, |ids|, out)
    ensures EnumeratesTenant(out, ids, t) && Fetch(out, ids) == rows
  {
    forall id | id in out && out[id].tenant == t
      ensures id in ids
    {
      assert tbl[id].tenant == t;
    }
  }

  /** And so it is valid, and unchanged where it was valid before. */
  lemma FreshJobSettles(sha: Digest, tbl: Table, t: string, ids: seq<string>)
    requires EnumeratesTenant(tbl, ids, t)
    requires forall id | id in tbl && tbl[id].tenant == t :: tbl[id].seqNo >= 1
    ensures Idle(Negated(tbl, t), t, ids, 0)
    ensures var out := Outcome(Linking(sha), Negated(tbl, t), t, ids, 0, "");
            && Chained(sha, out, t, ids)
            && Fetch(out, ids) == Reanchored(sha, Fetch(tbl, ids))
            && (Accepted(sha, Fetch(tbl, ids)) ==> out == tbl)
  {
    var rows, out := Reanchored(sha, Fetch(tbl, ids)), Outcome(Linking(sha), Negated(tbl, t), t, ids, 0, "");
    FreshJob(sha, tbl, t, ids);
    ReanchorIsAccepted(sha, Fetch(tbl, ids));
    assert OfTenant(rows, t);
    DoneListing(rows, tbl, t, ids, out);
    if Accepted(sha, Fetch(tbl, ids)) {
      ReanchorIsIdentityIff(sha, Fetch(tbl, ids));
      DoneIsSame(rows, tbl, t, ids, out);
    }
  }

  lemma DoneIsSame(rows: seq<Row>, tbl: Table, t: string, ids: seq<string>, out: Table)
    requires EnumeratesTenant(tbl, ids, t) && rows == Fetch(tbl, ids) && Done(rows, tbl, t, ids, |ids|, out)
    ensures out == tbl
  {
    forall id | id in tbl
      ensures out[id] == tbl[id]
    {
      if tbl[id].tenant == t {
        assert id in ids;
        var i :| 0 <= i < |ids| && ids[i] == id;
      }
    }
  }
}
