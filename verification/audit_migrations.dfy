/**
 The migrations that write the audit chain: the relinking pass (v7 and v69), the
 renumbering of v24 and the rehash of v66, and what the drill's checker says afterwards.
 */
module AuditMigrations {
  import opened AuditLog
  import opened Tables

  /** The audit table by row id. */
  type Table = map<string, Row>

  function Fetch(tbl: Table, ids: seq<string>): (rows: seq<Row>)
    requires Stored(tbl, ids)
    ensures |rows| == |ids|
  {
    seq(|ids|, i requires 0 <= i < |ids| => tbl[ids[i]])
  }

  /** The ids of one tenant's rows, in the given order. */
  function Of(tbl: Table, ids: seq<string>, t: string): (r: seq<string>)
    requires Stored(tbl, ids)
    ensures Stored(tbl, r)
    ensures forall i | 0 <= i < |r| :: r[i] in ids && tbl[r[i]].tenant == t
  {
    if ids == [] then []
    else
      var front := Of(tbl, ids[..|ids| - 1], t);
      if tbl[ids[|ids| - 1]].tenant == t then front + [ids[|ids| - 1]] else front
  }

  /** A query for one tenant's rows, in any order. */
  ghost predicate EnumeratesTenant(tbl: Table, ids: seq<string>, t: string) {
    && Distinct(ids)
    && Stored(tbl, ids)
    && (forall i | 0 <= i < |ids| :: tbl[ids[i]].tenant == t)
    && forall id | id in tbl && tbl[id].tenant == t :: id in ids
  }

  /** Rows of one tenant come in ascending sequence order. */
  ghost predicate AscendingSeq(tbl: Table, ids: seq<string>)
    requires Stored(tbl, ids)
  {
    forall i, j | 0 <= i < j < |ids| && tbl[ids[i]].tenant == tbl[ids[j]].tenant ::
      tbl[ids[i]].seqNo <= tbl[ids[j]].seqNo
  }

  // ---------- the relinking pass ----------

  /** Sets the predecessor hash and the hash that follows from it. */
  function Chain(sha: Digest, prev: string, r: Row): Row {
    r.(prevHash := prev, hash := AuditHash(sha, prev, r))
  }

  /** The fold over one tenant's records that a relinking pass performs. */
  function Relink(sha: Digest, rows: seq<Row>): (out: seq<Row>)
    ensures |out| == |rows|
  {
    if rows == [] then []
    else
      var front := Relink(sha, rows[..|rows| - 1]);
      front + [Chain(sha, LastHash(front), rows[|rows| - 1])]
  }

  /** Relinking yields a correct chain from any stored hashes and keeps everything else. */
  lemma {:induction false} RelinkIsLinked(sha: Digest, rows: seq<Row>)
    ensures Linked(sha, Relink(sha, rows))
    ensures forall i | 0 <= i < |rows| ::
              Relink(sha, rows)[i] == rows[i].(prevHash := Relink(sha, rows)[i].prevHash, hash := Relink(sha, rows)[i].hash)
  {
    if rows != [] {
      var n := |rows| - 1;
      RelinkIsLinked(sha, rows[..n]);
      var front, out := Relink(sha, rows[..n]), Relink(sha, rows);
      forall i | 0 <= i < |out|
        ensures ChainedAt(sha, out, i)
      {
        assert PrevOf(out, i) == PrevOf(front, i);
        if i < n { assert ChainedAt(sha, front, i); }
      }
    }
  }

  /** Every tenant's records, in the order of the pass, became their own fold. */
  ghost predicate Relinked(sha: Digest, before: Table, ids: seq<string>, after: Table)
    requires Stored(before, ids)
  {
    && after.Keys == before.Keys
    && forall t :: Fetch(after, Of(before, ids, t)) == Relink(sha, Fetch(before, Of(before, ids, t)))
  }

  /** The relinking of the rows passed so far, for one tenant. */
  ghost predicate RelinkedSoFar(sha: Digest, before: Table, done: seq<string>, after: Table, prev: map<string, string>, t: string)
    requires Stored(before, done) && after.Keys == before.Keys
  {
    var mine := Of(before, done, t);
    && Fetch(after, mine) == Relink(sha, Fetch(before, mine))
    && Lookup(prev, t) == LastHash(Fetch(after, mine))
  }

  /** A map read: a missing tenant has the empty hash. */
  function Lookup(prev: map<string, string>, t: string): string {
    if t in prev then prev[t] else ""
  }

  ghost predicate PassInvariant(sha: Digest, before: Table, done: seq<string>, after: Table, prev: map<string, string>) {
    && Stored(before, done)
    && after.Keys == before.Keys
    && forall t :: RelinkedSoFar(sha, before, done, after, prev, t)
  }

  /**
   The single pass over all tenants with a per-tenant map of previous hashes. It equals
   the per-tenant fold whatever the interleaving of the tenants in the query result.
   */
  method RelinkPass(sha: Digest, tbl: Table, ids: seq<string>) returns (out: Table)
    requires Enumerates(tbl, ids)
    ensures Relinked(sha, tbl, ids, out)
  {
    out := tbl;
    var prev: map<string, string> := map[];
    PassStart(sha, tbl);
    assert ids[..0] == [];
    for k := 0 to |ids|
      invariant PassInvariant(sha, tbl, ids[..k], out, prev)
    {
      assert ids[k] !in ids[..k];
      assert ids[..k + 1] == ids[..k] + [ids[k]];
      out, prev := RelinkRow(sha, tbl, ids[..k], ids[k], out, prev);
    }
    assert ids[..|ids|] == ids;
    PassEnd(sha, tbl, ids, out, prev);
  }

  /** The body of the loop: one row gets its tenant's last hash as predecessor and becomes the last itself. */
  method RelinkRow(sha: Digest, tbl: Table, ghost done: seq<string>, id: string, out: Table, prev: map<string, string>)
    returns (out': Table, prev': map<string, string>)
    requires PassInvariant(sha, tbl, done, out, prev) && id in tbl && id !in done
    ensures PassInvariant(sha, tbl, done + [id], out', prev')
  {
    PassStep(sha, tbl, done, id, out, prev);
    var row := tbl[id];
    var chained := Chain(sha, Lookup(prev, row.tenant), row);
    out' := out[id := chained];
    prev' := prev[row.tenant := chained.hash];
  }

  lemma PassStart(sha: Digest, tbl: Table)
    ensures PassInvariant(sha, tbl, [], tbl, map[])
  {
    forall t
      ensures RelinkedSoFar(sha, tbl, [], tbl, map[], t)
    {
      assert Fetch(tbl, []) == [];
    }
  }

  lemma PassEnd(sha: Digest, tbl: Table, ids: seq<string>, out: Table, prev: map<string, string>)
    requires PassInvariant(sha, tbl, ids, out, prev)
    ensures Relinked(sha, tbl, ids, out)
  {
    forall t
      ensures Fetch(out, Of(tbl, ids, t)) == Relink(sha, Fetch(tbl, Of(tbl, ids, t)))
    {
      assert RelinkedSoFar(sha, tbl, ids, out, prev, t);
    }
  }

  lemma PassStep(sha: Digest, tbl: Table, done: seq<string>, id: string, out: Table, prev: map<string, string>)
    requires PassInvariant(sha, tbl, done, out, prev) && id in tbl && id !in done
    ensures var chained := Chain(sha, Lookup(prev, tbl[id].tenant), tbl[id]);
            PassInvariant(sha, tbl, done + [id], out[id := chained], prev[tbl[id].tenant := chained.hash])
  {
    var chained := Chain(sha, Lookup(prev, tbl[id].tenant), tbl[id]);
    var done', out', prev' := done + [id], out[id := chained], prev[tbl[id].tenant := chained.hash];
    forall t
      ensures RelinkedSoFar(sha, tbl, done', out', prev', t)
    {
      assert RelinkedSoFar(sha, tbl, done, out, prev, t);
      TenantStep(sha, tbl, done, id, out, prev, t);
    }
  }

  /** The step seen by one tenant: its fold grows by the row if the row is its own, and stays otherwise. */
  lemma TenantStep(sha: Digest, tbl: Table, done: seq<string>, id: string, out: Table, prev: map<string, string>, t: string)
    requires Stored(tbl, done) && out.Keys == tbl.Keys && id in tbl && id !in done
    requires RelinkedSoFar(sha, tbl, done, out, prev, t)
    ensures var chained := Chain(sha, Lookup(prev, tbl[id].tenant), tbl[id]);
            && Stored(tbl, done + [id])
            && RelinkedSoFar(sha, tbl, done + [id], out[id := chained], prev[tbl[id].tenant := chained.hash], t)
  {
    var out' := out[id := Chain(sha, Lookup(prev, tbl[id].tenant), tbl[id])];
    var mine := Of(tbl, done, t);
    assert (done + [id])[..|done|] == done;
    assert Fetch(out', mine) == Fetch(out, mine);
    if tbl[id].tenant == t {
      FoldStep(sha, tbl, mine, id, out, out');
    }
  }

  lemma FoldStep(sha: Digest, tbl: Table, mine: seq<string>, id: string, out: Table, out': Table)
    requires Stored(tbl, mine) && Stored(out, mine) && Stored(out', mine) && id in tbl && id in out'
    requires Fetch(out, mine) == Fetch(out', mine) == Relink(sha, Fetch(tbl, mine))
    requires out'[id] == Chain(sha, LastHash(Fetch(out, mine)), tbl[id])
    ensures Fetch(out', mine + [id]) == Relink(sha, Fetch(tbl, mine + [id]))
    ensures LastHash(Fetch(out', mine + [id])) == out'[id].hash
  {
    var rows := Fetch(tbl, mine + [id]);
    assert rows[..|rows| - 1] == Fetch(tbl, mine);
    assert Fetch(out', mine + [id]) == Fetch(out', mine) + [out'[id]];
  }

  // ---------- v24: renumbering ----------

  /** The i-th of these rows got sequence number i + 1 and changed nowhere else. */
  ghost predicate RenumberedRows(before: Table, rows: seq<string>, after: Table) {
    && Stored(before, rows) && Stored(after, rows)
    && forall i | 0 <= i < |rows| :: after[rows[i]] == before[rows[i]].(seqNo := i + 1)
  }

  /** Row order[i] of each listed tenant got sequence number i + 1; nothing else changed. */
  ghost predicate Renumbered(before: Table, tenants: seq<string>, order: string -> seq<string>, after: Table)
    requires forall t | t in tenants :: EnumeratesTenant(before, order(t), t)
  {
    && after.Keys == before.Keys
    && (forall t | t in tenants :: RenumberedRows(before, order(t), after))
    && forall id | id in before && before[id].tenant !in tenants :: after[id] == before[id]
  }

  /** Renumbers every tenant's rows 1, 2, 3, ... in the order its query returned them. */
  method Renumber(tbl: Table, tenants: seq<string>, order: string -> seq<string>) returns (out: Table)
    requires Distinct(tenants)
    requires forall t | t in tenants :: EnumeratesTenant(tbl, order(t), t)
    ensures Renumbered(tbl, tenants, order, out)
  {
    out := tbl;
    for k := 0 to |tenants|
      invariant RenumberedUpTo(tbl, tenants, k, order, out)
    {
      assert EnumeratesTenant(tbl, order(tenants[k]), tenants[k]);
      UntouchedRows(tbl, tenants, k, order, out);
      ghost var start := out;
      out := RenumberTenant(tbl, out, tenants[k], order(tenants[k]));
      RenumberStep(tbl, tenants, k, order, start, out);
    }
    assert tenants[..|tenants|] == tenants;
  }

  /** The first k tenants are renumbered, and the rows of the others are as they were. */
  ghost predicate RenumberedUpTo(before: Table, tenants: seq<string>, k: nat, order: string -> seq<string>, after: Table) {
    && k <= |tenants|
    && after.Keys == before.Keys
    && (forall j | 0 <= j < k :: RenumberedRows(before, order(tenants[j]), after))
    && forall id | id in before && before[id].tenant !in tenants[..k] :: after[id] == before[id]
  }

  lemma UntouchedRows(tbl: Table, tenants: seq<string>, k: nat, order: string -> seq<string>, out: Table)
    requires RenumberedUpTo(tbl, tenants, k, order, out) && k < |tenants| && Distinct(tenants)
    requires EnumeratesTenant(tbl, order(tenants[k]), tenants[k])
    ensures forall i | 0 <= i < |order(tenants[k])| :: out[order(tenants[k])[i]] == tbl[order(tenants[k])[i]]
  {
    assert tenants[k] !in tenants[..k];
  }

  lemma RenumberStep(tbl: Table, tenants: seq<string>, k: nat, order: string -> seq<string>, start: Table, out: Table)
    requires RenumberedUpTo(tbl, tenants, k, order, start) && k < |tenants| && Distinct(tenants)
    requires forall t | t in tenants :: EnumeratesTenant(tbl, order(t), t)
    requires out.Keys == tbl.Keys && RenumberedRows(tbl, order(tenants[k]), out)
    requires forall id | id in tbl && tbl[id].tenant != tenants[k] :: out[id] == start[id]
    ensures RenumberedUpTo(tbl, tenants, k + 1, order, out)
  {
    assert tenants[..k + 1] == tenants[..k] + [tenants[k]];
    forall j | 0 <= j < k
      ensures RenumberedRows(tbl, order(tenants[j]), out)
    {
      assert RenumberedRows(tbl, order(tenants[j]), start);
      assert EnumeratesTenant(tbl, order(tenants[j]), tenants[j]);
    }
  }

  /** The inner loop: one tenant's rows get 1, 2, 3, ... */
  method RenumberTenant(tbl: Table, start: Table, t: string, rows: seq<string>) returns (out: Table)
    requires start.Keys == tbl.Keys && EnumeratesTenant(tbl, rows, t)
    requires forall i | 0 <= i < |rows| :: start[rows[i]] == tbl[rows[i]]
    ensures out.Keys == tbl.Keys && RenumberedRows(tbl, rows, out)
    ensures forall id | id in tbl && tbl[id].tenant != t :: out[id] == start[id]
  {
    out := start;
    for i := 0 to |rows|
      invariant out.Keys == tbl.Keys
      invariant forall h | 0 <= h < i :: out[rows[h]] == tbl[rows[h]].(seqNo := h + 1)
      invariant forall h | i <= h < |rows| :: out[rows[h]] == tbl[rows[h]]
      invariant forall id | id in tbl && tbl[id].tenant != t :: out[id] == start[id]
    {
      out := out[rows[i] := out[rows[i]].(seqNo := i + 1)];
    }
  }

  // ---------- v66: rehashing without relinking ----------

  function Rehash(sha: Digest, r: Row): Row {
    r.(hash := AuditHash(sha, r.prevHash, r))
  }

  function RehashAll(sha: Digest, rows: seq<Row>): (out: seq<Row>)
    ensures |out| == |rows|
    ensures forall i | 0 <= i < |rows| :: out[i] == Rehash(sha, rows[i])
  {
    seq(|rows|, i requires 0 <= i < |rows| => Rehash(sha, rows[i]))
  }

  /** Recomputes each hash from the predecessor hash already stored in the row. */
  method RehashPass(sha: Digest, tbl: Table, ids: seq<string>) returns (out: Table)
    requires Enumerates(tbl, ids)
    ensures out.Keys == tbl.Keys
    ensures forall id | id in tbl :: out[id] == tbl[id].(hash := AuditHash(sha, tbl[id].prevHash, tbl[id]))
    ensures forall id | id in tbl :: out[id] == Rehash(sha, tbl[id])
  {
    out := RewriteChanged(tbl, ids, r => Rehash(sha, r));
  }

  /** The loop: every row is recomputed and written back only where that changes it. */
  method RewriteChanged(tbl: Table, ids: seq<string>, recompute: Row -> Row) returns (out: Table)
    requires Enumerates(tbl, ids)
    ensures out.Keys == tbl.Keys
    ensures forall id | id in tbl :: out[id] == recompute(tbl[id])
  {
    out := tbl;
    for k := 0 to |ids|
      invariant out.Keys == tbl.Keys
      invariant forall j | 0 <= j < k :: out[ids[j]] == recompute(tbl[ids[j]])
      invariant forall j | k <= j < |ids| :: out[ids[j]] == tbl[ids[j]]
    {
      var row := recompute(tbl[ids[k]]);
      if row != tbl[ids[k]] {
        out := out[ids[k] := row];
      }
    }
    forall id | id in tbl
      ensures out[id] == recompute(tbl[id])
    {
      var j :| 0 <= j < |ids| && ids[j] == id;
    }
  }

  /** The predecessor links of the log are intact, whatever the hashes. */
  predicate LinksIntact(rows: seq<Row>) {
    forall i | 0 <= i < |rows| :: rows[i].prevHash == PrevOf(rows, i)
  }

  /**
   v66 keeps a log whose links were intact a correct chain if and only if it changed no
   hash but possibly the last: rewriting any earlier hash leaves its successor pointing at
   the old one.
   */
  lemma RehashKeepsChainIff(sha: Digest, rows: seq<Row>)
    requires LinksIntact(rows)
    ensures Linked(sha, RehashAll(sha, rows))
            <==> forall i | 0 <= i < |rows| - 1 :: Rehash(sha, rows[i]).hash == rows[i].hash
  {
    var out := RehashAll(sha, rows);
    if Linked(sha, out) {
      forall i | 0 <= i < |rows| - 1
        ensures Rehash(sha, rows[i]).hash == rows[i].hash
      {
        assert ChainedAt(sha, out, i + 1);
      }
    }
    if forall i | 0 <= i < |rows| - 1 :: Rehash(sha, rows[i]).hash == rows[i].hash {
      forall i | 0 <= i < |out|
        ensures ChainedAt(sha, out, i)
      {
        if i > 0 { assert Rehash(sha, rows[i - 1]).hash == rows[i - 1].hash; }
        assert PrevOf(out, i) == rows[i].prevHash;
      }
    }
  }

  /** With every digest v66 can break a chain: the first hash is out of date and the second record names it. */
  lemma RehashCanBreakChain(sha: Digest, t: string, at: int, payload: Payload)
    ensures exists rows :: LinksIntact(rows) && OfTenant(rows, t) && Numbered(rows) && !Linked(sha, RehashAll(sha, rows))
  {
    var first := Row(t, at, 1, payload, "", "");
    first := first.(hash := AuditHash(sha, "", first) + "x");
    var second := Row(t, at, 2, payload, first.hash, "");
    var rows := [first, second];
    assert Preimage("", first) == Preimage("", first.(hash := ""));
    assert |Rehash(sha, rows[0]).hash| < |rows[0].hash|;
    RehashKeepsChainIff(sha, rows);
    assert LinksIntact(rows) && OfTenant(rows, t) && Numbered(rows) && !Linked(sha, RehashAll(sha, rows));
  }

  // ---------- the checker after the migrations ----------

  lemma {:induction false} DistinctLength(ids: seq<string>)
    requires Distinct(ids)
    ensures |set id | id in ids| == |ids|
  {
    if ids != [] {
      var n := |ids| - 1;
      DistinctLength(ids[..n]);
      assert (set id | id in ids) == (set id | id in ids[..n]) + {ids[n]} by {
        assert ids == ids[..n] + [ids[n]];
      }
      assert ids[n] !in ids[..n];
    }
  }

  lemma SameLength(tbl: Table, p: seq<string>, r: seq<string>, t: string)
    requires EnumeratesTenant(tbl, p, t) && EnumeratesTenant(tbl, r, t)
    ensures |p| == |r|
  {
    DistinctLength(p);
    DistinctLength(r);
    assert (set id | id in p) == (set id | id in r);
  }

  /**
   If some enumeration of a tenant's rows is numbered 1..n, then it is the only ascending
   one: the query in sequence order must return exactly it.
   */
  lemma AscendingIsNumbering(tbl: Table, p: seq<string>, r: seq<string>, t: string)
    requires EnumeratesTenant(tbl, p, t) && EnumeratesTenant(tbl, r, t)
    requires Numbered(Fetch(tbl, p))
    requires AscendingSeq(tbl, r)
    ensures r == p
  {
    SameLength(tbl, p, r, t);
    forall i | 0 <= i < |r|
      ensures 1 <= tbl[r[i]].seqNo <= |p| && p[tbl[r[i]].seqNo - 1] == r[i]
    {
      assert r[i] in p;
      PlaceInNumbering(tbl, p, r[i]);
    }
    StrictlyAscending(tbl, p, r);
    forall i | 0 <= i < |r|
      ensures tbl[r[i]].seqNo == i + 1
    {
      AtLeastPosition(tbl, r, i);
      AtMostPosition(tbl, r, i);
    }
  }

  /** In a list numbered 1..n each row stands at the place its number says. */
  lemma PlaceInNumbering(tbl: Table, p: seq<string>, id: string)
    requires Stored(tbl, p) && Numbered(Fetch(tbl, p)) && id in p
    ensures 1 <= tbl[id].seqNo <= |p| && p[tbl[id].seqNo - 1] == id
  {
    var j :| 0 <= j < |p| && p[j] == id;
    assert Fetch(tbl, p)[j].seqNo == j + 1;
  }

  lemma StrictlyAscending(tbl: Table, p: seq<string>, r: seq<string>)
    requires Stored(tbl, r) && Distinct(r)
    requires forall i, j | 0 <= i < j < |r| :: tbl[r[i]].seqNo <= tbl[r[j]].seqNo
    requires forall i | 0 <= i < |r| :: 1 <= tbl[r[i]].seqNo <= |p| && p[tbl[r[i]].seqNo - 1] == r[i]
    ensures forall i, j | 0 <= i < j < |r| :: tbl[r[i]].seqNo < tbl[r[j]].seqNo
  {
    forall i, j | 0 <= i < j < |r|
      ensures tbl[r[i]].seqNo < tbl[r[j]].seqNo
    {
      assert r[i] != r[j];
    }
  }

  lemma {:induction false} AtLeastPosition(tbl: Table, r: seq<string>, i: nat)
    requires Stored(tbl, r) && i < |r|
    requires forall a, b | 0 <= a < b < |r| :: tbl[r[a]].seqNo < tbl[r[b]].seqNo
    requires forall a | 0 <= a < |r| :: 1 <= tbl[r[a]].seqNo
    ensures tbl[r[i]].seqNo >= i + 1
  {
    if i > 0 { AtLeastPosition(tbl, r, i - 1); }
  }

  lemma {:induction false} AtMostPosition(tbl: Table, r: seq<string>, i: nat)
    requires Stored(tbl, r) && i < |r|
    requires forall a, b | 0 <= a < b < |r| :: tbl[r[a]].seqNo < tbl[r[b]].seqNo
    requires forall a | 0 <= a < |r| :: tbl[r[a]].seqNo <= |r|
    ensures tbl[r[i]].seqNo <= i + 1
    decreases |r| - i
  {
    if i + 1 < |r| { AtMostPosition(tbl, r, i + 1); }
  }

  /** One tenant's share of a full enumeration enumerates that tenant and keeps the order. */
  lemma {:induction false} OfEnumerates(tbl: Table, ids: seq<string>, t: string)
    requires Distinct(ids) && Stored(tbl, ids)
    ensures Distinct(Of(tbl, ids, t))
    ensures forall id | id in ids && tbl[id].tenant == t :: id in Of(tbl, ids, t)
    ensures AscendingSeq(tbl, ids) ==> AscendingSeq(tbl, Of(tbl, ids, t))
  {
    if ids != [] {
      var n := |ids| - 1;
      assert ids == ids[..n] + [ids[n]];
      OfEnumerates(tbl, ids[..n], t);
      var front := Of(tbl, ids[..n], t);
      forall i | 0 <= i < |front|
        ensures front[i] != ids[n]
        ensures AscendingSeq(tbl, ids) && tbl[ids[n]].tenant == t ==> tbl[front[i]].seqNo <= tbl[ids[n]].seqNo
      {
        var j :| 0 <= j < n && ids[..n][j] == front[i];
        assert ids[j] == front[i];
      }
    }
  }

  /**
   After the relinking pass of v69 the checker accepts a tenant, whatever hashes were
   stored before, if and only if that tenant's sequence numbers had no gap.
   */
  lemma RelinkAcceptedIff(sha: Digest, before: Table, ids: seq<string>, after: Table, t: string, r: seq<string>)
    requires Enumerates(before, ids) && AscendingSeq(before, ids)
    requires Relinked(sha, before, ids, after)
    requires EnumeratesTenant(after, r, t) && AscendingSeq(after, r)
    ensures Accepted(sha, Fetch(after, r)) <==> Numbered(Fetch(before, Of(before, ids, t)))
  {
    var mine := Of(before, ids, t);
    RelinkedShare(sha, before, ids, after, t);
    if Numbered(Fetch(after, mine)) {
      AscendingIsNumbering(after, mine, r, t);
    }
    if Numbered(Fetch(after, r)) {
      AscendingIsNumbering(after, r, mine, t);
    }
  }

  /** One tenant's share of the relinked table: a correct chain in sequence order with the old numbers. */
  lemma RelinkedShare(sha: Digest, before: Table, ids: seq<string>, after: Table, t: string)
    requires Enumerates(before, ids) && AscendingSeq(before, ids)
    requires Relinked(sha, before, ids, after)
    ensures var mine := Of(before, ids, t);
            && EnumeratesTenant(after, mine, t) && AscendingSeq(after, mine)
            && Linked(sha, Fetch(after, mine))
            && (Numbered(Fetch(after, mine)) <==> Numbered(Fetch(before, mine)))
  {
    var mine := Of(before, ids, t);
    OfEnumerates(before, ids, t);
    RelinkKeepsRest(sha, before, ids, after);
    SameListing(before, after, mine, t);
    assert Linked(sha, Fetch(after, mine)) by {
      RelinkIsLinked(sha, Fetch(before, mine));
      assert Fetch(after, mine) == Relink(sha, Fetch(before, mine));
    }
    SameNumbers(before, after, mine);
  }

  lemma SameListing(before: Table, after: Table, mine: seq<string>, t: string)
    requires EnumeratesTenant(before, mine, t) && AscendingSeq(before, mine)
    requires after.Keys == before.Keys
    requires forall id | id in before :: after[id].tenant == before[id].tenant && after[id].seqNo == before[id].seqNo
    ensures EnumeratesTenant(after, mine, t) && AscendingSeq(after, mine)
  {
  }

  lemma SameNumbers(before: Table, after: Table, mine: seq<string>)
    requires Stored(before, mine) && Stored(after, mine)
    requires forall i | 0 <= i < |mine| :: after[mine[i]].seqNo == before[mine[i]].seqNo
    ensures Numbered(Fetch(after, mine)) <==> Numbered(Fetch(before, mine))
  {
    assert forall i | 0 <= i < |mine| :: Fetch(after, mine)[i].seqNo == Fetch(before, mine)[i].seqNo;
  }

  /** A relinking pass changes only the two hash columns. */
  lemma RelinkKeepsRest(sha: Digest, before: Table, ids: seq<string>, after: Table)
    requires Enumerates(before, ids) && Relinked(sha, before, ids, after)
    ensures forall id | id in before :: after[id] == before[id].(prevHash := after[id].prevHash, hash := after[id].hash)
  {
    forall id | id in before
      ensures after[id] == before[id].(prevHash := after[id].prevHash, hash := after[id].hash)
    {
      var t := before[id].tenant;
      var mine := Of(before, ids, t);
      OfEnumerates(before, ids, t);
      RelinkIsLinked(sha, Fetch(before, mine));
      var i :| 0 <= i < |mine| && mine[i] == id;
      assert Fetch(after, mine)[i] == Relink(sha, Fetch(before, mine))[i];
    }
  }

  /**
   The upgrade path v24, v66, v69 from an arbitrary table: whatever the old numbers and
   hashes, and although v66 may break links in between, the checker accepts every tenant.
   */
  lemma UpgradeIsAccepted(sha: Digest, t0: Table, tenants: seq<string>, order: string -> seq<string>,
                          t1: Table, t2: Table, ids: seq<string>, t3: Table, t: string, r: seq<string>)
    requires forall id | id in t0 :: t0[id].tenant in tenants
    requires forall t | t in tenants :: EnumeratesTenant(t0, order(t), t)
    requires Renumbered(t0, tenants, order, t1)
    requires t2.Keys == t1.Keys && forall id | id in t1 :: t2[id] == Rehash(sha, t1[id])
    requires Enumerates(t2, ids) && AscendingSeq(t2, ids) && Relinked(sha, t2, ids, t3)
    requires EnumeratesTenant(t3, r, t) && AscendingSeq(t3, r)
    ensures Accepted(sha, Fetch(t3, r))
  {
    RenumberKeepsTenants(t0, tenants, order, t1);
    OfEnumerates(t2, ids, t);
    UpgradeNumbers(sha, t0, tenants, order, t1, t2, t, Of(t2, ids, t));
    RelinkAcceptedIff(sha, t2, ids, t3, t, r);
  }

  lemma UpgradeNumbers(sha: Digest, t0: Table, tenants: seq<string>, order: string -> seq<string>,
                       t1: Table, t2: Table, t: string, mine: seq<string>)
    requires forall id | id in t0 :: t0[id].tenant in tenants
    requires forall t | t in tenants :: EnumeratesTenant(t0, order(t), t)
    requires Renumbered(t0, tenants, order, t1)
    requires forall id | id in t0 :: t1[id].tenant == t0[id].tenant
    requires t2.Keys == t1.Keys && forall id | id in t1 :: t2[id] == Rehash(sha, t1[id])
    requires EnumeratesTenant(t2, mine, t) && AscendingSeq(t2, mine)
    ensures Numbered(Fetch(t2, mine))
  {
    if t in tenants {
      var p := order(t);
      assert RenumberedRows(t0, p, t1) && EnumeratesTenant(t0, p, t);
      assert EnumeratesTenant(t2, p, t);
      forall i | 0 <= i < |p|
        ensures Fetch(t2, p)[i].seqNo == i + 1
      {
        assert t1[p[i]] == t0[p[i]].(seqNo := i + 1);
      }
      AscendingIsNumbering(t2, p, mine, t);
    } else if mine != [] {
      RowsHaveTheirTenant(t2, mine, t);
      assert false;
    }
  }

  lemma RowsHaveTheirTenant(tbl: Table, mine: seq<string>, t: string)
    requires EnumeratesTenant(tbl, mine, t) && mine != []
    ensures exists id :: id in tbl && tbl[id].tenant == t
  {
    assert mine[0] in tbl;
  }

  lemma RenumberKeepsTenants(t0: Table, tenants: seq<string>, order: string -> seq<string>, t1: Table)
    requires forall id | id in t0 :: t0[id].tenant in tenants
    requires forall t | t in tenants :: EnumeratesTenant(t0, order(t), t)
    requires Renumbered(t0, tenants, order, t1)
    ensures forall id | id in t0 :: t1[id].tenant == t0[id].tenant
  {
    forall id | id in t0
      ensures t1[id].tenant == t0[id].tenant
    {
      var t := t0[id].tenant;
      assert EnumeratesTenant(t0, order(t), t) && RenumberedRows(t0, order(t), t1);
    }
  }
}
