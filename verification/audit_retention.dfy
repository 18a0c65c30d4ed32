/**
 Retention of the audit log: purge, then re-anchor the tenants that lost rows; what it leaves,
 and what an append of another replica does to it.
 */
module AuditRetention {
  import opened Tables
  import opened AuditLog
  import opened AuditMigrations
  import opened AuditReanchor
  import opened AuditJob
  import opened AuditAppend

  /** Every tenant's rows in sequence order. */
  type Logs = map<string, seq<Row>>

  // ---------- purges of a log ----------

  /** The rows a purge leaves. */
  function Kept(rows: seq<Row>, before: int): seq<Row> {
    if rows == [] then []
    else
      var front := Kept(rows[..|rows| - 1], before);
      if rows[|rows| - 1].at < before then front else front + [rows[|rows| - 1]]
  }

  lemma {:induction false} KeptSplit(rows: seq<Row>, k: nat, before: int)
    requires k <= |rows|
    ensures Kept(rows, before) == Kept(rows[..k], before) + Kept(rows[k..], before)
  {
    if k < |rows| {
      var n := |rows| - 1;
      KeptSplit(rows[..n], k, before);
      assert rows[..n][..k] == rows[..k] && rows[..n][k..] == rows[k..][..n - k];
      assert rows[k..][n - k] == rows[n];
    } else {
      assert rows[..k] == rows && rows[k..] == [];
    }
  }

  /** The rows that are kept are exactly the young ones, in their order. */
  lemma {:induction false} KeptMembers(rows: seq<Row>, before: int)
    ensures forall x :: x in Kept(rows, before) <==> x in rows && x.at >= before
    ensures multiset(Kept(rows, before)) <= multiset(rows)
  {
    if rows != [] {
      var front, last := rows[..|rows| - 1], rows[|rows| - 1];
      KeptMembers(front, before);
      assert rows == front + [last];
    }
  }

  /** The purge decides row by row and keeps the order: what is kept of two parts is what is kept of each. */
  lemma {:induction false} KeptOfParts(a: seq<Row>, b: seq<Row>, before: int)
    ensures Kept(a + b, before) == Kept(a, before) + Kept(b, before)
    ensures |b| == 1 ==> Kept(b, before) == if b[0].at < before then [] else b
  {
    if b == [] {
      assert a + b == a;
    } else {
      var n := |b| - 1;
      KeptOfParts(a, b[..n], before);
      assert (a + b)[..|a| + n] == a + b[..n];
    }
  }

  /** Nothing is deleted exactly when every row is young enough. */
  lemma {:induction false} KeptAllIff(rows: seq<Row>, before: int)
    ensures |Kept(rows, before)| <= |rows|
    ensures |Kept(rows, before)| == |rows| <==> forall i | 0 <= i < |rows| :: rows[i].at >= before
    ensures |Kept(rows, before)| == |rows| ==> Kept(rows, before) == rows
  {
    if rows != [] {
      KeptAllIff(rows[..|rows| - 1], before);
    }
  }

  /** The first surviving row from position k on follows the survivors before it. */
  lemma KeptAt(rows: seq<Row>, k: nat, before: int)
    requires k < |rows| && rows[k].at >= before
    ensures |Kept(rows[..k], before)| < |Kept(rows, before)|
    ensures Kept(rows, before)[|Kept(rows[..k], before)|] == rows[k]
  {
    KeptSplit(rows, k, before);
    KeptSplit(rows[k..], 1, before);
    var one := rows[k..][..1];
    assert one == [rows[k]] && one[..0] == [];
    assert Kept(one, before) == [rows[k]];
  }

  lemma {:induction false} TailPurgeLeavesPrefix(rows: seq<Row>, before: int)
    requires PurgesTail(rows, before)
    ensures Kept(rows, before) <= rows
  {
    if rows != [] {
      var front := rows[..|rows| - 1];
      TailPurgeLeavesPrefix(front, before);
      KeptAllIff(front, before);
    }
  }

  /** A purge leaves an accepted log accepted if and only if it deletes no row before a surviving one. */
  lemma PurgeAcceptedIff(sha: Digest, rows: seq<Row>, before: int)
    requires Accepted(sha, rows)
    ensures Accepted(sha, Kept(rows, before)) <==> PurgesTail(rows, before)
  {
    if PurgesTail(rows, before) {
      TailPurgeLeavesPrefix(rows, before);
      PrefixAccepted(sha, rows, |Kept(rows, before)|);
      assert rows[..|Kept(rows, before)|] == Kept(rows, before);
    } else {
      var i, j :| 0 <= i < j < |rows| && rows[i].at < before && rows[j].at >= before;
      KeptAt(rows, j, before);
      KeptAllIff(rows[..j], before);
      assert rows[..j][i].at < before;
      assert rows[j].seqNo == j + 1;
    }
  }

  // ---------- the job ----------

  /** How many rows a purge deletes. */
  function Lost(rows: seq<Row>, before: int): (n: nat)
    ensures n == 0 <==> forall i | 0 <= i < |rows| :: rows[i].at >= before
  {
    KeptAllIff(rows, before);
    |rows| - |Kept(rows, before)|
  }

  /** Deletes the old rows and counts them by tenant; tenants that lose none are not counted. */
  method PurgeAuditBefore(logs: Logs, before: int) returns (out: Logs, deleted: map<string, nat>)
    ensures out == PurgedLogs(logs, before)
    ensures deleted == map t | t in logs && Lost(logs[t], before) > 0 :: Lost(logs[t], before)
  {
    deleted := map t | t in logs && Lost(logs[t], before) > 0 :: Lost(logs[t], before);
    out := PurgedLogs(logs, before);
  }

  function PurgedLogs(logs: Logs, before: int): Logs {
    map t | t in logs :: Kept(logs[t], before)
  }

  /** A repair was applied to the logs of the listed tenants with an id; the other logs are as they were. */
  ghost predicate AppliedTo(repair: seq<Row> -> seq<Row>, logs: Logs, tenants: seq<string>, out: Logs) {
    && out.Keys == logs.Keys
    && forall t | t in logs :: out[t] == if t in tenants && t != "" then repair(logs[t]) else logs[t]
  }

  lemma OneMoreTenant(repair: seq<Row> -> seq<Row>, logs: Logs, tenants: seq<string>, t: string, out: Logs)
    requires AppliedTo(repair, logs, tenants, out)
    requires forall rows :: repair(repair(rows)) == repair(rows)
    ensures if t == "" || t !in out then AppliedTo(repair, logs, tenants + [t], out)
            else AppliedTo(repair, logs, tenants + [t], out[t := repair(out[t])])
  {
  }

  function Reanchoring(sha: Digest): seq<Row> -> seq<Row> {
    (rows: seq<Row>) => Reanchored(sha, rows)
  }

  /** Re-anchors the listed tenants one after the other; the empty tenant id is skipped. */
  method ReanchorAuditChains(sha: Digest, logs: Logs, tenants: seq<string>) returns (out: Logs)
    ensures out.Keys == logs.Keys
    ensures forall t | t in logs :: out[t] == if t in tenants && t != "" then Reanchored(sha, logs[t]) else logs[t]
  {
    forall rows
      ensures Reanchoring(sha)(Reanchoring(sha)(rows)) == Reanchoring(sha)(rows)
    {
      ReanchorTwice(sha, rows);
    }
    out := RepairEach(Reanchoring(sha), logs, tenants);
  }

  method RepairEach(repair: seq<Row> -> seq<Row>, logs: Logs, tenants: seq<string>) returns (out: Logs)
    requires forall rows :: repair(repair(rows)) == repair(rows)
    ensures AppliedTo(repair, logs, tenants, out)
  {
    out := logs;
    for k := 0 to |tenants|
      invariant AppliedTo(repair, logs, tenants[..k], out)
    {
      var t := tenants[k];
      assert tenants[..k + 1] == tenants[..k] + [t];
      OneMoreTenant(repair, logs, tenants[..k], t, out);
      if t == "" || t !in out {
        continue;
      }
      out := out[t := repair(out[t])];
    }
    assert tenants[..|tenants|] == tenants;
  }

  lemma ReanchorTwice(sha: Digest, rows: seq<Row>)
    ensures Reanchored(sha, Reanchored(sha, rows)) == Reanchored(sha, rows)
  {
    ReanchorIsAccepted(sha, rows);
    ReanchorIsIdentityIff(sha, Reanchored(sha, rows));
  }

  /** What retention makes of one tenant's log. */
  function Retained(sha: Digest, t: string, rows: seq<Row>, before: int): seq<Row> {
    if Lost(rows, before) > 0 && t != "" then Reanchored(sha, Kept(rows, before)) else Kept(rows, before)
  }

  method RunAuditRetention(sha: Digest, logs: Logs, before: int) returns (out: Logs)
    ensures out.Keys == logs.Keys
    ensures forall t | t in logs :: out[t] == Retained(sha, t, logs[t], before)
  {
    var left, deleted := PurgeAuditBefore(logs, before);
    var tenants := ListKeys(deleted);
    out := ReanchorAuditChains(sha, left, tenants);
  }

  method ListKeys(m: map<string, nat>) returns (keys: seq<string>)
    ensures forall k :: k in keys <==> k in m
  {
    keys := [];
    var rest := m.Keys;
    while rest != {}
      invariant rest <= m.Keys
      invariant forall k :: k in keys <==> k in m && k !in rest
    {
      var k :| k in rest;
      keys := keys + [k];
      rest := rest - {k};
    }
  }

  /** A log without old rows and a tenant without an id are only purged; every other log is re-anchored as well. */
  lemma RetainedMeans(sha: Digest, t: string, rows: seq<Row>, before: int)
    ensures (forall i | 0 <= i < |rows| :: rows[i].at >= before) ==> Retained(sha, t, rows, before) == rows
    ensures t == "" ==> Retained(sha, t, rows, before) == Kept(rows, before)
    ensures t != "" && (exists i :: 0 <= i < |rows| && rows[i].at < before) ==>
              Retained(sha, t, rows, before) == Reanchored(sha, Kept(rows, before))
  {
    KeptAllIff(rows, before);
  }

  /**
   Retention leaves an accepted log accepted if and only if the tenant has an id or no deleted
   row was followed by a surviving one; the retained entries are the young ones, in order.
   */
  lemma RetentionAcceptedIff(sha: Digest, t: string, rows: seq<Row>, before: int)
    requires Accepted(sha, rows)
    ensures Accepted(sha, Retained(sha, t, rows, before)) <==> t != "" || PurgesTail(rows, before)
    ensures |Retained(sha, t, rows, before)| == |Kept(rows, before)|
    ensures forall i | 0 <= i < |Kept(rows, before)| ::
              var r, k := Retained(sha, t, rows, before)[i], Kept(rows, before)[i];
              r.tenant == k.tenant && r.at == k.at && r.payload == k.payload
  {
    var left := Kept(rows, before);
    PurgeAcceptedIff(sha, rows, before);
    KeptAllIff(rows, before);
    ReanchorIsAccepted(sha, left);
  }

  /**
   An append that read the tail before retention deleted a row and inserts after it, as a writer of
   another replica may, always gets in and always breaks the re-anchored chain: its number leaves a gap.
   */
  lemma OutdatedAppendBreaksChain(sha: Digest, t: string, rows: seq<Row>, before: int, a: Attempt, tbl: Table, q: seq<string>, id: string)
    requires Accepted(sha, rows) && rows != [] && a.tenant == t && a.tail == At(|rows|, LastHash(rows))
    requires Lost(rows, before) > 0
    requires Only(tbl, t) && Chained(sha, tbl, t, q) && Fetch(tbl, q) == Reanchored(sha, Kept(rows, before)) && id !in tbl
    ensures !Holds(tbl, t, Successor(sha, a).seqNo) && !AcceptedIn(sha, tbl[id := Successor(sha, a)], t)
  {
    HeldNumbers(sha, t, tbl, q, Successor(sha, a).seqNo);
    AddRowIff(sha, tbl, t, q, id, Successor(sha, a));
  }

  // ---------- an append between the statements of a re-anchoring ----------

  /** The row an append takes as the tenant's tail. */
  ghost predicate IsTableTail(tbl: Table, t: string, id: string) {
    && id in tbl && tbl[id].tenant == t
    && forall o | o in tbl && tbl[o].tenant == t :: tbl[o].seqNo <= tbl[id].seqNo
  }

  function NewRow(sha: Digest, tail: Row, at: int, payload: Payload): Row {
    Successor(sha, Attempt(tail.tenant, at, payload, At(tail.seqNo, tail.hash)))
  }

  /** A row of the tenant without a positive number: no listing of the tenant is accepted. */
  lemma NegativeRowIsRejected(sha: Digest, tbl: Table, t: string, id: string, r: seq<string>)
    requires EnumeratesTenant(tbl, r, t) && id in tbl && tbl[id].tenant == t && tbl[id].seqNo <= 0
    ensures !Accepted(sha, Fetch(tbl, r))
  {
    var j :| 0 <= j < |r| && r[j] == id;
    assert Fetch(tbl, r)[j].seqNo <= 0;
  }

  /** The table and the last hash after k rows of an undisturbed job. */
  function AfterRows(sha: Digest, tbl: Table, t: string, ids: seq<string>, k: nat): Progress {
    Loop(Rewriting(Linking(sha), t, ids), Negated(tbl, t), 0, k, "")
  }

  lemma JobReaches(sha: Digest, tbl: Table, t: string, ids: seq<string>, k: nat)
    requires EnumeratesTenant(tbl, ids, t) && Climbing(tbl, ids) && k <= |ids|
    ensures var rows, p := Reanchored(sha, Fetch(tbl, ids)), AfterRows(sha, tbl, t, ids, k);
            p.ok && Done(rows, tbl, t, ids, k, p.table) && p.hash == PrevOf(rows, k)
  {
    var rows := Reanchored(sha, Fetch(tbl, ids));
    ReanchoredIsPlan(sha, tbl, ids);
    NegatedIsDone(rows, tbl, t, ids);
    Undisturbed(sha, rows, tbl, Negated(tbl, t), t, ids, 0, k);
  }

  /** The greatest number after k rows: negative at first, then the number of the row just written. */
  lemma TailAfterRows(rows: seq<Row>, tbl: Table, t: string, ids: seq<string>, k: nat, cur: Table, tail: string)
    requires EnumeratesTenant(tbl, ids, t) && Climbing(tbl, ids) && ids != [] && k <= |ids|
    requires Numbered(rows) && OfTenant(rows, t) && Done(rows, tbl, t, ids, k, cur) && IsTableTail(cur, t, tail)
    ensures k == 0 ==> cur[tail].seqNo < 0
    ensures k > 0 ==> tail == ids[k - 1] && cur[tail].seqNo == k
  {
    assert tbl[tail].tenant == t;
    assert tail in ids;
    var j :| 0 <= j < |ids| && ids[j] == tail;
    if k > 0 {
      assert ids[k - 1] in cur && cur[ids[k - 1]] == rows[k - 1];
      assert cur[ids[k - 1]].seqNo == k;
    }
  }

  lemma ReanchoredOfTenant(sha: Digest, tbl: Table, t: string, ids: seq<string>)
    requires EnumeratesTenant(tbl, ids, t)
    ensures Numbered(Reanchored(sha, Fetch(tbl, ids))) && OfTenant(Reanchored(sha, Fetch(tbl, ids)), t)
    ensures Linked(sha, Reanchored(sha, Fetch(tbl, ids)))
  {
    ReanchorIsAccepted(sha, Fetch(tbl, ids));
  }

  /** The listed rows and the new one are all rows of the tenant. */
  lemma ListingGrows(rows: seq<Row>, tbl: Table, t: string, ids: seq<string>, cur: Table, id: string, row: Row)
    requires EnumeratesTenant(tbl, ids, t) && id !in tbl && row.tenant == t
    requires OfTenant(rows, t) && Done(rows, tbl, t, ids, |ids|, cur)
    ensures EnumeratesTenant(cur[id := row], ids + [id], t)
    ensures Fetch(cur[id := row], ids + [id]) == rows + [row]
  {
    var fin, p := cur[id := row], ids + [id];
    forall o | o in fin && fin[o].tenant == t
      ensures o in p
    {
      if o != id {
        assert tbl[o].tenant == t;
        assert o in ids;
      }
    }
  }

  /** The append comes after the last row: it extends the finished chain. */
  lemma AppendAfterJob(sha: Digest, rows: seq<Row>, tbl: Table, t: string, ids: seq<string>, cur: Table,
                       tail: string, id: string, at: int, payload: Payload, r: seq<string>)
    requires EnumeratesTenant(tbl, ids, t) && ids != [] && id !in tbl
    requires Accepted(sha, rows) && OfTenant(rows, t) && Done(rows, tbl, t, ids, |ids|, cur) && tail == ids[|ids| - 1]
    requires var fin := cur[id := NewRow(sha, cur[tail], at, payload)];
             EnumeratesTenant(fin, r, t) && AscendingSeq(fin, r)
    ensures Accepted(sha, Fetch(cur[id := NewRow(sha, cur[tail], at, payload)], r))
  {
    assert cur[tail] == rows[|rows| - 1];
    var row := NewRow(sha, cur[tail], at, payload);
    ExtendedIsAccepted(sha, rows, at, payload);
    ListingGrows(rows, tbl, t, ids, cur, id, row);
    AscendingIsNumbering(cur[id := row], ids + [id], r, t);
  }

  lemma ExtendedIsAccepted(sha: Digest, rows: seq<Row>, at: int, payload: Payload)
    requires Accepted(sha, rows) && rows != []
    ensures Accepted(sha, rows + [NewRow(sha, rows[|rows| - 1], at, payload)])
  {
    assert rows[|rows| - 1].seqNo == |rows|;
    var r := NewRow(sha, rows[|rows| - 1], at, payload);
    SameColumns(sha, r.prevHash, r);
    ExtendedIff(sha, rows, r);
  }

  /** The table in the end, with an append after k rows. */
  function EndTable(sha: Digest, tbl: Table, t: string, ids: seq<string>, k: nat, tail: Row, id: string, at: int, payload: Payload): Table
    requires k <= |ids|
  {
    var p := AfterRows(sha, tbl, t, ids, k);
    Loop(Rewriting(Linking(sha), t, ids), p.table[id := NewRow(sha, tail, at, payload)], k, |ids|, p.hash).table
  }

  /** Before the first row: the new row gets a number below 1 and keeps it. */
  lemma AppendAtFirst(sha: Digest, tbl: Table, t: string, ids: seq<string>, tail: Row, id: string, at: int, payload: Payload)
    requires EnumeratesTenant(tbl, ids, t) && id !in tbl && tail.tenant == t && tail.seqNo < 0
    ensures var fin := EndTable(sha, tbl, t, ids, 0, tail, id, at, payload);
            id in fin && fin[id].tenant == t && fin[id].seqNo <= 0
  {
    var p := AfterRows(sha, tbl, t, ids, 0);
    OnlyListedRows(Linking(sha), p.table[id := NewRow(sha, tail, at, payload)], t, ids, 0, |ids|, p.hash);
    assert id !in ids;
  }

  /** In the middle: the job stops, and the next row keeps its negated number. */
  lemma AppendInTheMiddle(sha: Digest, rows: seq<Row>, tbl: Table, t: string, ids: seq<string>, k: nat, tail: Row, id: string, at: int, payload: Payload)
    requires EnumeratesTenant(tbl, ids, t) && Climbing(tbl, ids) && k < |ids|
    requires id !in tbl && tail.tenant == t && tail.seqNo == k
    requires Done(rows, tbl, t, ids, k, AfterRows(sha, tbl, t, ids, k).table)
    ensures var fin := EndTable(sha, tbl, t, ids, k, tail, id, at, payload);
            ids[k] in fin && fin[ids[k]].tenant == t && fin[ids[k]].seqNo <= 0
  {
    var p := AfterRows(sha, tbl, t, ids, k);
    JobStops(sha, p.table[id := NewRow(sha, tail, at, payload)], t, ids, k, id, p.hash);
  }

  /**
   An append of another replica between the statements of a re-anchoring, after k rows were
   rewritten: the job goes on as far as it can, and the tenant's log is accepted in the end if and
   only if all rows had been rewritten.
   */
  lemma AppendDuringReanchor(sha: Digest, tbl: Table, t: string, ids: seq<string>, k: nat,
                             tail: string, id: string, at: int, payload: Payload, r: seq<string>)
    requires EnumeratesTenant(tbl, ids, t) && Climbing(tbl, ids) && ids != [] && k <= |ids| && id !in tbl
    requires IsTableTail(AfterRows(sha, tbl, t, ids, k).table, t, tail)
    requires var fin := EndTable(sha, tbl, t, ids, k, AfterRows(sha, tbl, t, ids, k).table[tail], id, at, payload);
             EnumeratesTenant(fin, r, t) && AscendingSeq(fin, r)
    ensures Accepted(sha, Fetch(EndTable(sha, tbl, t, ids, k, AfterRows(sha, tbl, t, ids, k).table[tail], id, at, payload), r))
            <==> k == |ids|
  {
    var rows, p := Reanchored(sha, Fetch(tbl, ids)), AfterRows(sha, tbl, t, ids, k);
    JobReaches(sha, tbl, t, ids, k);
    ReanchoredOfTenant(sha, tbl, t, ids);
    TailAfterRows(rows, tbl, t, ids, k, p.table, tail);
    var fin := EndTable(sha, tbl, t, ids, k, p.table[tail], id, at, payload);
    if k == |ids| {
      AppendAfterJob(sha, rows, tbl, t, ids, p.table, tail, id, at, payload, r);
    } else if k == 0 {
      AppendAtFirst(sha, tbl, t, ids, p.table[tail], id, at, payload);
      NegativeRowIsRejected(sha, fin, t, id, r);
    } else {
      AppendInTheMiddle(sha, rows, tbl, t, ids, k, p.table[tail], id, at, payload);
      NegativeRowIsRejected(sha, fin, t, ids[k], r);
    }
  }

  /** The appended row holds the number the next row needs: the job fails there. */
  lemma JobStops(sha: Digest, now: Table, t: string, ids: seq<string>, k: nat, id: string, prev: string)
    requires k < |ids| && id in now && id != ids[k] && now[id].tenant == t && now[id].seqNo == k + 1
    ensures Loop(Rewriting(Linking(sha), t, ids), now, k, |ids|, prev) == Progress(false, now, prev)
  {
    assert SlotTaken(now, t, k + 1, ids[k]);
    assert Rewriting(Linking(sha), t, ids)(now, k, prev) == Progress(false, now, prev);
  }

  /** An append between the listing and the negation is negated too, never renumbered, and breaks the chain. */
  lemma AppendBeforeNegation(sha: Digest, tbl: Table, t: string, ids: seq<string>,
                             tail: string, id: string, at: int, payload: Payload, fin: Table, r: seq<string>)
    requires EnumeratesTenant(tbl, ids, t) && Climbing(tbl, ids)
    requires IsTableTail(tbl, t, tail) && id !in tbl
    requires fin == AfterRows(sha, tbl[id := NewRow(sha, tbl[tail], at, payload)], t, ids, |ids|).table
    requires EnumeratesTenant(fin, r, t)
    ensures !Accepted(sha, Fetch(fin, r))
  {
    var now := Negated(tbl[id := NewRow(sha, tbl[tail], at, payload)], t);
    assert tail in ids;
    assert tbl[tail].seqNo >= 1;
    OnlyListedRows(Linking(sha), now, t, ids, 0, |ids|, "");
    assert id !in ids && fin[id] == now[id];
    NegativeRowIsRejected(sha, fin, t, id, r);
  }
}
