/**
 Re-anchoring one tenant's audit chain: renumber the surviving rows 1..n, recompute the hashes
 from a fresh start. First what it computes, then the statements it issues one by one.
 */
module AuditReanchor {
  import opened Tables
  import opened AuditLog
  import opened AuditMigrations

  function FromOne(rows: seq<Row>): (out: seq<Row>)
    ensures |out| == |rows|
    ensures forall i | 0 <= i < |rows| :: out[i] == rows[i].(seqNo := i + 1)
  {
    seq(|rows|, i requires 0 <= i < |rows| => rows[i].(seqNo := i + 1))
  }

  /** The rows of a tenant in sequence order, after re-anchoring. */
  function Reanchored(sha: Digest, rows: seq<Row>): (out: seq<Row>)
    ensures |out| == |rows|
  {
    Relink(sha, FromOne(rows))
  }

  /** A re-anchored log is accepted, whatever it was before, and keeps tenant, time and payload of every row. */
  lemma ReanchorIsAccepted(sha: Digest, rows: seq<Row>)
    ensures Accepted(sha, Reanchored(sha, rows))
    ensures forall i | 0 <= i < |rows| ::
              var r := Reanchored(sha, rows)[i]; r.tenant == rows[i].tenant && r.at == rows[i].at && r.payload == rows[i].payload
  {
    RelinkIsLinked(sha, FromOne(rows));
  }

  lemma {:induction false} RelinkPrefix(sha: Digest, rows: seq<Row>, k: nat)
    requires k <= |rows|
    ensures Relink(sha, rows)[..k] == Relink(sha, rows[..k])
  {
    var n := |rows| - 1;
    if k < |rows| {
      RelinkPrefix(sha, rows[..n], k);
      assert rows[..n][..k] == rows[..k];
      assert Relink(sha, rows)[..n] == Relink(sha, rows[..n]);
      assert Relink(sha, rows)[..k] == Relink(sha, rows)[..n][..k];
    } else {
      assert rows[..k] == rows;
    }
  }

  /** Re-anchoring works from the front: a prefix of the result is the re-anchored prefix. */
  lemma ReanchorPrefix(sha: Digest, rows: seq<Row>, k: nat)
    requires k <= |rows|
    ensures Reanchored(sha, rows)[..k] == Reanchored(sha, rows[..k])
  {
    RelinkPrefix(sha, FromOne(rows), k);
    assert FromOne(rows)[..k] == FromOne(rows[..k]);
  }

  /** Each row is chained to the re-anchored one before it. */
  lemma ReanchorAt(sha: Digest, rows: seq<Row>, i: nat)
    requires i < |rows|
    ensures Reanchored(sha, rows)[i] == Chain(sha, PrevOf(Reanchored(sha, rows), i), rows[i].(seqNo := i + 1))
  {
    var out := Reanchored(sha, rows);
    ReanchorPrefix(sha, rows, i);
    ReanchorPrefix(sha, rows, i + 1);
    var head := rows[..i + 1];
    assert FromOne(head)[..i] == FromOne(rows[..i]);
    assert LastHash(out[..i]) == PrevOf(out, i);
    assert out[..i + 1][i] == out[i];
  }

  lemma {:induction false} AcceptedIsFixed(sha: Digest, rows: seq<Row>)
    requires Accepted(sha, rows)
    ensures Reanchored(sha, rows) == rows
  {
    if rows != [] {
      var n := |rows| - 1;
      var front, out := rows[..n], Reanchored(sha, rows);
      PrefixAccepted(sha, rows, n);
      AcceptedIsFixed(sha, front);
      ReanchorPrefix(sha, rows, n);
      ReanchorAt(sha, rows, n);
      assert ChainedAt(sha, rows, n);
      assert PrevOf(out, n) == LastHash(out[..n]);
      SameColumns(sha, PrevOf(rows, n), rows[n]);
      assert out == out[..n] + [out[n]];
    }
  }

  lemma SameColumns(sha: Digest, prev: string, r: Row)
    ensures AuditHash(sha, prev, r.(seqNo := 0)) == AuditHash(sha, prev, r)
    ensures forall n, p, h :: AuditHash(sha, prev, r.(seqNo := n, prevHash := p, hash := h)) == AuditHash(sha, prev, r)
  {
  }

  /** Re-anchoring changes nothing if and only if the log was accepted. */
  lemma ReanchorIsIdentityIff(sha: Digest, rows: seq<Row>)
    ensures Reanchored(sha, rows) == rows <==> Accepted(sha, rows)
  {
    ReanchorIsAccepted(sha, rows);
    if Accepted(sha, rows) {
      AcceptedIsFixed(sha, rows);
    }
  }

  // ---------- the statements ----------

  /** The first statement: the sequence numbers of the tenant change their sign. */
  function Negated(tbl: Table, t: string): Table {
    map id | id in tbl :: if tbl[id].tenant == t then tbl[id].(seqNo := -tbl[id].seqNo) else tbl[id]
  }

  /** Another row of the tenant holds this number: the unique index rejects it. */
  predicate SlotTaken(tbl: Table, t: string, n: int, id: string) {
    exists o :: o in tbl && o != id && tbl[o].tenant == t && tbl[o].seqNo == n
  }

  /** The first k listed rows are the given ones, the others only negated, other tenants untouched. */
  ghost predicate Done(rows: seq<Row>, tbl: Table, t: string, ids: seq<string>, k: nat, cur: Table) {
    && Stored(tbl, ids) && |rows| == |ids| && k <= |ids| && cur.Keys == tbl.Keys
    && (forall i | 0 <= i < k :: cur[ids[i]] == rows[i])
    && (forall i | k <= i < |ids| :: cur[ids[i]] == tbl[ids[i]].(seqNo := -tbl[ids[i]].seqNo))
    && (forall id | id in tbl && tbl[id].tenant != t :: cur[id] == tbl[id])
  }

  /** The rows the job writes one after the other, each chained to the one before. */
  ghost predicate Plan(sha: Digest, tbl: Table, ids: seq<string>, rows: seq<Row>) {
    && Stored(tbl, ids) && |rows| == |ids| && Numbered(rows)
    && forall i | 0 <= i < |rows| :: Planned(sha, tbl, ids, rows, i)
  }

  predicate Planned(sha: Digest, tbl: Table, ids: seq<string>, rows: seq<Row>, i: nat)
    requires Stored(tbl, ids) && i < |rows| == |ids|
  {
    rows[i] == Chain(sha, PrevOf(rows, i), tbl[ids[i]].(seqNo := i + 1))
  }

  lemma ReanchoredIsPlan(sha: Digest, tbl: Table, ids: seq<string>)
    requires Stored(tbl, ids)
    ensures Plan(sha, tbl, ids, Reanchored(sha, Fetch(tbl, ids)))
  {
    var rows := Fetch(tbl, ids);
    ReanchorIsAccepted(sha, rows);
    forall i | 0 <= i < |rows|
      ensures Planned(sha, tbl, ids, Reanchored(sha, rows), i)
    {
      ReanchorAt(sha, rows, i);
    }
  }

  /** A row not yet rewritten holds, negated, the number that row i is to get. */
  predicate ClashAt(tbl: Table, ids: seq<string>, i: nat)
    requires Stored(tbl, ids)
  {
    exists j :: i < j < |ids| && -tbl[ids[j]].seqNo == i + 1
  }

  predicate NoClash(tbl: Table, ids: seq<string>)
    requires Stored(tbl, ids)
  {
    forall i | 0 <= i < |ids| :: !ClashAt(tbl, ids, i)
  }

  lemma SlotTakenIff(rows: seq<Row>, tbl: Table, t: string, ids: seq<string>, i: nat, cur: Table)
    requires EnumeratesTenant(tbl, ids, t) && Done(rows, tbl, t, ids, i, cur) && i < |ids|
    requires Numbered(rows)
    ensures SlotTaken(cur, t, i + 1, ids[i]) <==> ClashAt(tbl, ids, i)
  {
    if o :| o in cur && o != ids[i] && cur[o].tenant == t && cur[o].seqNo == i + 1 {
      assert tbl[o].tenant == t;
      var j :| 0 <= j < |ids| && ids[j] == o;
      assert j >= i;
    }
    if j :| i < j < |ids| && -tbl[ids[j]].seqNo == i + 1 {
      assert ids[j] in cur && ids[j] != ids[i] && cur[ids[j]].seqNo == i + 1;
    }
  }

  lemma DoneStep(rows: seq<Row>, tbl: Table, t: string, ids: seq<string>, i: nat, cur: Table)
    requires EnumeratesTenant(tbl, ids, t) && Done(rows, tbl, t, ids, i, cur) && i < |ids|
    ensures Done(rows, tbl, t, ids, i + 1, cur[ids[i] := rows[i]])
  {
    assert forall j | 0 <= j < |ids| && j != i :: ids[j] != ids[i];
  }

  datatype Progress = Progress(ok: bool, table: Table, hash: string)

  /** How a row is chained to the hash before it. */
  type Link = (string, Row) -> Row

  function Linking(sha: Digest): Link {
    (prev: string, r: Row) => Chain(sha, prev, r)
  }

  /** One row: re-read, renumbered, chained, written back; a missing row or a taken number ends the job. */
  function RewriteRow(link: Link, cur: Table, t: string, id: string, n: nat, prev: string): Progress {
    if id in cur && !SlotTaken(cur, t, n, id) then
      var row := link(prev, cur[id].(seqNo := n));
      Progress(true, cur[id := row], row.hash)
    else Progress(false, cur, prev)
  }

  /** What is done with the i-th listed row, given the table and the last hash. */
  type Step = (Table, nat, string) -> Progress

  function Rewriting(link: Link, t: string, ids: seq<string>): Step {
    (cur: Table, i: nat, prev: string) =>
      if i < |ids| then RewriteRow(link, cur, t, ids[i], i + 1, prev) else Progress(false, cur, prev)
  }

  /** The loop over the rows from one position to another. */
  function Loop(step: Step, cur: Table, lo: nat, hi: nat, prev: string): Progress
    requires lo <= hi
    decreases hi - lo
  {
    if lo == hi then Progress(true, cur, prev)
    else
      var p := step(cur, lo, prev);
      if p.ok then Loop(step, p.table, lo + 1, hi, p.hash) else p
  }

  method RewriteRows(step: Step, cur: Table, lo: nat, hi: nat, prev: string) returns (p: Progress)
    requires lo <= hi
    ensures p == Loop(step, cur, lo, hi, prev)
  {
    p := Progress(true, cur, prev);
    for i := lo to hi
      invariant p.ok
      invariant Loop(step, cur, lo, hi, prev) == Loop(step, p.table, i, hi, p.hash)
    {
      p := step(p.table, i, p.hash);
      if !p.ok {
        return;
      }
    }
  }

  /** On any table the loop leaves unlisted rows alone. */
  lemma {:induction false} OnlyListedRows(link: Link, cur: Table, t: string, ids: seq<string>, lo: nat, hi: nat, prev: string)
    requires lo <= hi
    ensures var out := Loop(Rewriting(link, t, ids), cur, lo, hi, prev).table;
            out.Keys == cur.Keys && (forall id | id in cur && id !in ids :: out[id] == cur[id])
    decreases hi - lo
  {
    if lo < hi {
      var p := Rewriting(link, t, ids)(cur, lo, prev);
      if p.ok {
        OnlyListedRows(link, p.table, t, ids, lo + 1, hi, p.hash);
      }
    }
  }

  /** The next row of an undisturbed job. */
  lemma NextRow(sha: Digest, rows: seq<Row>, tbl: Table, cur: Table, t: string, ids: seq<string>, i: nat) returns (p: Progress)
    requires EnumeratesTenant(tbl, ids, t) && Plan(sha, tbl, ids, rows) && i < |ids| && Done(rows, tbl, t, ids, i, cur)
    ensures p == RewriteRow(Linking(sha), cur, t, ids[i], i + 1, PrevOf(rows, i))
    ensures p.ok <==> !ClashAt(tbl, ids, i)
    ensures p.ok ==> Done(rows, tbl, t, ids, i + 1, p.table) && p.hash == PrevOf(rows, i + 1)
  {
    SlotTakenIff(rows, tbl, t, ids, i, cur);
    assert Planned(sha, tbl, ids, rows, i);
    p := RewriteRow(Linking(sha), cur, t, ids[i], i + 1, PrevOf(rows, i));
    assert cur[ids[i]].(seqNo := i + 1) == tbl[ids[i]].(seqNo := i + 1);
    DoneStep(rows, tbl, t, ids, i, cur);
  }

  /** A loop whose steps keep an invariant, and fail exactly at certain positions. */
  lemma {:induction false} LoopRule(step: Step, good: (nat, Table, string) -> bool, fails: nat -> bool,
                                    cur: Table, lo: nat, hi: nat, prev: string)
    requires lo <= hi && good(lo, cur, prev)
    requires forall i, c, h | lo <= i < hi && good(i, c, h) ::
               (step(c, i, h).ok <==> !fails(i)) && (step(c, i, h).ok ==> good(i + 1, step(c, i, h).table, step(c, i, h).hash))
    ensures var p := Loop(step, cur, lo, hi, prev);
            (p.ok <==> forall i | lo <= i < hi :: !fails(i)) && (p.ok ==> good(hi, p.table, p.hash))
    decreases hi - lo
  {
    if lo < hi {
      var p := step(cur, lo, prev);
      if p.ok {
        LoopRule(step, good, fails, p.table, lo + 1, hi, p.hash);
      }
    }
  }

  /** The job has come to row k undisturbed and remembers the right hash. */
  ghost function OnTrack(rows: seq<Row>, tbl: Table, t: string, ids: seq<string>): (nat, Table, string) -> bool {
    (k: nat, cur: Table, h: string) => Done(rows, tbl, t, ids, k, cur) && h == PrevOf(rows, k)
  }

  ghost function Clashing(tbl: Table, ids: seq<string>): nat -> bool {
    (i: nat) => Stored(tbl, ids) && ClashAt(tbl, ids, i)
  }

  lemma TrackStep(sha: Digest, rows: seq<Row>, tbl: Table, t: string, ids: seq<string>, i: nat, c: Table, h: string)
    requires EnumeratesTenant(tbl, ids, t) && Plan(sha, tbl, ids, rows) && i < |ids| && OnTrack(rows, tbl, t, ids)(i, c, h)
    ensures var p := Rewriting(Linking(sha), t, ids)(c, i, h);
            && (p.ok <==> !Clashing(tbl, ids)(i))
            && (p.ok ==> OnTrack(rows, tbl, t, ids)(i + 1, p.table, p.hash))
  {
    var p := NextRow(sha, rows, tbl, c, t, ids, i);
    assert Rewriting(Linking(sha), t, ids)(c, i, h) == p;
  }

  lemma TrackedLoop(sha: Digest, rows: seq<Row>, tbl: Table, cur: Table, t: string, ids: seq<string>, lo: nat, hi: nat, prev: string)
    requires EnumeratesTenant(tbl, ids, t) && Plan(sha, tbl, ids, rows)
    requires lo <= hi <= |ids| && OnTrack(rows, tbl, t, ids)(lo, cur, prev)
    ensures var p := Loop(Rewriting(Linking(sha), t, ids), cur, lo, hi, prev);
            && (p.ok <==> forall i | lo <= i < hi :: !Clashing(tbl, ids)(i))
            && (p.ok ==> OnTrack(rows, tbl, t, ids)(hi, p.table, p.hash))
  {
    var step, good, fails := Rewriting(Linking(sha), t, ids), OnTrack(rows, tbl, t, ids), Clashing(tbl, ids);
    forall i, c, h | lo <= i < hi && good(i, c, h)
      ensures (step(c, i, h).ok <==> !fails(i)) && (step(c, i, h).ok ==> good(i + 1, step(c, i, h).table, step(c, i, h).hash))
    {
      TrackStep(sha, rows, tbl, t, ids, i, c, h);
    }
    LoopRule(step, good, fails, cur, lo, hi, prev);
  }

  /** Undisturbed, the loop goes on until a row not yet rewritten holds the number it needs. */
  lemma Undisturbed(sha: Digest, rows: seq<Row>, tbl: Table, cur: Table, t: string, ids: seq<string>, lo: nat, hi: nat)
    requires EnumeratesTenant(tbl, ids, t) && Plan(sha, tbl, ids, rows)
    requires lo <= hi <= |ids| && Done(rows, tbl, t, ids, lo, cur)
    ensures var p := Loop(Rewriting(Linking(sha), t, ids), cur, lo, hi, PrevOf(rows, lo));
            && (p.ok <==> forall i | lo <= i < hi :: !ClashAt(tbl, ids, i))
            && (p.ok ==> Done(rows, tbl, t, ids, hi, p.table) && p.hash == PrevOf(rows, hi))
  {
    TrackedLoop(sha, rows, tbl, cur, t, ids, lo, hi, PrevOf(rows, lo));
    assert forall i | lo <= i < hi :: Clashing(tbl, ids)(i) <==> ClashAt(tbl, ids, i);
  }

  lemma NegatedIsDone(rows: seq<Row>, tbl: Table, t: string, ids: seq<string>)
    requires EnumeratesTenant(tbl, ids, t) && |rows| == |ids|
    ensures Done(rows, tbl, t, ids, 0, Negated(tbl, t))
  {
  }

  /**
   The whole job on an undisturbed table, for the rows listed in sequence order. It succeeds if
   and only if no later row's negated number is in the way, and then the listed rows are the
   re-anchored ones and no other row has changed.
   */
  method ReanchorAuditChain(sha: Digest, tbl: Table, t: string, ids: seq<string>) returns (ok: bool, out: Table)
    requires EnumeratesTenant(tbl, ids, t)
    ensures ok <==> NoClash(tbl, ids)
    ensures out.Keys == tbl.Keys
    ensures ok ==> Fetch(out, ids) == Reanchored(sha, Fetch(tbl, ids))
    ensures ok ==> forall id | id in tbl && tbl[id].tenant != t :: out[id] == tbl[id]
  {
    if |ids| == 0 {
      return true, tbl;
    }
    var p := RewriteRows(Rewriting(Linking(sha), t, ids), Negated(tbl, t), 0, |ids|, "");
    ghost var rows := Reanchored(sha, Fetch(tbl, ids));
    ReanchoredIsPlan(sha, tbl, ids);
    NegatedIsDone(rows, tbl, t, ids);
    Undisturbed(sha, rows, tbl, Negated(tbl, t), t, ids, 0, |ids|);
    OnlyListedRows(Linking(sha), Negated(tbl, t), t, ids, 0, |ids|, "");
    ok, out := p.ok, p.table;
  }

  // ---------- after a crash ----------

  /** Positive, strictly ascending numbers, as the query in sequence order lists them. */
  ghost predicate Climbing(tbl: Table, ids: seq<string>)
    requires Stored(tbl, ids)
  {
    && (forall i | 0 <= i < |ids| :: tbl[ids[i]].seqNo >= 1)
    && (forall i, j | 0 <= i < j < |ids| :: tbl[ids[i]].seqNo < tbl[ids[j]].seqNo)
  }

  /**
   The statements share no transaction. If the job dies before its last row, the next job lists
   the rows in another order: the newest row comes first and gets number 1.
   */
  lemma NextJobStartsWithNewest(rows: seq<Row>, tbl: Table, t: string, ids: seq<string>, k: nat, cur: Table, r: seq<string>)
    requires EnumeratesTenant(tbl, ids, t) && Climbing(tbl, ids)
    requires Numbered(rows) && k < |ids| && Done(rows, tbl, t, ids, k, cur)
    requires EnumeratesTenant(cur, r, t) && AscendingSeq(cur, r)
    ensures r != [] && r[0] == ids[|ids| - 1]
  {
    var newest := ids[|ids| - 1];
    assert newest in cur;
    var j :| 0 <= j < |r| && r[j] == newest;
    NewestIsLeast(rows, tbl, t, ids, k, cur, r[0]);
  }

  lemma NewestIsLeast(rows: seq<Row>, tbl: Table, t: string, ids: seq<string>, k: nat, cur: Table, id: string)
    requires EnumeratesTenant(tbl, ids, t) && Climbing(tbl, ids)
    requires Numbered(rows) && k < |ids| && Done(rows, tbl, t, ids, k, cur)
    requires id in cur && cur[id].tenant == t
    ensures id == ids[|ids| - 1] || cur[ids[|ids| - 1]].seqNo < cur[id].seqNo
  {
    assert tbl[id].tenant == t;
    assert id in ids;
    var h :| 0 <= h < |ids| && ids[h] == id;
  }
}
