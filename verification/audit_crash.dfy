/**
 A re-anchoring that died: in what order the next job finds the rows, when it runs through, and when
 it leads back to the log there was.
 */
module AuditCrash {
  import opened Tables
  import opened AuditLog
  import opened AuditMigrations
  import opened AuditReanchor
  import opened AuditJob

  /** The rows not yet rewritten, the last one first, then the rewritten ones. */
  function CrashListing(ids: seq<string>, k: nat): (r: seq<string>)
    requires k <= |ids|
    ensures |r| == |ids|
  {
    seq(|ids|, j requires 0 <= j < |ids| => if j < |ids| - k then ids[|ids| - 1 - j] else ids[j - (|ids| - k)])
  }

  /** The sorted listing of a table is unique. */
  lemma SortedIsUnique(tbl: Table, t: string, p: seq<string>, r: seq<string>)
    requires EnumeratesTenant(tbl, p, t) && Climbs(tbl, p)
    requires EnumeratesTenant(tbl, r, t) && AscendingSeq(tbl, r)
    ensures r == p
  {
    SameLength(tbl, p, r, t);
    SamePrefix(tbl, t, p, r, |p|);
    assert p[..|p|] == p && r[..|p|] == r;
  }

  lemma {:induction false} SamePrefix(tbl: Table, t: string, p: seq<string>, r: seq<string>, n: nat)
    requires EnumeratesTenant(tbl, p, t) && Climbs(tbl, p)
    requires EnumeratesTenant(tbl, r, t) && AscendingSeq(tbl, r)
    requires |p| == |r| && n <= |p|
    ensures p[..n] == r[..n]
  {
    if n > 0 {
      var i := n - 1;
      SamePrefix(tbl, t, p, r, i);
      SameNext(tbl, t, p, r, i);
      assert p[..n] == p[..i] + [p[i]] && r[..n] == r[..i] + [r[i]];
    }
  }

  lemma SameNext(tbl: Table, t: string, p: seq<string>, r: seq<string>, i: nat)
    requires EnumeratesTenant(tbl, p, t) && Climbs(tbl, p)
    requires EnumeratesTenant(tbl, r, t) && AscendingSeq(tbl, r)
    requires i < |p| == |r| && p[..i] == r[..i]
    ensures p[i] == r[i]
  {
    var a := NotBefore(tbl, t, p, r, i, p[i]);
    var b := NotBefore(tbl, t, r, p, i, r[i]);
  }

  /** A row that stands at place i of one listing does not stand earlier in the other. */
  lemma NotBefore(tbl: Table, t: string, p: seq<string>, r: seq<string>, i: nat, id: string) returns (a: nat)
    requires EnumeratesTenant(tbl, p, t) && EnumeratesTenant(tbl, r, t)
    requires i < |p| == |r| && p[..i] == r[..i] && p[i] == id
    ensures i <= a < |r| && r[a] == id
  {
    assert forall h | 0 <= h < i :: p[h] == p[..i][h] && r[h] == r[..i][h];
    assert id in r;
    a :| 0 <= a < |r| && r[a] == id;
  }

  /** The rows have the numbers 1..n, and the job died after k of them. */
  ghost predicate Crashed(rows: seq<Row>, tbl: Table, t: string, ids: seq<string>, k: nat, cur: Table) {
    && EnumeratesTenant(tbl, ids, t) && rows == Fetch(tbl, ids) && Numbered(rows)
    && Done(rows, tbl, t, ids, k, cur)
  }

  lemma CrashNumbers(rows: seq<Row>, tbl: Table, t: string, ids: seq<string>, k: nat, cur: Table, i: nat)
    requires Crashed(rows, tbl, t, ids, k, cur) && i < |ids|
    ensures ids[i] in cur && cur[ids[i]].tenant == t
    ensures cur[ids[i]].seqNo == if i < k then i + 1 else -(i + 1)
  {
    assert rows[i].seqNo == i + 1;
  }

  /** The number at place j of that listing. */
  function CrashNumber(n: nat, k: nat, j: nat): int {
    if j < n - k then -(n - j) else j - (n - k) + 1
  }

  lemma CrashListingNumber(rows: seq<Row>, tbl: Table, t: string, ids: seq<string>, k: nat, cur: Table, j: nat)
    requires Crashed(rows, tbl, t, ids, k, cur) && j < |ids|
    ensures var id := CrashListing(ids, k)[j];
            id in cur && cur[id].tenant == t && cur[id].seqNo == CrashNumber(|ids|, k, j)
  {
    var n := |ids|;
    CrashNumbers(rows, tbl, t, ids, k, cur, if j < n - k then n - 1 - j else j - (n - k));
  }

  lemma InCrashListing(ids: seq<string>, k: nat, i: nat)
    requires k <= |ids| && i < |ids|
    ensures ids[i] in CrashListing(ids, k)
  {
    var n := |ids|;
    assert CrashListing(ids, k)[if i < k then i + (n - k) else n - 1 - i] == ids[i];
  }

  lemma CrashListingListed(rows: seq<Row>, tbl: Table, t: string, ids: seq<string>, k: nat, cur: Table)
    requires Crashed(rows, tbl, t, ids, k, cur)
    ensures EnumeratesTenant(cur, CrashListing(ids, k), t) && Climbs(cur, CrashListing(ids, k))
    ensures forall j | 0 <= j < |ids| :: cur[CrashListing(ids, k)[j]].seqNo == CrashNumber(|ids|, k, j)
  {
    var p := CrashListing(ids, k);
    forall j | 0 <= j < |ids|
      ensures p[j] in cur && cur[p[j]].tenant == t && cur[p[j]].seqNo == CrashNumber(|ids|, k, j)
    {
      CrashListingNumber(rows, tbl, t, ids, k, cur, j);
    }
    assert Climbs(cur, p);
    assert Distinct(p);
    forall id | id in cur && cur[id].tenant == t
      ensures id in p
    {
      assert tbl[id].tenant == t;
      assert id in ids;
      var i :| 0 <= i < |ids| && ids[i] == id;
      InCrashListing(ids, k, i);
    }
  }

  /** The next job lists the rows not yet rewritten first, the newest of them at the front. */
  lemma ListingAfterCrash(rows: seq<Row>, tbl: Table, t: string, ids: seq<string>, k: nat, cur: Table, r: seq<string>)
    requires Crashed(rows, tbl, t, ids, k, cur)
    requires EnumeratesTenant(cur, r, t) && AscendingSeq(cur, r)
    ensures r == CrashListing(ids, k)
  {
    CrashListingListed(rows, tbl, t, ids, k, cur);
    SortedIsUnique(cur, t, CrashListing(ids, k), r);
  }

  lemma ClashAfterCrashIff(rows: seq<Row>, tbl: Table, t: string, ids: seq<string>, k: nat, cur: Table, i: nat)
    requires Crashed(rows, tbl, t, ids, k, cur) && i < |ids|
    ensures Stored(cur, CrashListing(ids, k)) && (ClashAt(cur, CrashListing(ids, k), i) <==> k <= i && 2 * i < |ids| - 1)
  {
    var n, p := |ids|, CrashListing(ids, k);
    CrashListingListed(rows, tbl, t, ids, k, cur);
    if k <= i && 2 * i < n - 1 {
      var j := n - 1 - i;
      assert i < j < n && -cur[p[j]].seqNo == i + 1;
    }
    if ClashAt(cur, p, i) {
      var j :| i < j < n && -cur[p[j]].seqNo == i + 1;
      assert j < n - k;
    }
  }

  /** After a crash behind k of n rows of a log numbered 1..n, the next job runs through if and only if 2k + 2 > n. */
  lemma NextJobSucceedsIff(rows: seq<Row>, tbl: Table, t: string, ids: seq<string>, k: nat, cur: Table, r: seq<string>)
    requires Crashed(rows, tbl, t, ids, k, cur)
    requires EnumeratesTenant(cur, r, t) && AscendingSeq(cur, r)
    ensures NoClash(cur, r) <==> 2 * k + 2 > |ids|
  {
    ListingAfterCrash(rows, tbl, t, ids, k, cur, r);
    forall i | 0 <= i < |ids|
      ensures ClashAt(cur, r, i) <==> k <= i && 2 * i < |ids| - 1
    {
      ClashAfterCrashIff(rows, tbl, t, ids, k, cur, i);
    }
    if 2 * k + 2 <= |ids| {
      assert ClashAt(cur, r, k);
    }
  }

  // ---------- what the next job leaves ----------

  /** The next job. */
  function NextJob(sha: Digest, cur: Table, t: string, r: seq<string>): Progress {
    Loop(Rewriting(Linking(sha), t, r), Negated(cur, t), 0, |r|, "")
  }

  /** A row the loop has passed, or never comes to, stays as it is. */
  lemma {:induction false} PassedRowStays(link: Link, cur: Table, t: string, ids: seq<string>, lo: nat, hi: nat, prev: string, id: string)
    requires lo <= hi <= |ids| && id in cur && forall i | lo <= i < hi :: ids[i] != id
    ensures var out := Loop(Rewriting(link, t, ids), cur, lo, hi, prev).table; id in out && out[id] == cur[id]
    decreases hi - lo
  {
    if lo < hi {
      var p := Rewriting(link, t, ids)(cur, lo, prev);
      if p.ok {
        PassedRowStays(link, p.table, t, ids, lo + 1, hi, p.hash, id);
      }
    }
  }

  lemma FirstOfNextJob(sha: Digest, cur: Table, t: string, r: seq<string>) returns (p: Progress)
    requires EnumeratesTenant(cur, r, t) && r != []
    ensures p == Rewriting(Linking(sha), t, r)(Negated(cur, t), 0, "")
    ensures p.ok <==> !ClashAt(cur, r, 0)
    ensures p.ok ==> r[0] in p.table && p.table[r[0]].seqNo == 1
    ensures !p.ok ==> p.table == Negated(cur, t)
  {
    var rows := Reanchored(sha, Fetch(cur, r));
    ReanchoredIsPlan(sha, cur, r);
    NegatedIsDone(rows, cur, t, r);
    p := NextRow(sha, rows, cur, Negated(cur, t), t, r, 0);
    assert Planned(sha, cur, r, rows, 0);
  }

  lemma TwiceNegated(rows: seq<Row>, tbl: Table, t: string, ids: seq<string>, cur: Table)
    requires Crashed(rows, tbl, t, ids, 0, cur)
    ensures Negated(cur, t) == tbl
  {
    forall id | id in tbl
      ensures Negated(cur, t)[id] == tbl[id]
    {
      if tbl[id].tenant == t {
        assert id in ids;
        var i :| 0 <= i < |ids| && ids[i] == id;
      }
    }
  }

  /** After a crash in the middle the newest row ends as number 1: the log is another one. */
  lemma NewestBecomesFirst(sha: Digest, rows: seq<Row>, tbl: Table, t: string, ids: seq<string>, k: nat, cur: Table)
    requires Crashed(rows, tbl, t, ids, k, cur) && 0 < k < |ids|
    ensures NextJob(sha, cur, t, CrashListing(ids, k)).table != tbl
  {
    var n, r := |ids|, CrashListing(ids, k);
    CrashListingListed(rows, tbl, t, ids, k, cur);
    ClashAfterCrashIff(rows, tbl, t, ids, k, cur, 0);
    var p := FirstOfNextJob(sha, cur, t, r);
    assert r[0] == ids[n - 1] && rows[n - 1].seqNo == n;
    PassedRowStays(Linking(sha), p.table, t, r, 1, n, p.hash, r[0]);
    assert NextJob(sha, cur, t, r) == Loop(Rewriting(Linking(sha), t, r), p.table, 1, n, p.hash);
  }

  /** After a crash right behind the negation, the next job fails at once and its own negation restores the log, or the log has one row. */
  lemma NegationIsUndone(sha: Digest, rows: seq<Row>, tbl: Table, t: string, ids: seq<string>, cur: Table)
    requires Crashed(rows, tbl, t, ids, 0, cur) && ids != [] && Accepted(sha, rows)
    ensures NextJob(sha, cur, t, CrashListing(ids, 0)).table == tbl
  {
    var n, r := |ids|, CrashListing(ids, 0);
    CrashListingListed(rows, tbl, t, ids, 0, cur);
    ClashAfterCrashIff(rows, tbl, t, ids, 0, cur, 0);
    TwiceNegated(rows, tbl, t, ids, cur);
    var p := FirstOfNextJob(sha, cur, t, r);
    if n == 1 {
      SingleRowReturns(sha, rows, tbl, t, ids, cur);
    }
  }

  lemma SingleRowReturns(sha: Digest, rows: seq<Row>, tbl: Table, t: string, ids: seq<string>, cur: Table)
    requires Crashed(rows, tbl, t, ids, 0, cur) && |ids| == 1 && Accepted(sha, rows)
    ensures NextJob(sha, cur, t, CrashListing(ids, 0)).table == tbl
  {
    var r := CrashListing(ids, 0);
    assert r == ids;
    TwiceNegated(rows, tbl, t, ids, cur);
    CrashListingListed(rows, tbl, t, ids, 0, cur);
    ClashAfterCrashIff(rows, tbl, t, ids, 0, cur, 0);
    var link := Linking(sha);
    var p := RewriteRow(link, tbl, t, ids[0], 1, "");
    assert Rewriting(link, t, r)(tbl, 0, "") == p;
    var q := FirstOfNextJob(sha, cur, t, r);
    assert rows[0] == tbl[ids[0]] && ChainedAt(sha, rows, 0);
    assert p.table[ids[0]] == Chain(sha, "", tbl[ids[0]].(seqNo := 1));
    SameColumns(sha, "", tbl[ids[0]]);
    assert p.table == tbl;
  }

  /** Without a crash the next job finds the log as it was and keeps it. */
  lemma NothingToRepair(sha: Digest, rows: seq<Row>, tbl: Table, t: string, ids: seq<string>, cur: Table)
    requires Crashed(rows, tbl, t, ids, |ids|, cur) && Accepted(sha, rows)
    ensures NextJob(sha, cur, t, CrashListing(ids, |ids|)).table == tbl
  {
    assert CrashListing(ids, |ids|) == ids;
    DoneIsSame(rows, tbl, t, ids, cur);
    forall id | id in tbl && tbl[id].tenant == t
      ensures tbl[id].seqNo >= 1
    {
      assert id in ids;
      PlaceInNumbering(tbl, ids, id);
    }
    FreshJobSettles(sha, tbl, t, ids);
  }

  /**
   A valid log of n rows, a crash behind k of them, and the next job: the table is the one there was before
   the crash if and only if k is 0 or n, and the job reports success with it if and only if k is n
   or there is one row.
   */
  lemma NextJobRestoresIff(sha: Digest, rows: seq<Row>, tbl: Table, t: string, ids: seq<string>, k: nat, cur: Table, r: seq<string>)
    requires Crashed(rows, tbl, t, ids, k, cur) && ids != [] && Accepted(sha, rows)
    requires EnumeratesTenant(cur, r, t) && AscendingSeq(cur, r)
    ensures NextJob(sha, cur, t, r).table == tbl <==> k == 0 || k == |ids|
    ensures NextJob(sha, cur, t, r).ok <==> 2 * k + 2 > |ids|
    ensures NextJob(sha, cur, t, r).ok && NextJob(sha, cur, t, r).table == tbl <==> k == |ids| || |ids| == 1
  {
    ListingAfterCrash(rows, tbl, t, ids, k, cur, r);
    NextJobOkIff(sha, rows, tbl, t, ids, k, cur, r);
    if k == |ids| {
      NothingToRepair(sha, rows, tbl, t, ids, cur);
    } else if k == 0 {
      NegationIsUndone(sha, rows, tbl, t, ids, cur);
    } else {
      NewestBecomesFirst(sha, rows, tbl, t, ids, k, cur);
    }
  }

  lemma NextJobOkIff(sha: Digest, rows: seq<Row>, tbl: Table, t: string, ids: seq<string>, k: nat, cur: Table, r: seq<string>)
    requires Crashed(rows, tbl, t, ids, k, cur)
    requires EnumeratesTenant(cur, r, t) && AscendingSeq(cur, r)
    ensures NextJob(sha, cur, t, r).ok <==> 2 * k + 2 > |ids|
  {
    var plan := Reanchored(sha, Fetch(cur, r));
    NextJobSucceedsIff(rows, tbl, t, ids, k, cur, r);
    ReanchoredIsPlan(sha, cur, r);
    NegatedIsDone(plan, cur, t, r);
    Undisturbed(sha, plan, cur, Negated(cur, t), t, r, 0, |r|);
  }
}
