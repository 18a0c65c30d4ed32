/**
 The audit chain of one tenant under everything that writes it: appends of many processes, the
 purge of retention, and the re-anchoring job, statement by statement. No statement reads or
 writes another tenant's rows, except that a purge is the same statement for all tenants.
 */
module AuditAppend {
  import opened Tables
  import opened AuditLog
  import opened AuditMigrations
  import opened AuditReanchor
  import opened AuditJob

  /** The tail an attempt saw: none, or the last row's number and hash. */
  datatype Tail = NoRows | At(seqNo: int, hash: string)

  /** An open append transaction: the entry to write and the tail it read. */
  datatype Attempt = Attempt(tenant: string, at: int, payload: Payload, tail: Tail)

  /** An open job: the rows it listed, whether it has negated their numbers, the next row and the last hash. */
  datatype Job = Job(ids: seq<string>, negated: bool, next: nat, prev: string)

  /** The rows of the tenant by id, the open attempts by writer, and the open job. */
  datatype State = State(tbl: Table, open: map<nat, Attempt>, job: Option<Job>)

  datatype Action =
    | ReadTail(writer: nat, attempt: Attempt)
    | Insert(writer: nat, id: string)
    | Abandon(writer: nat)
    | Purge(before: int)      // deletes the older rows
    | List(ids: seq<string>)  // a job begins: lists the rows in sequence order
    | Negate                  // its second statement
    | Rewrite                 // its statements on one row
    | Die                     // the job's process dies between two statements

  /** The row with the greatest sequence number. */
  ghost predicate IsTail(tbl: Table, tail: Tail) {
    match tail
    case NoRows => tbl == map[]
    case At(n, h) =>
      && (exists id :: id in tbl && tbl[id].seqNo == n && tbl[id].hash == h)
      && forall id | id in tbl :: tbl[id].seqNo <= n
  }

  /** The row an attempt tries to insert. */
  function Successor(sha: Digest, a: Attempt): Row {
    var prev := if a.tail.At? then a.tail.hash else "";
    var r := Row(a.tenant, a.at, if a.tail.At? then a.tail.seqNo + 1 else 1, a.payload, prev, "");
    r.(hash := AuditHash(sha, prev, r))
  }

  ghost predicate Lists(tbl: Table, t: string, ids: seq<string>) {
    EnumeratesTenant(tbl, ids, t) && AscendingSeq(tbl, ids)
  }

  /** The job after one row: it ends at a row it cannot rewrite and after the last one. */
  function AfterRow(j: Job, p: Progress): Option<Job> {
    if p.ok && j.next + 1 < |j.ids| then Some(Job(j.ids, true, j.next + 1, p.hash)) else None
  }

  /** The job has listed and not yet negated. */
  predicate Listed(s: State) {
    s.job.Some? && !s.job.value.negated
  }

  /** The job is about to rewrite a row. */
  predicate AtRow(s: State) {
    s.job.Some? && s.job.value.negated && s.job.value.next < |s.job.value.ids|
  }

  function Appended(sha: Digest, t: string, s: State, w: nat, id: string): State
    requires w in s.open
  {
    var row := Successor(sha, s.open[w]);
    if Holds(s.tbl, t, row.seqNo) then s.(open := s.open - {w})  // the unique index rejects the row
    else s.(tbl := s.tbl[id := row], open := s.open - {w})
  }

  function Begun(s: State, ids: seq<string>): State {
    if ids == [] then s else s.(job := Some(Job(ids, false, 0, "")))
  }

  function NegatedState(t: string, s: State): State
    requires Listed(s)
  {
    s.(tbl := Negated(s.tbl, t), job := Some(s.job.value.(negated := true)))
  }

  function Rewritten(sha: Digest, t: string, s: State): State
    requires AtRow(s)
  {
    var j := s.job.value;
    var p := RewriteRow(Linking(sha), s.tbl, t, j.ids[j.next], j.next + 1, j.prev);
    s.(tbl := p.table, job := AfterRow(j, p))
  }

  ghost predicate Step(sha: Digest, t: string, s: State, a: Action, s': State) {
    match a
    case ReadTail(w, attempt) =>
      w !in s.open && attempt.tenant == t && IsTail(s.tbl, attempt.tail) && s' == s.(open := s.open[w := attempt])
    case Insert(w, id) => w in s.open && Unused(s, id) && s' == Appended(sha, t, s, w, id)
    case Abandon(w) => w in s.open && s' == s.(open := s.open - {w})
    case Purge(before) => s' == s.(tbl := Purged(s.tbl, before))
    case List(ids) => s.job.None? && Lists(s.tbl, t, ids) && s' == Begun(s, ids)
    case Negate => Listed(s) && s' == NegatedState(t, s)
    case Rewrite => AtRow(s) && s' == Rewritten(sha, t, s)
    case Die => s.job.Some? && s' == s.(job := None)
  }

  /** A generated id: neither in the table nor listed by the open job. */
  predicate Unused(s: State, id: string) {
    id !in s.tbl && (s.job.Some? ==> id !in s.job.value.ids)
  }

  // ---------- what the open job will leave ----------

  /** The table as the job's row loop sees it: before the negation it is still to be negated. */
  function Current(t: string, s: State): Table {
    if s.job.Some? && !s.job.value.negated then Negated(s.tbl, t) else s.tbl
  }

  /** The table a job leaves if it runs on undisturbed, given the table its loop is at. */
  function Left(sha: Digest, t: string, tbl: Table, job: Option<Job>): Table {
    if job.Some? && job.value.next <= |job.value.ids|
    then Outcome(Linking(sha), tbl, t, job.value.ids, job.value.next, job.value.prev) else tbl
  }

  /** The table once the open job, if any, has run to its end undisturbed. */
  function Settled(sha: Digest, t: string, s: State): Table {
    Left(sha, t, Current(t, s), s.job)
  }

  /** All rows and attempts are the tenant's, and the rows an open job has yet to rewrite are its to rewrite. */
  ghost predicate Sane(t: string, s: State) {
    && Only(s.tbl, t)
    && (forall w | w in s.open :: s.open[w].tenant == t)
    && (s.job.Some? ==>
          && s.job.value.next < |s.job.value.ids| && (!s.job.value.negated ==> s.job.value.next == 0 && s.job.value.prev == "")
          && Idle(Current(t, s), t, s.job.value.ids, s.job.value.next))
  }

  lemma NegationKeepsSettled(sha: Digest, t: string, s: State)
    requires Listed(s) && s.job.value.next <= |s.job.value.ids|
    ensures Settled(sha, t, NegatedState(t, s)) == Settled(sha, t, s)
  {
  }

  lemma RowKeepsLeft(sha: Digest, t: string, tbl: Table, j: Job)
    requires j.next < |j.ids|
    ensures var p := RewriteRow(Linking(sha), tbl, t, j.ids[j.next], j.next + 1, j.prev);
            Left(sha, t, p.table, AfterRow(j, p)) == Left(sha, t, tbl, Some(j))
  {
    OutcomeStep(Linking(sha), tbl, t, j.ids, j.next, j.prev);
    var p := RewriteRow(Linking(sha), tbl, t, j.ids[j.next], j.next + 1, j.prev);
    if j.next + 1 == |j.ids| {
      OutcomeEnd(Linking(sha), p.table, t, j.ids, p.hash);
    }
  }

  lemma RewritingKeepsSettled(sha: Digest, t: string, s: State)
    requires AtRow(s)
    ensures Settled(sha, t, Rewritten(sha, t, s)) == Settled(sha, t, s)
  {
    RowKeepsLeft(sha, t, s.tbl, s.job.value);
    var s' := Rewritten(sha, t, s);
    assert Current(t, s) == s.tbl && Current(t, s') == s'.tbl;
  }

  /**
   The job refines one atomic step: its negation and its rows, rewritten or given up, do not
   change the table it will leave.
   */
  lemma JobStepsKeepSettled(sha: Digest, t: string, s: State, a: Action, s': State)
    requires Sane(t, s) && Step(sha, t, s, a, s') && (a.Negate? || a.Rewrite?)
    ensures Settled(sha, t, s') == Settled(sha, t, s)
  {
    if a.Negate? { NegationKeepsSettled(sha, t, s); } else { RewritingKeepsSettled(sha, t, s); }
  }

  /** Listing the rows of a table without negative numbers: the job will leave the re-anchored log. */
  lemma ListingSettles(sha: Digest, t: string, s: State, ids: seq<string>)
    requires Sane(t, s) && s.job.None? && EnumeratesTenant(s.tbl, ids, t)
    requires forall id | id in s.tbl :: s.tbl[id].seqNo >= 1
    ensures Sane(t, Begun(s, ids)) && Chained(sha, Settled(sha, t, Begun(s, ids)), t, ids)
    ensures Fetch(Settled(sha, t, Begun(s, ids)), ids) == Reanchored(sha, Fetch(s.tbl, ids))
    ensures Accepted(sha, Fetch(s.tbl, ids)) ==> Settled(sha, t, Begun(s, ids)) == s.tbl
  {
    if ids != [] {
      FreshJobSettles(sha, s.tbl, t, ids);
    } else {
      assert Fetch(s.tbl, ids) == [];
    }
  }

  // ---------- the log that is settled ----------

  /** The log of a valid table, in sequence order. */
  ghost function LogOf(sha: Digest, t: string, tbl: Table): seq<Row> {
    if AcceptedIn(sha, tbl, t) then
      var q :| Chained(sha, tbl, t, q);
      Fetch(tbl, q)
    else []
  }

  lemma LogIs(sha: Digest, t: string, tbl: Table, q: seq<string>)
    requires Chained(sha, tbl, t, q)
    ensures AcceptedIn(sha, tbl, t) && LogOf(sha, t, tbl) == Fetch(tbl, q)
  {
    var p :| Chained(sha, tbl, t, p) && LogOf(sha, t, tbl) == Fetch(tbl, p);
    ChainIsUnique(sha, tbl, t, p, q);
  }

  /** Whatever the open job has left to do, the log will be valid when it is done. */
  ghost predicate Good(sha: Digest, t: string, s: State) {
    Sane(t, s) && AcceptedIn(sha, Settled(sha, t, s), t)
  }

  /** At a moment without an open job that is the log itself. */
  lemma GoodWithoutJob(sha: Digest, t: string, s: State)
    requires Sane(t, s) && s.job.None?
    ensures Good(sha, t, s) <==> AcceptedIn(sha, s.tbl, t)
  {
  }

  /** The new row as an open job will find it: a row inserted before the negation is negated too. */
  function Found(s: State, r: Row): Row {
    if Listed(s) then r.(seqNo := -r.seqNo) else r
  }

  /** The attempt's row, as it will be found, has the next number and names the last hash of the log. */
  predicate Extends(log: seq<Row>, r: Row) {
    r.seqNo == |log| + 1 && r.prevHash == LastHash(log)
  }

  /** No row that the open job has yet to rewrite is in the table. */
  predicate NothingLeft(s: State)
    requires s.job.Some?
  {
    forall i | s.job.value.next <= i < |s.job.value.ids| :: s.job.value.ids[i] !in s.tbl
  }

  /**
   The guards. An insert finds its number taken, or its row extends the log that is settled; a
   purge deletes no row of that log before a surviving one; a job dies before its negation over
   a valid log, or with no row left to rewrite.
   */
  ghost predicate Harmless(sha: Digest, t: string, s: State, a: Action) {
    match a
    case Insert(w, _) =>
      w in s.open ==>
        var r := Successor(sha, s.open[w]);
        Holds(s.tbl, t, r.seqNo) || Extends(LogOf(sha, t, Settled(sha, t, s)), Found(s, r))
    case Purge(before) => PurgesTail(LogOf(sha, t, Settled(sha, t, s)), before)
    case Die => s.job.Some? ==> if Listed(s) then AcceptedIn(sha, s.tbl, t) else NothingLeft(s)
    case _ => true
  }

  // ---------- each action ----------

  /** The hash does not depend on the number: an attempt's row carries the right one wherever it lands. */
  lemma ExtendsIff(sha: Digest, log: seq<Row>, s: State, a: Attempt)
    ensures Continues(sha, log, Found(s, Successor(sha, a))) <==> Extends(log, Found(s, Successor(sha, a)))
  {
    var r := Successor(sha, a);
    SameColumns(sha, r.prevHash, r);
    assert r.hash == AuditHash(sha, r.prevHash, r);
  }

  /** What is appended is the attempt's own entry, with the next number after its tail and the tail's hash. */
  lemma SuccessorCarriesEntry(sha: Digest, a: Attempt)
    ensures var r := Successor(sha, a);
            && r.tenant == a.tenant && r.at == a.at && r.payload == a.payload
            && r.seqNo == (if a.tail.At? then a.tail.seqNo + 1 else 1)
            && r.prevHash == (if a.tail.At? then a.tail.hash else "")
            && r.hash == AuditHash(sha, r.prevHash, r)
  {
    SameColumns(sha, Successor(sha, a).prevHash, Successor(sha, a));
  }

  /** An insert adds its row under its id exactly if no row of the tenant has its number; the attempt is over either way. */
  lemma InsertMeans(sha: Digest, t: string, s: State, w: nat, id: string, s': State)
    requires Step(sha, t, s, Insert(w, id), s')
    ensures s'.open == s.open - {w} && s'.job == s.job
    ensures var row := Successor(sha, s.open[w]);
            s'.tbl == if exists o :: o in s.tbl && s.tbl[o].tenant == t && s.tbl[o].seqNo == row.seqNo then s.tbl else s.tbl[id := row]
  {
  }

  /** A purge removes exactly the rows older than its limit. */
  lemma PurgeMeans(sha: Digest, t: string, s: State, before: int, s': State)
    requires Step(sha, t, s, Purge(before), s')
    ensures s'.open == s.open && s'.job == s.job
    ensures forall id :: id in s'.tbl <==> id in s.tbl && s.tbl[id].at >= before
    ensures forall id | id in s'.tbl :: s'.tbl[id] == s.tbl[id]
  {
  }

  /** A job that finds rows is open from its listing on; the negation negates exactly the numbers of the tenant's rows. */
  lemma ListAndNegateMean(sha: Digest, t: string, s: State, a: Action, s': State)
    requires Step(sha, t, s, a, s') && (a.List? || a.Negate?)
    ensures s'.open == s.open && s'.tbl.Keys == s.tbl.Keys
    ensures a.List? ==> s'.tbl == s.tbl && s'.job == if a.ids == [] then None else Some(Job(a.ids, false, 0, ""))
    ensures a.Negate? ==> s.job.Some? && s'.job == Some(s.job.value.(negated := true))
    ensures a.Negate? ==> forall id | id in s.tbl ::
              s'.tbl[id] == s.tbl[id].(seqNo := if s.tbl[id].tenant == t then -s.tbl[id].seqNo else s.tbl[id].seqNo)
  {
  }

  /** The row's next statement finds it, and no other row of the tenant has the number it wants. */
  predicate RowIsFree(t: string, s: State)
    requires AtRow(s)
  {
    var id, n := s.job.value.ids[s.job.value.next], s.job.value.next + 1;
    id in s.tbl && !exists o :: o in s.tbl && o != id && s.tbl[o].tenant == t && s.tbl[o].seqNo == n
  }

  /**
   A job rewrites its next row if the row is there and its number free, chained to the row before, and
   is over after its last one; otherwise it is over at once and changes nothing.
   */
  lemma RewriteMeans(sha: Digest, t: string, s: State, s': State)
    requires Step(sha, t, s, Rewrite, s')
    ensures s'.open == s.open
    ensures var j := s.job.value;
            var id := j.ids[j.next];
            if RowIsFree(t, s) then
              var hash := AuditHash(sha, j.prev, s.tbl[id]);
              && s'.tbl == s.tbl[id := s.tbl[id].(seqNo := j.next + 1, prevHash := j.prev, hash := hash)]
              && s'.job == if j.next + 1 == |j.ids| then None else Some(Job(j.ids, true, j.next + 1, hash))
            else s'.tbl == s.tbl && s'.job == None
  {
    var j := s.job.value;
    var id := j.ids[j.next];
    if RowIsFree(t, s) {
      SameColumns(sha, j.prev, s.tbl[id].(seqNo := j.next + 1));
      assert AuditHash(sha, j.prev, s.tbl[id].(seqNo := j.next + 1)) == AuditHash(sha, j.prev, s.tbl[id]);
      assert s'.tbl == s.tbl[id := Chain(sha, j.prev, s.tbl[id].(seqNo := j.next + 1))];
    }
  }

  lemma CurrentWithRow(t: string, s: State, id: string, r: Row)
    requires id !in s.tbl && r.tenant == t
    ensures Current(t, s.(tbl := s.tbl[id := r])) == Current(t, s)[id := Found(s, r)]
  {
    if Listed(s) {
      assert Negated(s.tbl[id := r], t) == Negated(s.tbl, t)[id := r.(seqNo := -r.seqNo)];
    }
  }

  lemma CurrentPurged(t: string, s: State, before: int)
    ensures Current(t, s.(tbl := Purged(s.tbl, before))) == Purged(Current(t, s), before)
  {
    if Listed(s) {
      assert Negated(Purged(s.tbl, before), t) == Purged(Negated(s.tbl, t), before);
    }
  }

  /** A row that gets in keeps the settled log valid if and only if it extends it. */
  lemma RowGetsIn(sha: Digest, t: string, s: State, w: nat, id: string)
    requires Good(sha, t, s) && w in s.open && Unused(s, id)
    ensures var r := Successor(sha, s.open[w]);
            var s' := s.(tbl := s.tbl[id := r]);
            && Sane(t, s')
            && (AcceptedIn(sha, Settled(sha, t, s'), t) <==> Extends(LogOf(sha, t, Settled(sha, t, s)), Found(s, r)))
            && (AcceptedIn(sha, Settled(sha, t, s'), t) ==>
                  LogOf(sha, t, Settled(sha, t, s')) == LogOf(sha, t, Settled(sha, t, s)) + [Found(s, r)])
  {
    var r := Successor(sha, s.open[w]);
    var s', cur, fin, f := s.(tbl := s.tbl[id := r]), Current(t, s), Settled(sha, t, s), Found(s, r);
    var q :| Chained(sha, fin, t, q);
    LogIs(sha, t, fin, q);
    CurrentWithRow(t, s, id, r);
    ExtendsIff(sha, Fetch(fin, q), s, s.open[w]);
    if s.job.Some? {
      var j := s.job.value;
      InsertDuringJobIff(sha, cur, t, j.ids, j.next, j.prev, q, id, f);
    }
    AddRowIff(sha, fin, t, q, id, f);
    if Continues(sha, Fetch(fin, q), f) {
      ListingWithRow(fin, t, q, id, f);
      LogIs(sha, t, fin[id := f], q + [id]);
    }
  }

  /** A purge keeps the settled log valid if and only if it deletes no row of it before a surviving one. */
  lemma PurgeActs(sha: Digest, t: string, s: State, before: int)
    requires Good(sha, t, s)
    ensures var s' := s.(tbl := Purged(s.tbl, before));
            && Sane(t, s')
            && (AcceptedIn(sha, Settled(sha, t, s'), t) <==> PurgesTail(LogOf(sha, t, Settled(sha, t, s)), before))
            && (AcceptedIn(sha, Settled(sha, t, s'), t) ==> LogOf(sha, t, Settled(sha, t, s')) <= LogOf(sha, t, Settled(sha, t, s)))
  {
    var s', cur, fin := s.(tbl := Purged(s.tbl, before)), Current(t, s), Settled(sha, t, s);
    var q :| Chained(sha, fin, t, q);
    LogIs(sha, t, fin, q);
    CurrentPurged(t, s, before);
    if s.job.Some? {
      var j := s.job.value;
      PurgeDuringJobIff(sha, cur, t, j.ids, j.next, j.prev, q, before);
      AcceptedIsClear(sha, cur, t, j.ids, j.next, j.prev);
      PurgedIsClearIff(cur, t, j.ids, j.next, before);
    }
    PurgeIff(sha, fin, t, q, before);
    if PurgesTail(Fetch(fin, q), before) {
      var k := TailPurge(sha, fin, t, q, before);
      LogIs(sha, t, Purged(fin, before), q[..k]);
    }
  }

  /** A job that dies leaves the table as it is. */
  lemma DeathActs(sha: Digest, t: string, s: State)
    requires Good(sha, t, s) && s.job.Some?
    ensures var s' := s.(job := None);
            && Sane(t, s')
            && (AcceptedIn(sha, Settled(sha, t, s'), t) <==> if Listed(s) then AcceptedIn(sha, s.tbl, t) else NothingLeft(s))
            && (!Listed(s) && NothingLeft(s) ==> Settled(sha, t, s') == Settled(sha, t, s))
  {
    var j := s.job.value;
    if !Listed(s) {
      if NothingLeft(s) {
        assert StopAt(s.tbl, t, j.ids, j.next) == j.next;
        assert Blocked(s.tbl, t, j.ids, j.next);
        OutcomeStep(Linking(sha), s.tbl, t, j.ids, j.next, j.prev);
      } else if AcceptedIn(sha, s.tbl, t) {
        var i :| j.next <= i < |j.ids| && j.ids[i] in s.tbl;
        var q :| Chained(sha, s.tbl, t, q);
        PlaceInChain(sha, s.tbl, t, q, j.ids[i]);
      }
    }
  }

  lemma RewritingIsSane(sha: Digest, t: string, s: State)
    requires Sane(t, s) && AtRow(s)
    ensures Sane(t, Rewritten(sha, t, s))
  {
    var j, link := s.job.value, Linking(sha);
    var p := RewriteRow(link, s.tbl, t, j.ids[j.next], j.next + 1, j.prev);
    LinkingKeepsRest(sha);
    FirstRewriting(link, s.tbl, t, j.ids, j.next, j.prev);
    assert Only(p.table, t);
  }

  lemma PositiveLog(sha: Digest, t: string, tbl: Table, q: seq<string>)
    requires Only(tbl, t) && Chained(sha, tbl, t, q)
    ensures forall id | id in tbl :: tbl[id].seqNo >= 1
  {
    forall id | id in tbl
      ensures tbl[id].seqNo >= 1
    {
      PlaceInChain(sha, tbl, t, q, id);
    }
  }

  /** A job that begins on a valid log will leave it as it is. */
  lemma JobBegins(sha: Digest, t: string, s: State, ids: seq<string>)
    requires Good(sha, t, s) && s.job.None? && Lists(s.tbl, t, ids)
    ensures Sane(t, Begun(s, ids)) && Settled(sha, t, Begun(s, ids)) == Settled(sha, t, s)
  {
    var q :| Chained(sha, s.tbl, t, q);
    PositiveLog(sha, t, s.tbl, q);
    ListingOfChain(sha, s.tbl, t, q, ids);
    ListingSettles(sha, t, s, ids);
  }

  lemma AppendActs(sha: Digest, t: string, s: State, w: nat, id: string)
    requires Good(sha, t, s) && w in s.open && Unused(s, id)
    ensures Sane(t, Appended(sha, t, s, w, id))
    ensures AcceptedIn(sha, Settled(sha, t, Appended(sha, t, s, w, id)), t) <==> Harmless(sha, t, s, Insert(w, id))
  {
    var s' := Appended(sha, t, s, w, id);
    if !Holds(s.tbl, t, Successor(sha, s.open[w]).seqNo) {
      RowGetsIn(sha, t, s, w, id);
      assert Settled(sha, t, s') == Settled(sha, t, s.(tbl := s'.tbl));
    } else {
      assert Settled(sha, t, s') == Settled(sha, t, s);
    }
  }

  /** From a good state, a step leads to a good one if and only if it is harmless. */
  lemma StepKeepsGoodIff(sha: Digest, t: string, s: State, a: Action, s': State)
    requires Good(sha, t, s) && Step(sha, t, s, a, s')
    ensures Sane(t, s')
    ensures Good(sha, t, s') <==> Harmless(sha, t, s, a)
  {
    match a
    case ReadTail(_, _) => assert Settled(sha, t, s') == Settled(sha, t, s);
    case Insert(w, id) => AppendActs(sha, t, s, w, id);
    case Abandon(_) => assert Settled(sha, t, s') == Settled(sha, t, s);
    case Purge(before) => PurgeActs(sha, t, s, before);
    case _ => JobActs(sha, t, s, a, s');
  }

  lemma JobActs(sha: Digest, t: string, s: State, a: Action, s': State)
    requires Good(sha, t, s) && Step(sha, t, s, a, s') && (a.List? || a.Negate? || a.Rewrite? || a.Die?)
    ensures Sane(t, s')
    ensures AcceptedIn(sha, Settled(sha, t, s'), t) <==> Harmless(sha, t, s, a)
    ensures !a.Die? ==> Settled(sha, t, s') == Settled(sha, t, s)
  {
    match a
    case List(ids) => JobBegins(sha, t, s, ids);
    case Negate => NegationKeepsSettled(sha, t, s);
    case Rewrite =>
      RewritingKeepsSettled(sha, t, s);
      RewritingIsSane(sha, t, s);
    case Die => DeathActs(sha, t, s);
  }

  /** While a job has rows left to rewrite, the table itself is not valid, however valid the log was. */
  lemma MidwayIsRejected(sha: Digest, t: string, s: State)
    requires Good(sha, t, s) && AtRow(s) && !NothingLeft(s)
    ensures !AcceptedIn(sha, s.tbl, t)
  {
    DeathActs(sha, t, s);
  }

  /** From any table without negative numbers, valid or not, a job that begins makes the state good. */
  lemma ListingRepairs(sha: Digest, t: string, s: State, ids: seq<string>, s': State)
    requires Sane(t, s) && Step(sha, t, s, List(ids), s')
    requires forall id | id in s.tbl :: s.tbl[id].seqNo >= 1
    ensures Good(sha, t, s') && LogOf(sha, t, Settled(sha, t, s')) == Reanchored(sha, Fetch(s.tbl, ids))
  {
    ListingSettles(sha, t, s, ids);
    LogIs(sha, t, Settled(sha, t, s'), ids);
  }

  /** A row with a positive number that gets in between a job's listing and its negation is never harmless. */
  lemma InsertAfterListingHarms(sha: Digest, t: string, s: State, w: nat, id: string)
    requires Good(sha, t, s) && Listed(s) && w in s.open && Unused(s, id)
    requires Successor(sha, s.open[w]).seqNo >= 1 && !Holds(s.tbl, t, Successor(sha, s.open[w]).seqNo)
    ensures !Good(sha, t, Appended(sha, t, s, w, id))
  {
    AppendActs(sha, t, s, w, id);
  }

  // ---------- runs ----------

  /** A run: states, and the actions between them. */
  ghost predicate Run(sha: Digest, t: string, states: seq<State>, actions: seq<Action>) {
    && |states| == |actions| + 1
    && forall i {:trigger actions[i]} | 0 <= i < |actions| :: Step(sha, t, states[i], actions[i], states[i + 1])
  }

  /** A property holds at every moment if and only if every step keeps it. */
  lemma {:induction false} AlwaysIff(holds: nat -> bool, keeps: nat -> bool, i: nat, j: nat)
    requires i <= j && holds(i)
    requires forall m | i <= m < j && holds(m) :: holds(m + 1) <==> keeps(m)
    ensures (forall m | i <= m <= j :: holds(m)) <==> forall m | i <= m < j :: keeps(m)
    decreases j
  {
    if i < j {
      AlwaysIff(holds, keeps, i, j - 1);
      assert holds(j - 1) ==> (holds(j - 1 + 1) <==> keeps(j - 1));
    }
  }

  ghost predicate GoodAt(sha: Digest, t: string, states: seq<State>, m: nat) {
    m < |states| && Good(sha, t, states[m])
  }

  ghost predicate HarmlessAt(sha: Digest, t: string, states: seq<State>, actions: seq<Action>, m: nat) {
    m < |actions| && m < |states| && Harmless(sha, t, states[m], actions[m])
  }

  lemma GoodStep(sha: Digest, t: string, states: seq<State>, actions: seq<Action>, m: nat)
    requires Run(sha, t, states, actions) && m < |actions| && GoodAt(sha, t, states, m)
    ensures GoodAt(sha, t, states, m + 1) <==> HarmlessAt(sha, t, states, actions, m)
  {
    StepKeepsGoodIff(sha, t, states[m], actions[m], states[m + 1]);
  }

  /**
   In every run of appends, purges and jobs, interleaved statement by statement with crashes
   anywhere: the log is valid at every moment, as far as the open job has left it, if and only
   if every step was harmless.
   */
  lemma EveryRunGoodIff(sha: Digest, t: string, states: seq<State>, actions: seq<Action>, j: nat)
    requires Run(sha, t, states, actions) && GoodAt(sha, t, states, 0) && j < |states|
    ensures (forall m | 0 <= m <= j :: GoodAt(sha, t, states, m)) <==> forall m | 0 <= m < j :: HarmlessAt(sha, t, states, actions, m)
  {
    var holds := (m: nat) => GoodAt(sha, t, states, m);
    var keeps := (m: nat) => HarmlessAt(sha, t, states, actions, m);
    forall m | 0 <= m < j && holds(m)
      ensures holds(m + 1) <==> keeps(m)
    {
      GoodStep(sha, t, states, actions, m);
    }
    AlwaysIff(holds, keeps, 0, j);
    assert forall m: nat :: holds(m) <==> GoodAt(sha, t, states, m);
    assert forall m: nat :: keeps(m) <==> HarmlessAt(sha, t, states, actions, m);
  }

  // ---------- runs in which appends and jobs keep apart ----------

  /** The attempt's tail is some record of the log. */
  predicate Remembers(log: seq<Row>, a: Attempt) {
    a.tail.At? ==> 1 <= a.tail.seqNo <= |log| && log[a.tail.seqNo - 1].hash == a.tail.hash
  }

  /** The log is valid, a job that has only listed leaves it alone, and every attempt saw a record of it. */
  ghost predicate Invariant(sha: Digest, t: string, s: State) {
    && Good(sha, t, s)
    && (Listed(s) ==> Settled(sha, t, s) == s.tbl)
    && forall w | w in s.open :: Remembers(LogOf(sha, t, Settled(sha, t, s)), s.open[w])
  }

  /**
   What the mutex of a single process grants, and what it cannot: appends read and write only while
   no job is open, nothing is purged, and no job dies between its negation and its last row.
   */
  predicate Apart(s: State, a: Action) {
    match a
    case ReadTail(_, _) => s.job.None?
    case Insert(_, _) => s.job.None?
    case Purge(_) => false
    case Die => s.job.Some? ==> Listed(s) || NothingLeft(s)
    case _ => true
  }

  /** With a valid log, the tail a query returns is the last record. */
  lemma TailIsLast(sha: Digest, t: string, tbl: Table, tail: Tail, q: seq<string>)
    requires Only(tbl, t) && Chained(sha, tbl, t, q) && IsTail(tbl, tail)
    ensures tail.NoRows? <==> q == []
    ensures tail.At? ==> tail == At(|q|, LastHash(Fetch(tbl, q)))
  {
    if tail.At? {
      var id :| id in tbl && tbl[id].seqNo == tail.seqNo && tbl[id].hash == tail.hash;
      PlaceInChain(sha, tbl, t, q, id);
      NumberInChain(sha, tbl, t, q, |q| - 1);
    }
  }

  /** A number is held exactly when it lies within 1..n. */
  lemma HeldNumbers(sha: Digest, t: string, tbl: Table, q: seq<string>, n: int)
    requires Only(tbl, t) && Chained(sha, tbl, t, q)
    ensures Holds(tbl, t, n) <==> 1 <= n <= |q|
  {
    if 1 <= n <= |q| {
      NumberInChain(sha, tbl, t, q, n - 1);
    }
    if Holds(tbl, t, n) {
      var id :| id in tbl && tbl[id].tenant == t && tbl[id].seqNo == n;
      PlaceInChain(sha, tbl, t, q, id);
    }
  }

  /** Without an open job, an attempt that remembers a record of the log is harmless: the unique index is the right guard. */
  lemma UniqueIndexIsExact(sha: Digest, t: string, s: State, w: nat, id: string)
    requires Good(sha, t, s) && s.job.None? && w in s.open && Unused(s, id)
    requires Remembers(LogOf(sha, t, s.tbl), s.open[w])
    ensures var r := Successor(sha, s.open[w]);
            AcceptedIn(sha, s.tbl[id := r], t) <==> !Holds(s.tbl, t, r.seqNo)
    ensures Harmless(sha, t, s, Insert(w, id))
  {
    var r := Successor(sha, s.open[w]);
    var q :| Chained(sha, s.tbl, t, q);
    LogIs(sha, t, s.tbl, q);
    HeldNumbers(sha, t, s.tbl, q, r.seqNo);
    ExtendsIff(sha, Fetch(s.tbl, q), s, s.open[w]);
    AddRowIff(sha, s.tbl, t, q, id, r);
  }

  lemma ReadRemembers(sha: Digest, t: string, s: State, tail: Tail, a: Attempt)
    requires Good(sha, t, s) && s.job.None? && IsTail(s.tbl, a.tail)
    ensures Remembers(LogOf(sha, t, s.tbl), a)
  {
    var q :| Chained(sha, s.tbl, t, q);
    LogIs(sha, t, s.tbl, q);
    TailIsLast(sha, t, s.tbl, a.tail, q);
  }

  /** An append beside no job: the log stays or grows by the attempt's row. */
  lemma AppendGrows(sha: Digest, t: string, s: State, w: nat, id: string)
    requires Invariant(sha, t, s) && s.job.None? && w in s.open && Unused(s, id)
    ensures var s' := Appended(sha, t, s, w, id);
            Good(sha, t, s') && LogOf(sha, t, s.tbl) <= LogOf(sha, t, s'.tbl)
  {
    var s' := Appended(sha, t, s, w, id);
    UniqueIndexIsExact(sha, t, s, w, id);
    AppendActs(sha, t, s, w, id);
    if !Holds(s.tbl, t, Successor(sha, s.open[w]).seqNo) {
      RowGetsIn(sha, t, s, w, id);
      assert Settled(sha, t, s.(tbl := s'.tbl)) == s'.tbl;
    }
  }

  /** A step of appends and jobs that keep apart: the settled log stays valid and only ever grows. */
  lemma StepKeepsInvariant(sha: Digest, t: string, s: State, a: Action, s': State)
    requires Invariant(sha, t, s) && Step(sha, t, s, a, s') && Apart(s, a)
    ensures Invariant(sha, t, s')
    ensures LogOf(sha, t, Settled(sha, t, s)) <= LogOf(sha, t, Settled(sha, t, s'))
  {
    match a
    case ReadTail(w, attempt) => ReadKeepsInvariant(sha, t, s, w, attempt);
    case Insert(w, id) => AppendKeepsInvariant(sha, t, s, w, id);
    case Abandon(_) => assert Settled(sha, t, s') == Settled(sha, t, s);
    case _ => JobKeepsInvariant(sha, t, s, a, s');
  }

  lemma ReadKeepsInvariant(sha: Digest, t: string, s: State, w: nat, attempt: Attempt)
    requires Invariant(sha, t, s) && s.job.None? && attempt.tenant == t && IsTail(s.tbl, attempt.tail)
    ensures Invariant(sha, t, s.(open := s.open[w := attempt]))
  {
    var s' := s.(open := s.open[w := attempt]);
    assert Settled(sha, t, s') == Settled(sha, t, s);
    ReadRemembers(sha, t, s, attempt.tail, attempt);
  }

  lemma AppendKeepsInvariant(sha: Digest, t: string, s: State, w: nat, id: string)
    requires Invariant(sha, t, s) && s.job.None? && w in s.open && Unused(s, id)
    ensures Invariant(sha, t, Appended(sha, t, s, w, id))
    ensures LogOf(sha, t, Settled(sha, t, s)) <= LogOf(sha, t, Settled(sha, t, Appended(sha, t, s, w, id)))
  {
    AppendGrows(sha, t, s, w, id);
    var s' := Appended(sha, t, s, w, id);
    assert Settled(sha, t, s) == s.tbl && Settled(sha, t, s') == s'.tbl;
  }

  lemma JobKeepsInvariant(sha: Digest, t: string, s: State, a: Action, s': State)
    requires Invariant(sha, t, s) && Step(sha, t, s, a, s') && Apart(s, a)
    requires a.List? || a.Negate? || a.Rewrite? || a.Die?
    ensures Invariant(sha, t, s') && Settled(sha, t, s') == Settled(sha, t, s)
  {
    JobActs(sha, t, s, a, s');
    if a.Die? {
      DeathActs(sha, t, s);
    }
    assert s'.open == s.open;
    if Listed(s') {
      assert a.List?;
      assert s'.tbl == s.tbl;
    }
  }

  /**
   In every run in which appends and jobs keep apart, with any number of writers, lost races, crashes
   and repairs: at every moment the log is valid once the open job is done, at every moment
   without one it is valid as it is, and no record of it ever changes.
   */
  lemma {:induction false} EveryRunKeepsChains(sha: Digest, t: string, states: seq<State>, actions: seq<Action>, i: nat, j: nat)
    requires Run(sha, t, states, actions) && Invariant(sha, t, states[0])
    requires i <= j < |states|
    requires forall m | 0 <= m < j :: Apart(states[m], actions[m])
    ensures Invariant(sha, t, states[j])
    ensures LogOf(sha, t, Settled(sha, t, states[i])) <= LogOf(sha, t, Settled(sha, t, states[j]))
    ensures states[j].job.None? ==> AcceptedIn(sha, states[j].tbl, t)
    decreases j
  {
    if j > 0 {
      EveryRunKeepsChains(sha, t, states, actions, if i < j then i else j - 1, j - 1);
      var a := actions[j - 1];
      StepKeepsInvariant(sha, t, states[j - 1], a, states[j]);
    }
  }

  // ---------- anchors ----------

  /** The settled log has positive, distinct numbers and begins with these rows. */
  ghost predicate Anchored(sha: Digest, t: string, s: State, p: seq<Row>) {
    Sane(t, s) && UniqueNumbers(s.tbl, t) && Begins(Settled(sha, t, s), t, p)
  }

  /** The rows are a valid chain of the tenant. */
  predicate IsChain(sha: Digest, t: string, p: seq<Row>) {
    Accepted(sha, p) && OfTenant(p, t)
  }

  /**
   The guards for a beginning of the log. An insert finds its number taken, or its row will be found
   with a positive number that the open job does not want; a purge spares the beginning and
   cuts the job's work off at one place; a job dies before its negation over a log that begins so, or with
   no row left to rewrite.
   */
  ghost predicate Spares(sha: Digest, t: string, s: State, a: Action, p: seq<Row>) {
    match a
    case Insert(w, _) =>
      w in s.open ==>
        var r := Successor(sha, s.open[w]);
        Holds(s.tbl, t, r.seqNo) || (Found(s, r).seqNo >= 1 && !NumberWanted(t, s, Found(s, r).seqNo))
    case Purge(before) => !Hits(p, before) && (s.job.Some? ==> CutsWork(Current(t, s), s.job.value.ids, s.job.value.next, before))
    case Die => s.job.Some? ==> if Listed(s) then Begins(s.tbl, t, p) else NothingLeft(s)
    case _ => true
  }

  predicate NumberWanted(t: string, s: State, n: int) {
    s.job.Some? && Wanted(Current(t, s), s.job.value.ids, s.job.value.next, n)
  }

  lemma HoldsNegated(tbl: Table, t: string, n: int)
    requires Only(tbl, t)
    ensures Holds(Negated(tbl, t), t, -n) <==> Holds(tbl, t, n)
  {
    var neg := Negated(tbl, t);
    if Holds(tbl, t, n) {
      var o :| o in tbl && tbl[o].tenant == t && tbl[o].seqNo == n;
      assert neg[o].seqNo == -n;
    }
    if Holds(neg, t, -n) {
      var o :| o in neg && neg[o].tenant == t && neg[o].seqNo == -n;
      assert tbl[o].seqNo == n;
    }
  }

  lemma RowBesideAnchor(sha: Digest, t: string, s: State, w: nat, id: string, p: seq<Row>)
    requires Anchored(sha, t, s, p) && IsChain(sha, t, p) && w in s.open && Unused(s, id)
    requires !Holds(s.tbl, t, Successor(sha, s.open[w]).seqNo)
    ensures var r := Successor(sha, s.open[w]);
            var s' := s.(tbl := s.tbl[id := r]);
            Sane(t, s') && (Begins(Settled(sha, t, s'), t, p) <==> Found(s, r).seqNo >= 1 && !NumberWanted(t, s, Found(s, r).seqNo))
  {
    var r := Successor(sha, s.open[w]);
    var f := Found(s, r);
    CurrentWithRow(t, s, id, r);
    if Listed(s) {
      HoldsNegated(s.tbl, t, r.seqNo);
    }
    if s.job.Some? {
      var j := s.job.value;
      LinkingKeepsRest(sha);
      InsertDuringJobBeginsIff(Linking(sha), Current(t, s), t, j.ids, j.next, j.prev, p, id, f);
    } else {
      AddRowBeginsIff(s.tbl, t, p, id, r);
    }
  }

  lemma PurgeBesideAnchor(sha: Digest, t: string, s: State, before: int, p: seq<Row>)
    requires Anchored(sha, t, s, p)
    ensures var s' := s.(tbl := Purged(s.tbl, before));
            Sane(t, s') && (Begins(Settled(sha, t, s'), t, p) <==> Spares(sha, t, s, Purge(before), p))
  {
    CurrentPurged(t, s, before);
    if s.job.Some? {
      var j := s.job.value;
      LinkingKeepsRest(sha);
      BeginsIsClear(Linking(sha), Current(t, s), t, j.ids, j.next, j.prev, p);
      PurgedIsClearIff(Current(t, s), t, j.ids, j.next, before);
      PurgeDuringJobBeginsIff(Linking(sha), Current(t, s), t, j.ids, j.next, j.prev, p, before);
    } else {
      PurgeBeginsIff(s.tbl, t, p, before);
    }
  }

  lemma DeathBesideAnchor(sha: Digest, t: string, s: State, p: seq<Row>)
    requires Anchored(sha, t, s, p) && s.job.Some?
    ensures var s' := s.(job := None);
            Sane(t, s') && (Begins(Settled(sha, t, s'), t, p) <==> Spares(sha, t, s, Die, p))
  {
    var j := s.job.value;
    if !Listed(s) && NothingLeft(s) {
      assert Blocked(s.tbl, t, j.ids, j.next);
      LinkingKeepsRest(sha);
      FirstRewriting(Linking(sha), s.tbl, t, j.ids, j.next, j.prev);
      OutcomeStep(Linking(sha), s.tbl, t, j.ids, j.next, j.prev);
    }
  }

  lemma ChainHasUniqueNumbers(sha: Digest, t: string, tbl: Table, q: seq<string>)
    requires Chained(sha, tbl, t, q)
    ensures UniqueNumbers(tbl, t)
  {
    forall a, b | a in tbl && b in tbl && tbl[a].tenant == t && tbl[b].tenant == t && tbl[a].seqNo == tbl[b].seqNo
      ensures a == b
    {
      PlaceInChain(sha, tbl, t, q, a);
      PlaceInChain(sha, tbl, t, q, b);
    }
  }

  /** A job that begins will keep a beginning that is a valid chain, whatever follows it. */
  lemma JobBesideAnchor(sha: Digest, t: string, s: State, ids: seq<string>, p: seq<Row>)
    requires Anchored(sha, t, s, p) && IsChain(sha, t, p) && s.job.None? && Lists(s.tbl, t, ids)
    ensures Sane(t, Begun(s, ids)) && Begins(Settled(sha, t, Begun(s, ids)), t, p)
  {
    var fin := Settled(sha, t, Begun(s, ids));
    BeginsIff(s.tbl, t, p, ids);
    ListingSettles(sha, t, s, ids);
    ReanchorKeepsPrefix(sha, Fetch(s.tbl, ids), p);
    ChainHasUniqueNumbers(sha, t, fin, ids);
    forall i | 0 <= i < |ids|
      ensures fin[ids[i]].seqNo >= 1
    {
      NumberInChain(sha, fin, t, ids, i);
    }
    ListingBegins(fin, t, p, ids);
  }

  lemma ReanchorKeepsPrefix(sha: Digest, rows: seq<Row>, p: seq<Row>)
    requires p <= rows && Accepted(sha, p)
    ensures p <= Reanchored(sha, rows)
  {
    assert rows[..|p|] == p;
    ReanchorPrefix(sha, rows, |p|);
    ReanchorIsIdentityIff(sha, p);
  }

  /** The unique index holds after every statement. */
  lemma StepKeepsIndex(sha: Digest, t: string, s: State, a: Action, s': State)
    requires Only(s.tbl, t) && UniqueNumbers(s.tbl, t) && Step(sha, t, s, a, s')
    requires forall w | w in s.open :: s.open[w].tenant == t
    ensures UniqueNumbers(s'.tbl, t)
  {
    match a
    case Insert(w, id) =>
      if !Holds(s.tbl, t, Successor(sha, s.open[w]).seqNo) { RowKeepsIndex(t, s.tbl, id, Successor(sha, s.open[w])); }
    case Rewrite =>
      var j := s.job.value;
      var p := RewriteRow(Linking(sha), s.tbl, t, j.ids[j.next], j.next + 1, j.prev);
      if p.ok { RewritingKeepsIndex(t, s.tbl, j.ids[j.next], p.table[j.ids[j.next]]); }
    case _ =>
  }

  lemma RowKeepsIndex(t: string, tbl: Table, id: string, r: Row)
    requires UniqueNumbers(tbl, t) && id !in tbl && !Holds(tbl, t, r.seqNo)
    ensures UniqueNumbers(tbl[id := r], t)
  {
  }

  lemma RewritingKeepsIndex(t: string, tbl: Table, id: string, r: Row)
    requires UniqueNumbers(tbl, t) && id in tbl && !SlotTaken(tbl, t, r.seqNo, id)
    ensures UniqueNumbers(tbl[id := r], t)
  {
  }

  lemma SettledWithoutAttempt(sha: Digest, t: string, s: State, tbl: Table, open: map<nat, Attempt>)
    ensures Settled(sha, t, s.(tbl := tbl, open := open)) == Settled(sha, t, s.(tbl := tbl))
  {
  }

  lemma AppendBesideAnchor(sha: Digest, t: string, s: State, w: nat, id: string, p: seq<Row>)
    requires Anchored(sha, t, s, p) && IsChain(sha, t, p) && w in s.open && Unused(s, id)
    ensures var s' := Appended(sha, t, s, w, id);
            Sane(t, s') && (Begins(Settled(sha, t, s'), t, p) <==> Spares(sha, t, s, Insert(w, id), p))
  {
    var s', r := Appended(sha, t, s, w, id), Successor(sha, s.open[w]);
    SettledWithoutAttempt(sha, t, s, s'.tbl, s'.open);
    if !Holds(s.tbl, t, r.seqNo) {
      RowBesideAnchor(sha, t, s, w, id, p);
    }
  }

  lemma StepOfJobBesideAnchor(sha: Digest, t: string, s: State, a: Action, s': State, p: seq<Row>)
    requires Anchored(sha, t, s, p) && IsChain(sha, t, p) && Step(sha, t, s, a, s')
    requires a.List? || a.Negate? || a.Rewrite? || a.Die?
    ensures Sane(t, s') && (Begins(Settled(sha, t, s'), t, p) <==> Spares(sha, t, s, a, p))
  {
    match a
    case List(ids) => JobBesideAnchor(sha, t, s, ids, p);
    case Negate => NegationKeepsSettled(sha, t, s);
    case Rewrite =>
      RewritingKeepsSettled(sha, t, s);
      RewritingIsSane(sha, t, s);
    case Die => DeathBesideAnchor(sha, t, s, p);
  }

  /** A valid beginning of the log survives a step, whatever the rest of the log is, if and only if the step spares it. */
  lemma StepKeepsAnchorIff(sha: Digest, t: string, s: State, a: Action, s': State, p: seq<Row>)
    requires Anchored(sha, t, s, p) && IsChain(sha, t, p) && Step(sha, t, s, a, s')
    ensures Anchored(sha, t, s', p) <==> Spares(sha, t, s, a, p)
  {
    StepKeepsIndex(sha, t, s, a, s');
    match a
    case ReadTail(_, _) => assert Settled(sha, t, s') == Settled(sha, t, s);
    case Insert(w, id) => AppendBesideAnchor(sha, t, s, w, id, p);
    case Abandon(_) => assert Settled(sha, t, s') == Settled(sha, t, s);
    case Purge(before) => PurgeBesideAnchor(sha, t, s, before, p);
    case _ => StepOfJobBesideAnchor(sha, t, s, a, s', p);
  }

  ghost predicate AnchoredAt(sha: Digest, t: string, states: seq<State>, p: seq<Row>, m: nat) {
    m < |states| && Anchored(sha, t, states[m], p)
  }

  ghost predicate SparedAt(sha: Digest, t: string, states: seq<State>, actions: seq<Action>, p: seq<Row>, m: nat) {
    m < |actions| && m < |states| && Spares(sha, t, states[m], actions[m], p)
  }

  lemma AnchorStep(sha: Digest, t: string, states: seq<State>, actions: seq<Action>, p: seq<Row>, m: nat)
    requires Run(sha, t, states, actions) && IsChain(sha, t, p)
    requires m < |actions| && AnchoredAt(sha, t, states, p, m)
    ensures AnchoredAt(sha, t, states, p, m + 1) <==> SparedAt(sha, t, states, actions, p, m)
  {
    StepKeepsAnchorIff(sha, t, states[m], actions[m], states[m + 1], p);
  }

  /**
   In every run of appends, purges and jobs, interleaved statement by statement with crashes
   anywhere: rows that begin the log at one moment and are a valid chain begin the settled log
   at every moment up to a later one if and only if every step in between spares them.
   */
  lemma AnchorHoldsIff(sha: Digest, t: string, states: seq<State>, actions: seq<Action>, i: nat, j: nat, p: seq<Row>)
    requires Run(sha, t, states, actions) && IsChain(sha, t, p)
    requires i <= j < |states| && AnchoredAt(sha, t, states, p, i)
    ensures (forall m | i <= m <= j :: AnchoredAt(sha, t, states, p, m)) <==> forall m | i <= m < j :: SparedAt(sha, t, states, actions, p, m)
  {
    var holds, keeps := WhenAnchored(sha, t, states, p), WhenSpared(sha, t, states, actions, p);
    forall m | i <= m < j && holds(m)
      ensures holds(m + 1) <==> keeps(m)
    {
      AnchorKeeps(sha, t, states, actions, p, m);
    }
    AlwaysIff(holds, keeps, i, j);
  }

  ghost function WhenAnchored(sha: Digest, t: string, states: seq<State>, p: seq<Row>): (f: nat -> bool)
    ensures forall m: nat :: f(m) <==> AnchoredAt(sha, t, states, p, m)
  {
    (m: nat) => AnchoredAt(sha, t, states, p, m)
  }

  ghost function WhenSpared(sha: Digest, t: string, states: seq<State>, actions: seq<Action>, p: seq<Row>): (f: nat -> bool)
    ensures forall m: nat :: f(m) <==> SparedAt(sha, t, states, actions, p, m)
  {
    (m: nat) => SparedAt(sha, t, states, actions, p, m)
  }

  lemma AnchorKeeps(sha: Digest, t: string, states: seq<State>, actions: seq<Action>, p: seq<Row>, m: nat)
    requires Run(sha, t, states, actions) && IsChain(sha, t, p)
    requires m < |actions| && WhenAnchored(sha, t, states, p)(m)
    ensures WhenAnchored(sha, t, states, p)(m + 1) <==> WhenSpared(sha, t, states, actions, p)(m)
  {
    AnchorStep(sha, t, states, actions, p, m);
  }

  /** At a moment without an open job, being anchored is what the query in sequence order shows. */
  lemma AnchoredWithoutJob(sha: Digest, t: string, s: State, p: seq<Row>, r: seq<string>)
    requires Sane(t, s) && s.job.None? && UniqueNumbers(s.tbl, t) && IsChain(sha, t, p) && Lists(s.tbl, t, r)
    ensures Anchored(sha, t, s, p) <==> (forall i | 0 <= i < |r| :: s.tbl[r[i]].seqNo >= 1) && p <= Fetch(s.tbl, r)
  {
    BeginsIff(s.tbl, t, p, r);
  }

  lemma WholeLogIsAnchored(sha: Digest, t: string, s: State)
    requires Good(sha, t, s) && s.job.None?
    ensures IsChain(sha, t, LogOf(sha, t, s.tbl)) && Anchored(sha, t, s, LogOf(sha, t, s.tbl))
  {
    var q :| Chained(sha, s.tbl, t, q);
    LogIs(sha, t, s.tbl, q);
    ChainHasUniqueNumbers(sha, t, s.tbl, q);
    PositiveLog(sha, t, s.tbl, q);
    ListingBegins(s.tbl, t, Fetch(s.tbl, q), q);
  }

  /**
   An anchor taken at a moment without an open job (the number and hash of the tenant's tail) settles that
   much of the log: the log keeps it exactly as long as every step spares it, and any
   other accepted log of the tenant that carries the anchored hash at that position has the same
   records there, provided the anchored columns contain no `|`.
   */
  lemma AnchorSettlesHistory(sha: Digest, t: string, states: seq<State>, actions: seq<Action>, i: nat, j: nat, other: seq<Row>)
    requires CollisionFree(sha) && Run(sha, t, states, actions)
    requires i <= j < |states| && Good(sha, t, states[i]) && states[i].job.None?
    ensures var p := LogOf(sha, t, states[i].tbl);
            && ((forall m | i <= m <= j :: AnchoredAt(sha, t, states, p, m))
                <==> forall m | i <= m < j :: SparedAt(sha, t, states, actions, p, m))
            && (Accepted(sha, other) && OfTenant(other, t)
                && |p| <= |other| && PrevOf(other, |p|) == LastHash(p) && SeparatorFree(p)
                ==> other[..|p|] == p)
  {
    var p := LogOf(sha, t, states[i].tbl);
    WholeLogIsAnchored(sha, t, states[i]);
    AnchorHoldsIff(sha, t, states, actions, i, j, p);
    if Accepted(sha, other) && OfTenant(other, t) && |p| <= |other|
       && PrevOf(other, |p|) == LastHash(p) && SeparatorFree(p)
    {
      PrefixAccepted(sha, other, |p|);
      TailPinsLog(sha, t, p, other[..|p|]);
    }
  }
}
