/**
 The tamper-evident audit log: how a record is hashed, what the deployment drill's
 checker accepts, and what an anchored tail hash pins down.
 */
module AuditLog {
  import opened Text

  /** The digest function: SHA-256 in hexadecimal, passed as a parameter. */
  type Digest = string -> string

  /**
   What the results below need of a digest: no collisions, never empty, and no `|`
   in its hexadecimal output.
   */
  ghost predicate CollisionFree(sha: Digest) {
    && (forall x, y :: sha(x) == sha(y) ==> x == y)
    && (forall x :: sha(x) != "" && '|' !in sha(x))
  }

  /**
   The seventeen free-text columns that are hashed, in hashing order: actor tenant,
   target tenant, user, action, resource, resource id, detail, ip, trace, scope, result,
   approval id, approval action hash, acting context, decision, permission, policy version.
   */
  type Payload = p: seq<string> | |p| == 17 witness seq(17, i => "")

  /**
   One audit row without its id, which is neither hashed nor checked. `at` counts
   microseconds, the precision the timestamp is truncated to before hashing.
   */
  datatype Row = Row(tenant: string, at: int, seqNo: int, payload: Payload, prevHash: string, hash: string)

  /** The columns after the tenant: payload and time stamp. */
  function Columns(r: Row): (cs: seq<string>)
    ensures |cs| == 18
  {
    r.payload + [SignedNumeral(r.at)]
  }

  function Preimage(prev: string, r: Row): string {
    prev + ['|'] + (r.tenant + ['|'] + Join(Columns(r), '|'))
  }

  function AuditHash(sha: Digest, prev: string, r: Row): string {
    sha(Preimage(prev, r))
  }

  /** The hash a record at position i must name as its predecessor. */
  function PrevOf(rows: seq<Row>, i: nat): string
    requires i <= |rows|
  {
    if i == 0 then "" else rows[i - 1].hash
  }

  function LastHash(rows: seq<Row>): string {
    PrevOf(rows, |rows|)
  }

  predicate ChainedAt(sha: Digest, rows: seq<Row>, i: nat)
    requires i < |rows|
  {
    rows[i].prevHash == PrevOf(rows, i) && rows[i].hash == AuditHash(sha, PrevOf(rows, i), rows[i])
  }

  /** Every record names its predecessor's hash and carries its own correct hash. */
  predicate Linked(sha: Digest, rows: seq<Row>) {
    forall i | 0 <= i < |rows| :: ChainedAt(sha, rows, i)
  }

  /** Sequence numbers run 1, 2, 3, ... */
  predicate Numbered(rows: seq<Row>) {
    forall i | 0 <= i < |rows| :: rows[i].seqNo == i + 1
  }

  predicate Accepted(sha: Digest, rows: seq<Row>) {
    Numbered(rows) && Linked(sha, rows)
  }

  predicate OfTenant(rows: seq<Row>, t: string) {
    forall i | 0 <= i < |rows| :: rows[i].tenant == t
  }

  // ---------- the checker ----------

  datatype CheckResult =
    | Valid(tenantsChecked: nat, recordsChecked: nat)
    | UnknownTenant(tenant: string)
    | NoTenants
    | Broken(tenant: string, seqNo: int)

  /** The tenants a drill looks at: the named one, or all of them when the name is blank. */
  function Targets(requested: string, tenants: seq<string>): seq<string> {
    if TrimSpace(requested) != "" then [requested] else tenants
  }

  function RecordCount(read: string -> seq<Row>, ts: seq<string>): nat {
    if ts == [] then 0 else RecordCount(read, ts[..|ts| - 1]) + |read(ts[|ts| - 1])|
  }

  /** The first record at which the chain of one tenant is invalid; the number of records if there is none. */
  predicate FirstFault(sha: Digest, rows: seq<Row>, i: nat) {
    && i <= |rows|
    && Accepted(sha, rows[..i])
    && (i < |rows| ==> !Accepted(sha, rows[..i + 1]))
  }

  /** The inner loop of the drill: walks one tenant's records, carrying the previous hash. */
  method CheckTenant(sha: Digest, records: seq<Row>) returns (index: nat)
    ensures FirstFault(sha, records, index)
    ensures index == |records| <==> Accepted(sha, records)
  {
    var previousHash := "";
    for i := 0 to |records|
      invariant previousHash == PrevOf(records, i)
      invariant Accepted(sha, records[..i])
    {
      var record := records[i];
      PrefixStep(sha, records, i);
      if record.seqNo != i + 1 || record.prevHash != previousHash || record.hash != AuditHash(sha, previousHash, record) {
        return i;
      }
      previousHash := record.hash;
    }
    assert records[..|records|] == records;
    return |records|;
  }

  /**
   The drill's check. `tenants` lists the tenant table and `read` is what the query for
   one tenant's records in sequence order returns.
   */
  method CheckAuditChain(sha: Digest, requested: string, tenants: seq<string>, read: string -> seq<Row>)
    returns (result: CheckResult)
    ensures result.UnknownTenant? <==> TrimSpace(requested) != "" && requested !in tenants
    ensures result.NoTenants? <==> TrimSpace(requested) == "" && tenants == []
    ensures result.Valid? ==>
              forall i | 0 <= i < |Targets(requested, tenants)| :: Accepted(sha, read(Targets(requested, tenants)[i]))
    ensures result.Valid? ==>
              && result.tenantsChecked == |Targets(requested, tenants)|
              && result.recordsChecked == RecordCount(read, Targets(requested, tenants))
    ensures result.Broken? ==>
              && FirstBroken(sha, Targets(requested, tenants), read, result.tenant)
              && !Accepted(sha, read(result.tenant))
              && FaultNumbered(sha, read(result.tenant), result.seqNo)
  {
    var ids: seq<string>;
    if TrimSpace(requested) != "" {
      if requested !in tenants {
        return UnknownTenant(requested);
      }
      ids := [requested];
    } else {
      ids := tenants;
    }
    if |ids| == 0 {
      return NoTenants;
    }
    assert ids == Targets(requested, tenants);
    result := CheckTargets(sha, ids, read);
  }

  /** The loop over the tenants: stops at the first broken log. */
  method CheckTargets(sha: Digest, ids: seq<string>, read: string -> seq<Row>) returns (result: CheckResult)
    ensures result.Valid? || result.Broken?
    ensures result.Valid? ==> forall i | 0 <= i < |ids| :: Accepted(sha, read(ids[i]))
    ensures result.Valid? ==> result.tenantsChecked == |ids| && result.recordsChecked == RecordCount(read, ids)
    ensures result.Broken? ==>
              && FirstBroken(sha, ids, read, result.tenant)
              && !Accepted(sha, read(result.tenant))
              && FaultNumbered(sha, read(result.tenant), result.seqNo)
  {
    var total := 0;
    for k := 0 to |ids|
      invariant forall j | 0 <= j < k :: Accepted(sha, read(ids[j]))
      invariant total == RecordCount(read, ids[..k])
    {
      var records := read(ids[k]);
      var index := CheckTenant(sha, records);
      if index < |records| {
        assert ids[k] in ids;
        return Broken(ids[k], records[index].seqNo);
      }
      total := total + |records|;
      assert ids[..k + 1][..k] == ids[..k];
    }
    assert ids[..|ids|] == ids;
    return Valid(|ids|, total);
  }

  /** The tenant is in the list, and every tenant listed before it has a valid log. */
  ghost predicate FirstBroken(sha: Digest, ids: seq<string>, read: string -> seq<Row>, t: string) {
    exists k :: 0 <= k < |ids| && ids[k] == t && forall j | 0 <= j < k :: Accepted(sha, read(ids[j]))
  }

  /** The reported sequence number is the one stored in the first invalid record. */
  ghost predicate FaultNumbered(sha: Digest, rows: seq<Row>, seqNo: int) {
    exists i :: 0 <= i < |rows| && FirstFault(sha, rows, i) && rows[i].seqNo == seqNo
  }

  lemma LinkedStep(sha: Digest, rows: seq<Row>, n: nat)
    requires n < |rows|
    ensures Linked(sha, rows[..n + 1]) <==> Linked(sha, rows[..n]) && ChainedAt(sha, rows, n)
  {
    var longer, shorter := rows[..n + 1], rows[..n];
    forall i | 0 <= i < n
      ensures ChainedAt(sha, longer, i) <==> ChainedAt(sha, shorter, i)
    {
      assert longer[i] == shorter[i] && PrevOf(longer, i) == PrevOf(shorter, i);
    }
    assert ChainedAt(sha, longer, n) <==> ChainedAt(sha, rows, n);
    if Linked(sha, longer) {
      forall i | 0 <= i < n
        ensures ChainedAt(sha, shorter, i)
      {
        assert ChainedAt(sha, longer, i);
      }
      assert ChainedAt(sha, longer, n);
    }
  }

  lemma NumberedStep(rows: seq<Row>, n: nat)
    requires n < |rows|
    ensures Numbered(rows[..n + 1]) <==> Numbered(rows[..n]) && rows[n].seqNo == n + 1
  {
    var longer, shorter := rows[..n + 1], rows[..n];
    assert longer == shorter + [rows[n]];
    if Numbered(longer) {
      assert forall i | 0 <= i < n :: shorter[i] == longer[i];
      assert longer[n].seqNo == n + 1;
    }
  }

  /** A prefix one longer is accepted exactly when the prefix is and the next record fits. */
  lemma PrefixStep(sha: Digest, rows: seq<Row>, n: nat)
    requires n < |rows|
    ensures Accepted(sha, rows[..n + 1]) <==>
            && Accepted(sha, rows[..n])
            && rows[n].seqNo == n + 1
            && ChainedAt(sha, rows, n)
  {
    LinkedStep(sha, rows, n);
    NumberedStep(rows, n);
  }

  // ---------- what a tail hash pins down ----------

  /** No hashed free-text column of the log contains the separator `|`. */
  predicate SeparatorFree(rows: seq<Row>) {
    forall i | 0 <= i < |rows| :: FreeOf(rows[i].payload, '|')
  }

  lemma StampIsSeparatorFree(n: int)
    ensures '|' !in SignedNumeral(n)
  {
    assert n >= 0 ==> AllDigits(SignedNumeral(n));
    assert n < 0 ==> SignedNumeral(n)[0] == '-' && AllDigits(SignedNumeral(n)[1..]);
    assert n < 0 ==> SignedNumeral(n) == "-" + SignedNumeral(n)[1..];
  }

  /** Equal hashes of two rows of one tenant: same predecessor hash and same columns, if one side is separator-free. */
  lemma HashPinsRow(sha: Digest, p: string, a: Row, q: string, b: Row)
    requires CollisionFree(sha)
    requires '|' !in p && '|' !in q
    requires a.tenant == b.tenant && FreeOf(a.payload, '|')
    requires AuditHash(sha, p, a) == AuditHash(sha, q, b)
    ensures p == q && a.payload == b.payload && a.at == b.at
  {
    var x, y := a.tenant + ['|'] + Join(Columns(a), '|'), b.tenant + ['|'] + Join(Columns(b), '|');
    SplitAtFirst(p, x, q, y, '|');
    var cut := |a.tenant| + 1;
    assert Join(Columns(a), '|') == x[cut..] == y[cut..] == Join(Columns(b), '|');
    StampIsSeparatorFree(a.at);
    JoinInjective(Columns(a), Columns(b), '|');
    assert a.payload == Columns(a)[..17] && b.payload == Columns(b)[..17];
    assert Columns(a)[17] == Columns(b)[17];
    SignedNumeralInjective(a.at, b.at);
  }

  /** The tenant is hashed too: with separator-free tenants, equal hashes mean equal tenants. */
  lemma HashPinsTenant(sha: Digest, p: string, a: Row, q: string, b: Row)
    requires CollisionFree(sha)
    requires '|' !in p && '|' !in q && '|' !in a.tenant && '|' !in b.tenant
    requires AuditHash(sha, p, a) == AuditHash(sha, q, b)
    ensures p == q && a.tenant == b.tenant
  {
    var x, y := Join(Columns(a), '|'), Join(Columns(b), '|');
    SplitAtFirst(p, a.tenant + ['|'] + x, q, b.tenant + ['|'] + y, '|');
    SplitAtFirst(a.tenant, x, b.tenant, y, '|');
  }

  lemma PrevOfIsSeparatorFree(sha: Digest, rows: seq<Row>, i: nat)
    requires CollisionFree(sha) && Linked(sha, rows) && i <= |rows|
    ensures '|' !in PrevOf(rows, i)
    ensures PrevOf(rows, i) == "" <==> i == 0
  {
    if i > 0 {
      assert ChainedAt(sha, rows, i - 1);
    }
  }

  lemma PrefixAccepted(sha: Digest, rows: seq<Row>, n: nat)
    requires Accepted(sha, rows) && n <= |rows|
    ensures Accepted(sha, rows[..n])
  {
    var p := rows[..n];
    forall i | 0 <= i < n
      ensures ChainedAt(sha, p, i)
    {
      assert ChainedAt(sha, rows, i);
      assert PrevOf(p, i) == PrevOf(rows, i);
    }
  }

  /**
   A separator-free log is the only accepted log of its tenant with its tail hash:
   equal tails force equal lengths and equal records.
   */
  lemma {:induction false} TailPinsLog(sha: Digest, t: string, a: seq<Row>, b: seq<Row>)
    requires CollisionFree(sha)
    requires Accepted(sha, a) && OfTenant(a, t) && SeparatorFree(a)
    requires Accepted(sha, b) && OfTenant(b, t)
    requires LastHash(a) == LastHash(b)
    ensures a == b
    decreases |a|
  {
    PrevOfIsSeparatorFree(sha, a, |a|);
    PrevOfIsSeparatorFree(sha, b, |b|);
    if a != [] {
      var m, n := |a| - 1, |b| - 1;
      assert ChainedAt(sha, a, m) && ChainedAt(sha, b, n);
      PrevOfIsSeparatorFree(sha, a, m);
      PrevOfIsSeparatorFree(sha, b, n);
      HashPinsRow(sha, PrevOf(a, m), a[m], PrevOf(b, n), b[n]);
      PrefixAccepted(sha, a, m);
      PrefixAccepted(sha, b, n);
      TailPinsLog(sha, t, a[..m], b[..n]);
      assert a[m] == b[n];
      assert a == a[..m] + [a[m]] && b == b[..n] + [b[n]];
    }
  }

  /** Moves the separator at position k of column c of record i into a neighbouring column. */
  function Forged(rows: seq<Row>, i: nat, c: nat, k: nat): (r: seq<Row>)
    requires i < |rows| && c < 17 && k < |rows[i].payload[c]|
    ensures |r| == |rows|
  {
    rows[i := rows[i].(payload := Shifted(rows[i].payload, c, k))]
  }

  /** A column holding the separator can be re-split without changing any hash. */
  lemma ForgedIsAccepted(sha: Digest, t: string, rows: seq<Row>, i: nat, c: nat, k: nat)
    requires Accepted(sha, rows) && OfTenant(rows, t)
    requires i < |rows| && c < 17 && k < |rows[i].payload[c]| && rows[i].payload[c][k] == '|'
    ensures Accepted(sha, Forged(rows, i, c, k)) && OfTenant(Forged(rows, i, c, k), t)
    ensures LastHash(Forged(rows, i, c, k)) == LastHash(rows)
    ensures Forged(rows, i, c, k) != rows
  {
    var f := Forged(rows, i, c, k);
    ShiftKeepsJoin(rows[i].payload, c, k, '|');
    SameHash(sha, rows[i], f[i]);
    assert f[i].payload[c] != rows[i].payload[c];
    forall j | 0 <= j < |f|
      ensures ChainedAt(sha, f, j)
    {
      assert ChainedAt(sha, rows, j);
      assert PrevOf(f, j) == PrevOf(rows, j);
    }
  }

  lemma SameHash(sha: Digest, a: Row, b: Row)
    requires Join(a.payload, '|') == Join(b.payload, '|')
    requires a.tenant == b.tenant && a.at == b.at
    ensures forall p :: AuditHash(sha, p, a) == AuditHash(sha, p, b)
  {
    JoinSplitAt(Columns(a), 17, '|');
    JoinSplitAt(Columns(b), 17, '|');
    assert Columns(a)[..17] == a.payload && Columns(b)[..17] == b.payload;
    assert Columns(a)[17..] == Columns(b)[17..] == [SignedNumeral(a.at)];
  }

  /**
   The exact reach of a tail anchor: a log is determined by its tail hash, among all
   accepted logs of its tenant, if and only if none of its columns contains `|`.
   */
  lemma TailPinsExactlySeparatorFreeLogs(sha: Digest, t: string, a: seq<Row>)
    requires CollisionFree(sha)
    requires Accepted(sha, a) && OfTenant(a, t)
    ensures (forall b | Accepted(sha, b) && OfTenant(b, t) && LastHash(b) == LastHash(a) :: b == a)
            <==> SeparatorFree(a)
  {
    if SeparatorFree(a) {
      forall b | Accepted(sha, b) && OfTenant(b, t) && LastHash(b) == LastHash(a)
        ensures b == a
      {
        TailPinsLog(sha, t, a, b);
      }
    } else {
      var i :| 0 <= i < |a| && !FreeOf(a[i].payload, '|');
      var c :| 0 <= c < 17 && '|' in a[i].payload[c];
      var k :| 0 <= k < |a[i].payload[c]| && a[i].payload[c][k] == '|';
      ForgedIsAccepted(sha, t, a, i, c, k);
      var b := Forged(a, i, c, k);
      assert Accepted(sha, b) && OfTenant(b, t) && LastHash(b) == LastHash(a) && b != a;
    }
  }
}
