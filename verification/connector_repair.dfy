/**
 Migration 156: backfills the ownership key of connectors so that the unique index on
 (tenant, ownership key) can be created.
 */
module ConnectorRepair {
  import opened Tables

  /**
   A connector row. `canonical` is the identity computed from provider, dataset and spec;
   it is empty when the spec is not a JSON object.
   */
  datatype Connector = Connector(tenant: string, deleted: bool, canonical: string, key: string)

  type Table = map<string, Connector>

  /** What the identity function returns: nothing, or `src:v1:` and a hexadecimal digest. */
  predicate IsCanonical(c: string) {
    c == "" || ("src:v1:" <= c && '\0' !in c)
  }

  ghost predicate WellFormed(tbl: Table) {
    forall id | id in tbl :: IsCanonical(tbl[id].canonical)
  }

  /** A live row with an identity. */
  predicate Claims(c: Connector) {
    !c.deleted && c.canonical != ""
  }

  function SeenKey(c: Connector): string {
    c.tenant + "\0" + c.canonical
  }

  /** Some earlier live row has the same tenant and identity. */
  predicate ClaimedBefore(tbl: Table, ids: seq<string>, i: nat)
    requires i < |ids| && Stored(tbl, ids)
  {
    exists j :: 0 <= j < i && Claims(tbl[ids[j]]) && tbl[ids[j]].tenant == tbl[ids[i]].tenant && tbl[ids[j]].canonical == tbl[ids[i]].canonical
  }

  /** The key row i must get, whatever key it has. */
  function RightKey(tbl: Table, ids: seq<string>, i: nat): string
    requires i < |ids| && Stored(tbl, ids)
  {
    var c := tbl[ids[i]];
    if c.deleted then "deleted:" + ids[i]
    else if c.canonical == "" || ClaimedBefore(tbl, ids, i) then "legacy:" + ids[i]
    else c.canonical
  }

  lemma SeenKeyInjective(a: Connector, b: Connector)
    requires '\0' !in a.canonical && '\0' !in b.canonical
    requires SeenKey(a) == SeenKey(b)
    ensures a.tenant == b.tenant && a.canonical == b.canonical
  {
    var x, y := a.tenant, b.tenant;
    var whole := SeenKey(a);
    assert whole[|x|] == '\0' && whole[|y|] == '\0';
    assert forall i | |x| < i < |whole| :: whole[i] == a.canonical[i - |x| - 1];
    assert forall i | |y| < i < |whole| :: whole[i] == b.canonical[i - |y| - 1];
    assert |x| == |y|;
    assert x == whole[..|x|] == y;
    assert a.canonical == whole[|x| + 1..] == b.canonical;
  }

  /** The keys claimed by the first k rows. */
  ghost predicate SeenBy(tbl: Table, ids: seq<string>, k: nat, seen: set<string>)
    requires k <= |ids| && Stored(tbl, ids)
  {
    && (forall j | 0 <= j < k && Claims(tbl[ids[j]]) :: SeenKey(tbl[ids[j]]) in seen)
    && (forall s | s in seen :: exists j :: 0 <= j < k && Claims(tbl[ids[j]]) && SeenKey(tbl[ids[j]]) == s)
  }

  lemma SeenMeansClaimed(tbl: Table, ids: seq<string>, k: nat, seen: set<string>)
    requires k < |ids| && Stored(tbl, ids) && WellFormed(tbl) && SeenBy(tbl, ids, k, seen)
    ensures SeenKey(tbl[ids[k]]) in seen <==> ClaimedBefore(tbl, ids, k)
  {
    var c := tbl[ids[k]];
    if SeenKey(c) in seen {
      var j :| 0 <= j < k && Claims(tbl[ids[j]]) && SeenKey(tbl[ids[j]]) == SeenKey(c);
      SeenKeyInjective(tbl[ids[j]], c);
    }
  }

  /**
   The loop. Every row ends with its right key, and exactly the rows whose key was different
   are written.
   */
  method BackfillOwnershipKeys(tbl: Table, ids: seq<string>) returns (out: Table, writes: set<string>)
    requires Enumerates(tbl, ids) && WellFormed(tbl)
    ensures Backfilled(tbl, ids, out)
    ensures forall i | 0 <= i < |ids| :: ids[i] in writes <==> tbl[ids[i]].key != RightKey(tbl, ids, i)
    ensures forall id | id in writes :: id in ids
  {
    out, writes := tbl, {};
    var seen: set<string> := {};
    ghost var right := seq(|ids|, i requires 0 <= i < |ids| => RightKey(tbl, ids, i));
    for k := 0 to |ids|
      invariant Progress(tbl, ids, right, k, out, writes)
      invariant SeenBy(tbl, ids, k, seen)
    {
      var key;
      key, seen := ChooseKey(tbl, ids, k, seen);
      ProgressStep(tbl, ids, right, k, out, writes);
      if key == tbl[ids[k]].key {
        continue;
      }
      out := out[ids[k] := tbl[ids[k]].(key := key)];
      writes := writes + {ids[k]};
    }
  }

  /** The first k rows have their keys and are recorded as written or not; the rest is untouched. */
  ghost predicate Progress(tbl: Table, ids: seq<string>, right: seq<string>, k: nat, out: Table, writes: set<string>) {
    && Stored(tbl, ids) && |right| == |ids| && k <= |ids|
    && out.Keys == tbl.Keys
    && (forall i | 0 <= i < k :: out[ids[i]] == tbl[ids[i]].(key := right[i]))
    && (forall i | k <= i < |ids| :: out[ids[i]] == tbl[ids[i]])
    && (forall i | 0 <= i < k :: ids[i] in writes <==> tbl[ids[i]].key != right[i])
    && (forall id | id in writes :: id in ids[..k])
  }

  lemma ProgressStep(tbl: Table, ids: seq<string>, right: seq<string>, k: nat, out: Table, writes: set<string>)
    requires Enumerates(tbl, ids) && k < |ids| && Progress(tbl, ids, right, k, out, writes)
    ensures if right[k] == tbl[ids[k]].key then Progress(tbl, ids, right, k + 1, out, writes)
            else Progress(tbl, ids, right, k + 1, out[ids[k] := tbl[ids[k]].(key := right[k])], writes + {ids[k]})
  {
    assert ids[k] !in ids[..k];
    assert ids[..k + 1] == ids[..k] + [ids[k]];
    if right[k] != tbl[ids[k]].key {
      var out' := out[ids[k] := tbl[ids[k]].(key := right[k])];
      assert forall i | 0 <= i < |ids| && i != k :: out'[ids[i]] == out[ids[i]];
    }
  }

  /** The loop body up to the comparison: chooses the key and updates the seen set. */
  method ChooseKey(tbl: Table, ids: seq<string>, k: nat, seen: set<string>) returns (key: string, seen': set<string>)
    requires k < |ids| && Stored(tbl, ids) && WellFormed(tbl) && SeenBy(tbl, ids, k, seen)
    ensures key == RightKey(tbl, ids, k)
    ensures SeenBy(tbl, ids, k + 1, seen')
  {
    var row := tbl[ids[k]];
    seen' := seen;
    SeenMeansClaimed(tbl, ids, k, seen);
    if row.deleted {
      key := "deleted:" + ids[k];
    } else if row.canonical == "" || SeenKey(row) in seen {
      key := "legacy:" + ids[k];
    } else {
      key := row.canonical;
      seen' := seen + {SeenKey(row)};
    }
  }

  ghost predicate Backfilled(tbl: Table, ids: seq<string>, out: Table)
    requires Stored(tbl, ids)
  {
    && out.Keys == tbl.Keys
    && forall i | 0 <= i < |ids| :: out[ids[i]] == tbl[ids[i]].(key := RightKey(tbl, ids, i))
  }

  /** Said of the columns alone: which of the three keys a row ends with; no other column changes. */
  lemma OwnershipKey(tbl: Table, ids: seq<string>, out: Table, i: nat)
    requires Stored(tbl, ids) && Backfilled(tbl, ids, out) && i < |ids|
    ensures var id := ids[i];
            var earlier := exists j :: 0 <= j < i && !tbl[ids[j]].deleted && tbl[ids[j]].tenant == tbl[id].tenant && tbl[ids[j]].canonical == tbl[id].canonical;
            && out[id] == tbl[id].(key := out[id].key)
            && (tbl[id].deleted ==> out[id].key == "deleted:" + id)
            && (!tbl[id].deleted && tbl[id].canonical == "" ==> out[id].key == "legacy:" + id)
            && (!tbl[id].deleted && tbl[id].canonical != "" ==> out[id].key == if earlier then "legacy:" + id else tbl[id].canonical)
  {
  }

  /** The first character tells the three kinds of key apart. */
  lemma KeyShapes(tbl: Table, ids: seq<string>, i: nat)
    requires i < |ids| && Stored(tbl, ids) && WellFormed(tbl)
    ensures var k, c := RightKey(tbl, ids, i), tbl[ids[i]];
            && |k| > 0
            && (k[0] == 'd' <==> c.deleted)
            && (k[0] == 's' <==> Claims(c) && !ClaimedBefore(tbl, ids, i))
            && (k[0] == 'l' <==> !c.deleted && (c.canonical == "" || ClaimedBefore(tbl, ids, i)))
  {
    var c := tbl[ids[i]].canonical;
    assert IsCanonical(c);
    if c != "" { assert c[0] == "src:v1:"[0]; }
  }

  /** After the backfill no two rows of a tenant share an ownership key: the unique index can be created. */
  lemma KeysAreUnique(tbl: Table, ids: seq<string>, out: Table, i: nat, j: nat)
    requires Enumerates(tbl, ids) && WellFormed(tbl) && Backfilled(tbl, ids, out)
    requires i < j < |ids|
    ensures (out[ids[i]].tenant, out[ids[i]].key) != (out[ids[j]].tenant, out[ids[j]].key)
  {
    KeyShapes(tbl, ids, i);
    KeyShapes(tbl, ids, j);
    var a, b := RightKey(tbl, ids, i), RightKey(tbl, ids, j);
    assert ids[i] != ids[j];
    PrefixKeepsApart("deleted:", ids[i], ids[j]);
    PrefixKeepsApart("legacy:", ids[i], ids[j]);
  }

  lemma PrefixKeepsApart(p: string, x: string, y: string)
    requires x != y
    ensures p + x != p + y
  {
    assert (p + x)[|p|..] == x && (p + y)[|p|..] == y;
  }

  /** The oldest live row of each tenant's identity holds that identity as its key, and no other row does. */
  lemma OldestHoldsIdentity(tbl: Table, ids: seq<string>, out: Table, i: nat)
    requires Enumerates(tbl, ids) && WellFormed(tbl) && Backfilled(tbl, ids, out)
    requires i < |ids| && Claims(tbl[ids[i]])
    ensures out[ids[i]].key == tbl[ids[i]].canonical <==> !ClaimedBefore(tbl, ids, i)
    ensures exists j :: 0 <= j <= i && out[ids[j]].tenant == tbl[ids[i]].tenant && out[ids[j]].key == tbl[ids[i]].canonical
    decreases i
  {
    KeyShapes(tbl, ids, i);
    assert IsCanonical(tbl[ids[i]].canonical);
    assert tbl[ids[i]].canonical[0] == "src:v1:"[0];
    if ClaimedBefore(tbl, ids, i) {
      var j :| 0 <= j < i && Claims(tbl[ids[j]]) && tbl[ids[j]].tenant == tbl[ids[i]].tenant && tbl[ids[j]].canonical == tbl[ids[i]].canonical;
      OldestHoldsIdentity(tbl, ids, out, j);
    }
  }

  /** The right keys do not depend on the stored ones: a second run finds every key right and writes nothing. */
  lemma SecondRunWritesNothing(tbl: Table, ids: seq<string>, out: Table, i: nat)
    requires Enumerates(tbl, ids) && Backfilled(tbl, ids, out)
    requires i < |ids|
    ensures out[ids[i]].key == RightKey(out, ids, i)
  {
    assert forall j | 0 <= j < |ids| :: out[ids[j]] == tbl[ids[j]].(key := out[ids[j]].key);
    assert ClaimedBefore(out, ids, i) <==> ClaimedBefore(tbl, ids, i);
  }
}
