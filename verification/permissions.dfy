/**
 Reconciling the built-in permission rows with the permission matrix: delete every row of a
 built-in role, then insert the matrix without repeats.
 */
module Permissions {
  import opened Text
  import opened RoleLattice

  datatype Permission = Permission(role: string, action: string, resource: string, effect: string)

  /** The permission table by row id. */
  type Table = map<string, Permission>

  function Allow(g: Grant): Permission {
    Permission(g.role, g.action, g.resource, "allow")
  }

  function Columns(g: Grant): (cs: seq<string>)
    ensures |cs| == 3
  {
    [g.role, g.action, g.resource]
  }

  /** The text by which the loop recognises repeats. */
  function Key(g: Grant): string {
    Join(Columns(g), '|')
  }

  /** The rows of roles that are not built in. */
  function Custom(tbl: Table, builtin: set<string>): Table {
    map id | id in tbl && tbl[id].role !in builtin :: tbl[id]
  }

  function KeysOf(grants: seq<Grant>, key: Grant -> string): set<string> {
    set i | 0 <= i < |grants| :: key(grants[i])
  }

  /** The grants the loop inserts: each the first of its key. */
  function Deduped(matrix: seq<Grant>, key: Grant -> string): seq<Grant> {
    if matrix == [] then []
    else
      var rest, last := matrix[..|matrix| - 1], matrix[|matrix| - 1];
      if key(last) in KeysOf(rest, key) then Deduped(rest, key) else Deduped(rest, key) + [last]
  }

  /** The inserted rows: the k-th inserted grant under the k-th fresh id. */
  function Minted(newId: nat -> string, grants: seq<Grant>): Table {
    if grants == [] then map[]
    else Minted(newId, grants[..|grants| - 1])[newId(|grants| - 1) := Allow(grants[|grants| - 1])]
  }

  /** The next n generated ids are new and different. */
  ghost predicate FreshIds(newId: nat -> string, n: nat, tbl: Table) {
    && (forall i | 0 <= i < n :: newId(i) !in tbl)
    && (forall i, j | 0 <= i < j < n :: newId(i) != newId(j))
  }

  /**
   The reconciled table, said of the rows alone: the rows of custom roles are those there were, and
   every row of a built-in role allows a grant of the matrix, no two of them the same.
   */
  ghost predicate Reconciled(tbl: Table, matrix: seq<Grant>, builtin: set<string>, out: Table) {
    && (forall id | id in tbl && tbl[id].role !in builtin :: id in out && out[id] == tbl[id])
    && (forall id | id in out && out[id].role !in builtin :: id in tbl && tbl[id] == out[id])
    && (forall id | id in out && out[id].role in builtin ::
          out[id].effect == "allow" && Grant(out[id].role, out[id].action, out[id].resource) in matrix)
    && (forall a, b | a in out && b in out && out[a].role in builtin && out[a] == out[b] :: a == b)
  }

  method ReconcileBuiltinPermissions(tbl: Table, matrix: seq<Grant>, builtin: set<string>, newId: nat -> string) returns (out: Table)
    ensures out == Custom(tbl, builtin) + Minted(newId, Deduped(matrix, Key))
    ensures FreshIds(newId, |matrix|, tbl) && (forall g | g in matrix :: g.role in builtin) ==> Reconciled(tbl, matrix, builtin, out)
  {
    out := Reconcile(tbl, matrix, builtin, newId, Key);
  }

  /** The loop, for any way of naming grants by a text. */
  method Reconcile(tbl: Table, matrix: seq<Grant>, builtin: set<string>, newId: nat -> string, key: Grant -> string) returns (out: Table)
    ensures out == Custom(tbl, builtin) + Minted(newId, Deduped(matrix, key))
    ensures FreshIds(newId, |matrix|, tbl) && (forall g | g in matrix :: g.role in builtin) ==> Reconciled(tbl, matrix, builtin, out)
  {
    out := Custom(tbl, builtin);
    var seen: set<string> := {};
    var created := 0;
    for k := 0 to |matrix|
      invariant seen == KeysOf(matrix[..k], key)
      invariant created == |Deduped(matrix[..k], key)|
      invariant out == Custom(tbl, builtin) + Minted(newId, Deduped(matrix[..k], key))
    {
      var p := matrix[k];
      DedupedStep(matrix, k, newId, key);
      if key(p) in seen {
        continue;
      }
      seen := seen + {key(p)};
      MergeThenWrite(Custom(tbl, builtin), Minted(newId, Deduped(matrix[..k], key)), newId(created), Allow(p));
      out := out[newId(created) := Allow(p)];
      created := created + 1;
    }
    assert matrix[..|matrix|] == matrix;
    if FreshIds(newId, |matrix|, tbl) && forall g | g in matrix :: g.role in builtin {
      RowsAreReconciled(tbl, matrix, builtin, newId, key);
    }
  }

  lemma MergeThenWrite(a: Table, b: Table, id: string, p: Permission)
    ensures (a + b)[id := p] == a + b[id := p]
  {
  }

  /** One more grant: skipped if its key was seen, otherwise inserted under the next id. */
  lemma DedupedStep(matrix: seq<Grant>, k: nat, newId: nat -> string, key: Grant -> string)
    requires k < |matrix|
    ensures KeysOf(matrix[..k + 1], key) == KeysOf(matrix[..k], key) + {key(matrix[k])}
    ensures var before, after := Deduped(matrix[..k], key), Deduped(matrix[..k + 1], key);
            if key(matrix[k]) in KeysOf(matrix[..k], key) then after == before
            else |after| == |before| + 1 && Minted(newId, after) == Minted(newId, before)[newId(|before|) := Allow(matrix[k])]
  {
    var longer := matrix[..k + 1];
    assert longer[..|longer| - 1] == matrix[..k] && longer[|longer| - 1] == matrix[k];
    assert longer == matrix[..k] + [matrix[k]];
    GrowKeys(matrix[..k], matrix[k], key);
    var before := Deduped(matrix[..k], key);
    assert (before + [matrix[k]])[..|before|] == before;
  }

  lemma GrowKeys(grants: seq<Grant>, g: Grant, key: Grant -> string)
    ensures KeysOf(grants + [g], key) == KeysOf(grants, key) + {key(g)}
  {
    var more := grants + [g];
    forall s | s in KeysOf(grants, key) + {key(g)}
      ensures s in KeysOf(more, key)
    {
      if s in KeysOf(grants, key) {
        var i :| 0 <= i < |grants| && key(grants[i]) == s;
        assert more[i] == grants[i];
      } else {
        assert more[|grants|] == g;
      }
    }
  }

  /** The inserted grants come from the matrix, have all its keys, and each key once. */
  lemma {:induction false} DedupedMembers(matrix: seq<Grant>, key: Grant -> string)
    ensures forall g | g in Deduped(matrix, key) :: g in matrix
    ensures KeysOf(Deduped(matrix, key), key) == KeysOf(matrix, key)
    ensures |Deduped(matrix, key)| <= |matrix|
    ensures forall i, j | 0 <= i < j < |Deduped(matrix, key)| :: key(Deduped(matrix, key)[i]) != key(Deduped(matrix, key)[j])
  {
    if matrix != [] {
      var n := |matrix| - 1;
      var rest, last := matrix[..n], matrix[n];
      DedupedMembers(rest, key);
      assert matrix == rest + [last];
      GrowKeys(rest, last, key);
      var front := Deduped(rest, key);
      if key(last) !in KeysOf(rest, key) {
        GrowKeys(front, last, key);
        forall i | 0 <= i < |front|
          ensures key(front[i]) != key(last)
        {
          assert key(front[i]) in KeysOf(front, key);
        }
      }
    }
  }

  lemma {:induction false} MintedRows(newId: nat -> string, grants: seq<Grant>)
    requires forall i, j | 0 <= i < j < |grants| :: newId(i) != newId(j)
    ensures forall id :: id in Minted(newId, grants) <==> exists i :: 0 <= i < |grants| && newId(i) == id
    ensures forall i | 0 <= i < |grants| :: newId(i) in Minted(newId, grants) && Minted(newId, grants)[newId(i)] == Allow(grants[i])
  {
    if grants != [] {
      MintedRows(newId, grants[..|grants| - 1]);
    }
  }

  /** No two different grants of the matrix have the same key. */
  ghost predicate KeysDistinguish(matrix: seq<Grant>, key: Grant -> string) {
    forall g, h | g in matrix && h in matrix :: key(g) == key(h) ==> g == h
  }

  /** Some row of the table allows the grant. */
  ghost predicate HoldsGrant(tbl: Table, g: Grant) {
    exists id :: id in tbl && tbl[id] == Permission(g.role, g.action, g.resource, "allow")
  }

  /** Where a row of the reconciled table comes from. */
  lemma RowOrigin(tbl: Table, matrix: seq<Grant>, builtin: set<string>, newId: nat -> string, key: Grant -> string, id: string)
    returns (i: nat)
    requires FreshIds(newId, |matrix|, tbl)
    requires forall g | g in matrix :: g.role in builtin
    requires id in Custom(tbl, builtin) + Minted(newId, Deduped(matrix, key))
    ensures var out := Custom(tbl, builtin) + Minted(newId, Deduped(matrix, key));
            if out[id].role in builtin
            then i < |Deduped(matrix, key)| && id == newId(i) && out[id] == Allow(Deduped(matrix, key)[i])
            else id in tbl && tbl[id] == out[id]
  {
    var grants := Deduped(matrix, key);
    DedupedMembers(matrix, key);
    MintedRows(newId, grants);
    i := 0;
    if id in Minted(newId, grants) {
      i :| i < |grants| && newId(i) == id;
      assert grants[i] in grants;
    }
  }

  /** The inserted rows overwrite no row of the table and belong to built-in roles. */
  lemma MintedIsApart(tbl: Table, matrix: seq<Grant>, builtin: set<string>, newId: nat -> string, key: Grant -> string)
    requires FreshIds(newId, |matrix|, tbl)
    requires forall g | g in matrix :: g.role in builtin
    ensures Apart(tbl, Minted(newId, Deduped(matrix, key)), builtin)
  {
    var grants := Deduped(matrix, key);
    DedupedMembers(matrix, key);
    MintedRows(newId, grants);
    forall id | id in Minted(newId, grants)
      ensures id !in tbl && Minted(newId, grants)[id].role in builtin
    {
      var i :| 0 <= i < |grants| && newId(i) == id;
      assert grants[i] in grants;
    }
  }

  predicate Apart(tbl: Table, minted: Table, builtin: set<string>) {
    forall id | id in minted :: id !in tbl && minted[id].role in builtin
  }

  lemma MergeKeepsCustom(tbl: Table, minted: Table, builtin: set<string>)
    requires Apart(tbl, minted, builtin)
    ensures Custom(Custom(tbl, builtin) + minted, builtin) == Custom(tbl, builtin)
  {
  }

  /** Custom rows survive unchanged. */
  lemma CustomRowsKept(tbl: Table, matrix: seq<Grant>, builtin: set<string>, newId: nat -> string, key: Grant -> string)
    requires FreshIds(newId, |matrix|, tbl)
    requires forall g | g in matrix :: g.role in builtin
    ensures var out := Custom(tbl, builtin) + Minted(newId, Deduped(matrix, key));
            && Custom(out, builtin) == Custom(tbl, builtin)
            && (forall id | id in tbl && tbl[id].role !in builtin :: id in out && out[id] == tbl[id])
            && (forall id | id in out && out[id].role !in builtin :: id in tbl && tbl[id] == out[id])
  {
    MintedIsApart(tbl, matrix, builtin, newId, key);
    MergedRows(tbl, Minted(newId, Deduped(matrix, key)), builtin);
    MergeKeepsCustom(tbl, Minted(newId, Deduped(matrix, key)), builtin);
  }

  /**
   After reconciling, every row of a built-in role is a grant of the matrix, no grant has two
   rows, and rows of custom roles are as they were.
   */
  lemma BuiltinRowsAreTheMatrix(tbl: Table, matrix: seq<Grant>, builtin: set<string>, newId: nat -> string, key: Grant -> string)
    requires FreshIds(newId, |matrix|, tbl)
    requires forall g | g in matrix :: g.role in builtin
    ensures var out := Custom(tbl, builtin) + Minted(newId, Deduped(matrix, key));
            && Custom(out, builtin) == Custom(tbl, builtin)
            && (forall id | id in out && out[id].role in builtin :: exists g :: g in matrix && out[id] == Permission(g.role, g.action, g.resource, "allow"))
            && (forall a, b | a in out && b in out && out[a].role in builtin && out[a] == out[b] :: a == b)
  {
    var grants := Deduped(matrix, key);
    DedupedMembers(matrix, key);
    CustomRowsKept(tbl, matrix, builtin, newId, key);
    var out := Custom(tbl, builtin) + Minted(newId, grants);
    forall id | id in out && out[id].role in builtin
      ensures exists g :: g in matrix && out[id] == Permission(g.role, g.action, g.resource, "allow")
    {
      var i := RowOrigin(tbl, matrix, builtin, newId, key, id);
      assert grants[i] in grants;
    }
    forall a, b | a in out && b in out && out[a].role in builtin && out[a] == out[b]
      ensures a == b
    {
      NoGrantTwice(tbl, matrix, builtin, newId, key, a, b);
    }
  }

  lemma NoGrantTwice(tbl: Table, matrix: seq<Grant>, builtin: set<string>, newId: nat -> string, key: Grant -> string, a: string, b: string)
    requires FreshIds(newId, |matrix|, tbl)
    requires forall g | g in matrix :: g.role in builtin
    requires var out := Custom(tbl, builtin) + Minted(newId, Deduped(matrix, key));
             a in out && b in out && out[a].role in builtin && out[a] == out[b]
    ensures a == b
  {
    var i := RowOrigin(tbl, matrix, builtin, newId, key, a);
    var j := RowOrigin(tbl, matrix, builtin, newId, key, b);
    SamePlace(matrix, key, i, j);
  }

  lemma SamePlace(matrix: seq<Grant>, key: Grant -> string, i: nat, j: nat)
    requires i < |Deduped(matrix, key)| && j < |Deduped(matrix, key)|
    requires Allow(Deduped(matrix, key)[i]) == Allow(Deduped(matrix, key)[j])
    ensures i == j
  {
    DedupedMembers(matrix, key);
    assert Deduped(matrix, key)[i] == Deduped(matrix, key)[j];
  }

  /** The grant stands in the matrix at a place before which no grant has its key. */
  predicate FirstOfKey(matrix: seq<Grant>, key: Grant -> string, g: Grant) {
    exists i :: 0 <= i < |matrix| && matrix[i] == g && forall j | 0 <= j < i :: key(matrix[j]) != key(g)
  }

  lemma {:induction false} DedupedIffFirst(matrix: seq<Grant>, key: Grant -> string, g: Grant)
    ensures g in Deduped(matrix, key) <==> FirstOfKey(matrix, key, g)
  {
    if matrix != [] {
      var n := |matrix| - 1;
      var rest, last := matrix[..n], matrix[n];
      DedupedIffFirst(rest, key, g);
      FirstGrows(rest, last, key, g);
      assert matrix == rest + [last];
    }
  }

  lemma FirstGrows(rest: seq<Grant>, last: Grant, key: Grant -> string, g: Grant)
    ensures FirstOfKey(rest + [last], key, g) <==> FirstOfKey(rest, key, g) || (g == last && key(g) !in KeysOf(rest, key))
  {
    var more := rest + [last];
    if i :| 0 <= i < |rest| && rest[i] == g && forall j | 0 <= j < i :: key(rest[j]) != key(g) {
      assert more[i] == g;
    }
    if i :| 0 <= i < |more| && more[i] == g && forall j | 0 <= j < i :: key(more[j]) != key(g) {
      if i < |rest| {
        assert rest[i] == g;
      }
      assert forall j | 0 <= j < i :: key(rest[j]) == key(more[j]);
    }
    if g == last && key(g) !in KeysOf(rest, key) {
      assert more[|rest|] == g;
    }
  }

  /** What the loop leaves is the reconciled table. */
  lemma RowsAreReconciled(tbl: Table, matrix: seq<Grant>, builtin: set<string>, newId: nat -> string, key: Grant -> string)
    requires FreshIds(newId, |matrix|, tbl)
    requires forall g | g in matrix :: g.role in builtin
    ensures Reconciled(tbl, matrix, builtin, Custom(tbl, builtin) + Minted(newId, Deduped(matrix, key)))
  {
    var minted := Minted(newId, Deduped(matrix, key));
    MintedIsApart(tbl, matrix, builtin, newId, key);
    MergedRows(tbl, minted, builtin);
    BuiltinRowsAreTheMatrix(tbl, matrix, builtin, newId, key);
    forall id | id in minted
      ensures minted[id].effect == "allow" && Grant(minted[id].role, minted[id].action, minted[id].resource) in matrix
    {
      GrantOfRow(tbl, matrix, builtin, newId, key, id);
    }
  }

  lemma MergedRows(tbl: Table, minted: Table, builtin: set<string>)
    requires Apart(tbl, minted, builtin)
    ensures var out := Custom(tbl, builtin) + minted;
            && (forall id | id in tbl && tbl[id].role !in builtin :: id in out && out[id] == tbl[id])
            && (forall id | id in out && out[id].role !in builtin :: id in tbl && tbl[id] == out[id])
            && (forall id | id in out && out[id].role in builtin :: id in minted && out[id] == minted[id])
  {
  }

  lemma GrantOfRow(tbl: Table, matrix: seq<Grant>, builtin: set<string>, newId: nat -> string, key: Grant -> string, id: string)
    requires FreshIds(newId, |matrix|, tbl) && id in Minted(newId, Deduped(matrix, key))
    ensures var p := Minted(newId, Deduped(matrix, key))[id];
            p.effect == "allow" && Grant(p.role, p.action, p.resource) in matrix
  {
    var grants := Deduped(matrix, key);
    DedupedMembers(matrix, key);
    MintedRows(newId, grants);
    var i :| 0 <= i < |grants| && newId(i) == id;
    assert grants[i] in grants;
  }

  /** A grant of the matrix is present afterwards exactly when it is the first of its key. */
  lemma GrantHeldIff(tbl: Table, matrix: seq<Grant>, builtin: set<string>, newId: nat -> string, key: Grant -> string, g: Grant)
    requires FreshIds(newId, |matrix|, tbl)
    requires forall g | g in matrix :: g.role in builtin
    requires g in matrix
    ensures HoldsGrant(Custom(tbl, builtin) + Minted(newId, Deduped(matrix, key)), g) <==> FirstOfKey(matrix, key, g)
  {
    DedupedIffFirst(matrix, key, g);
    InsertedIsHeld(tbl, matrix, builtin, newId, key, g);
  }

  lemma InsertedIsHeld(tbl: Table, matrix: seq<Grant>, builtin: set<string>, newId: nat -> string, key: Grant -> string, g: Grant)
    requires FreshIds(newId, |matrix|, tbl)
    requires forall g | g in matrix :: g.role in builtin
    requires g in matrix
    ensures HoldsGrant(Custom(tbl, builtin) + Minted(newId, Deduped(matrix, key)), g) <==> g in Deduped(matrix, key)
  {
    var grants := Deduped(matrix, key);
    var out := Custom(tbl, builtin) + Minted(newId, grants);
    if g in grants {
      InsertedRow(tbl, matrix, builtin, newId, key, g);
    }
    if HoldsGrant(out, g) {
      var id :| id in out && out[id] == Permission(g.role, g.action, g.resource, "allow");
      var i := RowOrigin(tbl, matrix, builtin, newId, key, id);
      assert grants[i] == g;
    }
  }

  lemma InsertedRow(tbl: Table, matrix: seq<Grant>, builtin: set<string>, newId: nat -> string, key: Grant -> string, g: Grant)
    requires FreshIds(newId, |matrix|, tbl) && g in Deduped(matrix, key)
    ensures HoldsGrant(Custom(tbl, builtin) + Minted(newId, Deduped(matrix, key)), g)
  {
    DedupedMembers(matrix, key);
    var id := RowOfGrant(newId, Deduped(matrix, key), g);
    MergedGrant(Custom(tbl, builtin), Minted(newId, Deduped(matrix, key)), id, g);
  }

  lemma RowOfGrant(newId: nat -> string, grants: seq<Grant>, g: Grant) returns (id: string)
    requires (forall i, j | 0 <= i < j < |grants| :: newId(i) != newId(j)) && g in grants
    ensures id in Minted(newId, grants) && Minted(newId, grants)[id] == Permission(g.role, g.action, g.resource, "allow")
  {
    MintedRows(newId, grants);
    var i :| 0 <= i < |grants| && grants[i] == g;
    id := newId(i);
  }

  lemma MergedGrant(a: Table, b: Table, id: string, g: Grant)
    requires id in b && b[id] == Permission(g.role, g.action, g.resource, "allow")
    ensures HoldsGrant(a + b, g)
  {
    assert (a + b)[id] == b[id];
  }

  /** Every grant of the matrix is present afterwards if and only if keys tell grants apart. */
  lemma MatrixIsCompleteIff(tbl: Table, matrix: seq<Grant>, builtin: set<string>, newId: nat -> string, key: Grant -> string)
    requires FreshIds(newId, |matrix|, tbl)
    requires forall g | g in matrix :: g.role in builtin
    ensures (forall g | g in matrix :: HoldsGrant(Custom(tbl, builtin) + Minted(newId, Deduped(matrix, key)), g))
            <==> KeysDistinguish(matrix, key)
  {
    var grants := Deduped(matrix, key);
    forall g | g in matrix
      ensures HoldsGrant(Custom(tbl, builtin) + Minted(newId, grants), g) <==> g in grants
    {
      InsertedIsHeld(tbl, matrix, builtin, newId, key, g);
    }
    DedupedMembers(matrix, key);
    if KeysDistinguish(matrix, key) {
      forall g | g in matrix
        ensures g in grants
      {
        var i :| 0 <= i < |matrix| && matrix[i] == g;
        assert key(g) in KeysOf(grants, key);
        var j :| 0 <= j < |grants| && key(grants[j]) == key(g);
        assert grants[j] in grants;
      }
    }
    if forall g | g in matrix :: g in grants {
      forall g, h | g in matrix && h in matrix && key(g) == key(h)
        ensures g == h
      {
        var i :| 0 <= i < |grants| && grants[i] == g;
        var j :| 0 <= j < |grants| && grants[j] == h;
      }
    }
  }

  /** Keys tell grants apart when no column contains the separator, as in the shipped matrix. */
  lemma SeparatorFreeKeysDistinguish(matrix: seq<Grant>)
    requires forall g | g in matrix :: FreeOf(Columns(g), '|')
    ensures KeysDistinguish(matrix, Key)
  {
    forall g, h | g in matrix && h in matrix && Key(g) == Key(h)
      ensures g == h
    {
      JoinInjective(Columns(g), Columns(h), '|');
      assert Columns(g)[0] == Columns(h)[0] && Columns(g)[1] == Columns(h)[1] && Columns(g)[2] == Columns(h)[2];
    }
  }

  /** Moving the separator between columns does not change the key. */
  lemma KeysCoincide(a: string, b: string, c: string, d: string)
    ensures Key(Grant(a + "|" + b, c, d)) == Key(Grant(a, b + "|" + c, d))
  {
    var first, second := Grant(a + "|" + b, c, d), Grant(a, b + "|" + c, d);
    assert Columns(first)[1..] == [c, d] && Columns(second)[1..] == [b + "|" + c, d];
    JoinTwo(c, d, '|');
    JoinTwo(b + "|" + c, d, '|');
    assert Key(first) == a + "|" + b + "|" + c + "|" + d;
    assert Key(second) == a + "|" + b + "|" + c + "|" + d;
  }

  lemma SecondOfKeyIsSkipped(first: Grant, second: Grant, key: Grant -> string)
    requires key(first) == key(second)
    ensures Deduped([first, second], key) == [first]
  {
    var matrix := [first, second];
    assert matrix[..1] == [first] && [first][..0] == [];
    assert key([first][0]) in KeysOf([first], key);
    assert KeysOf([], key) == {};
    assert Deduped([first], key) == [] + [first];
  }

  /** A matrix with a separator inside a column can fail: of two grants with one key only the first gets in. */
  lemma SeparatorCanHideGrant(tbl: Table, builtin: set<string>, newId: nat -> string, a: string, b: string, c: string, d: string)
    requires FreshIds(newId, 2, tbl) && a + "|" + b in builtin && a in builtin
    ensures var first, second := Grant(a + "|" + b, c, d), Grant(a, b + "|" + c, d);
            !HoldsGrant(Custom(tbl, builtin) + Minted(newId, Deduped([first, second], Key)), second)
  {
    var first, second := Grant(a + "|" + b, c, d), Grant(a, b + "|" + c, d);
    KeysCoincide(a, b, c, d);
    SecondOfKeyIsSkipped(first, second, Key);
    assert |first.role| > |second.role|;
    InsertedIsHeld(tbl, [first, second], builtin, newId, Key, second);
  }

  /**
   Running twice equals running once up to the generated ids: the second run removes exactly
   the rows the first inserted and inserts the same grants again.
   */
  lemma ReconcileTwice(tbl: Table, matrix: seq<Grant>, builtin: set<string>, newId: nat -> string, newId': nat -> string, key: Grant -> string)
    requires FreshIds(newId, |matrix|, tbl)
    requires forall g | g in matrix :: g.role in builtin
    ensures var once := Custom(tbl, builtin) + Minted(newId, Deduped(matrix, key));
            var twice := Custom(once, builtin) + Minted(newId', Deduped(matrix, key));
            twice == Custom(tbl, builtin) + Minted(newId', Deduped(matrix, key))
            && (FreshIds(newId', |matrix|, tbl) ==> Reconciled(tbl, matrix, builtin, twice))
  {
    BuiltinRowsAreTheMatrix(tbl, matrix, builtin, newId, key);
    if FreshIds(newId', |matrix|, tbl) {
      RowsAreReconciled(tbl, matrix, builtin, newId', key);
    }
  }
}
