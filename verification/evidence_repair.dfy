/**
 Migration 126: keeps one current evidence row per evaluation case, the newest, together
 with exactly its dependencies.
 */
module EvidenceRepair {

  /** Ids are modelled by their rank in the order the database compares them with. */
  type Id = nat

  datatype Evidence = Evidence(tenant: string, evalCase: string, createdAt: int)
  datatype Dependency = Dependency(evidence: Id, rest: string)

  type Evidences = map<Id, Evidence>
  type Dependencies = map<Id, Dependency>

  predicate SameCase(ev: Evidences, a: Id, b: Id)
    requires a in ev && b in ev
  {
    ev[a].tenant == ev[b].tenant && ev[a].evalCase == ev[b].evalCase
  }

  /** a is newer than b: created later, or at the same time with the greater id. */
  predicate Newer(ev: Evidences, a: Id, b: Id)
    requires a in ev && b in ev
  {
    ev[a].createdAt > ev[b].createdAt || (ev[a].createdAt == ev[b].createdAt && a > b)
  }

  predicate Superseded(ev: Evidences, id: Id)
    requires id in ev
  {
    exists n :: n in ev && SameCase(ev, n, id) && Newer(ev, n, id)
  }

  /** The rows that are newest of their case. */
  function Current(ev: Evidences): Evidences {
    map id | id in ev && !Superseded(ev, id) :: ev[id]
  }

  function WithoutDependents(deps: Dependencies, ev: Evidences): Dependencies {
    map d | d in deps && !(deps[d].evidence in ev && Superseded(ev, deps[d].evidence)) :: deps[d]
  }

  /**
   The two deletions. The second visits the rows in an arbitrary order and tests each
   against the table as it stands at that moment; the outcome is the same as testing all of
   them against the table before the statement.
   */
  method KeepCurrentEvidence(ev: Evidences, deps: Dependencies) returns (ev': Evidences, deps': Dependencies)
    ensures ev' == Current(ev)
    ensures deps' == WithoutDependents(deps, ev)
  {
    deps' := WithoutDependents(deps, ev);
    ev' := ev;
    var rest := ev.Keys;
    while rest != {}
      invariant rest <= ev.Keys
      invariant ev' == map id | id in ev && (id in rest || !Superseded(ev, id)) :: ev[id]
    {
      var id :| id in rest;
      CurrentStaysVisible(ev, ev', id);
      if Superseded(ev', id) {
        ev' := ev' - {id};
      }
      rest := rest - {id};
    }
  }

  /** Deleting superseded rows never changes whether a row is superseded. */
  lemma CurrentStaysVisible(ev: Evidences, part: Evidences, id: Id)
    requires id in part
    requires forall k | k in part :: k in ev && part[k] == ev[k]
    requires forall k | k in ev && !Superseded(ev, k) :: k in part
    ensures Superseded(part, id) <==> Superseded(ev, id)
  {
    if Superseded(ev, id) {
      var top := NewestOfCase(ev, id);
      assert top in part && SameCase(part, top, id) && Newer(part, top, id);
    }
    if Superseded(part, id) {
      var n :| n in part && SameCase(part, n, id) && Newer(part, n, id);
      assert n in ev && SameCase(ev, n, id) && Newer(ev, n, id);
    }
  }

  /** Every row's case has a row that no other row of the case is newer than. */
  lemma NewestOfCase(ev: Evidences, id: Id) returns (top: Id)
    requires id in ev
    ensures top in ev && SameCase(ev, top, id) && !Superseded(ev, top)
    ensures top == id || Newer(ev, top, id)
    decreases |set n | n in ev && Newer(ev, n, id)|
  {
    if Superseded(ev, id) {
      var n :| n in ev && SameCase(ev, n, id) && Newer(ev, n, id);
      var above, mine := set m | m in ev && Newer(ev, m, n), set m | m in ev && Newer(ev, m, id);
      assert n in mine && n !in above;
      SubsetIsSmaller(above, mine);
      top := NewestOfCase(ev, n);
    } else {
      top := id;
    }
  }

  lemma SubsetIsSmaller(a: set<Id>, b: set<Id>)
    requires a < b
    ensures |a| < |b|
  {
    var x :| x in b && x !in a;
    assert a <= b - {x};
    SubsetIsNotLarger(a, b - {x});
  }

  lemma {:induction false} SubsetIsNotLarger(a: set<Id>, b: set<Id>)
    requires a <= b
    ensures |a| <= |b|
  {
    if a != {} {
      var x :| x in a;
      SubsetIsNotLarger(a - {x}, b - {x});
    }
  }

  /** After the repair every case that had evidence has exactly one row, its newest. */
  lemma OneRowPerCase(ev: Evidences, id: Id)
    requires id in ev
    ensures exists top ::
              && top in Current(ev) && SameCase(ev, top, id)
              && (forall n | n in ev && SameCase(ev, n, id) && n != top :: Newer(ev, top, n))
              && (forall n | n in Current(ev) && SameCase(ev, n, id) :: n == top)
  {
    var top := NewestOfCase(ev, id);
    forall n | n in ev && SameCase(ev, n, id) && n != top
      ensures Newer(ev, top, n)
    {
      if Newer(ev, n, top) {
        assert SameCase(ev, n, top);
      }
    }
    forall n | n in Current(ev) && SameCase(ev, n, id)
      ensures n == top
    {
      if n != top {
        assert SameCase(ev, top, n);
      }
    }
    assert top in Current(ev);
  }

  /** A dependency is kept, as it is, if and only if its evidence is not among the deleted rows. */
  lemma DependencyKeptIff(ev: Evidences, deps: Dependencies, d: Id)
    ensures d in WithoutDependents(deps, ev) <==> d in deps && !(deps[d].evidence in ev && deps[d].evidence !in Current(ev))
    ensures d in WithoutDependents(deps, ev) ==> WithoutDependents(deps, ev)[d] == deps[d]
  {
  }

  /**
   Said of the columns alone: a row is kept, as it is, if and only if no other row of its tenant and
   case was created later, or at the same time with a greater id.
   */
  lemma KeptIff(ev: Evidences, id: Id)
    ensures id in Current(ev) <==>
            && id in ev
            && forall n | n in ev && ev[n].tenant == ev[id].tenant && ev[n].evalCase == ev[id].evalCase ::
                 ev[n].createdAt <= ev[id].createdAt && (ev[n].createdAt == ev[id].createdAt ==> n <= id)
    ensures id in Current(ev) ==> Current(ev)[id] == ev[id]
  {
    if id in ev && !Superseded(ev, id) {
      forall n | n in ev && ev[n].tenant == ev[id].tenant && ev[n].evalCase == ev[id].evalCase
        ensures ev[n].createdAt <= ev[id].createdAt && (ev[n].createdAt == ev[id].createdAt ==> n <= id)
      {
        assert SameCase(ev, n, id);
      }
    }
  }

  /** The dependencies whose evidence row is missing. */
  function Orphans(deps: Dependencies, ev: Evidences): set<Id> {
    set d | d in deps && deps[d].evidence !in ev
  }

  /** The repair leaves exactly the orphans there were before. */
  lemma OrphansAreTheSame(ev: Evidences, deps: Dependencies)
    ensures Orphans(WithoutDependents(deps, ev), Current(ev)) == Orphans(deps, ev)
  {
  }

  /**
   The order of the two deletions matters: on the repaired evidence nothing is superseded, so
   deleting dependencies second would delete none and orphan every one of a deleted row.
   */
  lemma OrderMatters(ev: Evidences, deps: Dependencies)
    ensures WithoutDependents(deps, Current(ev)) == deps
    ensures forall d | d in deps && deps[d].evidence in ev && Superseded(ev, deps[d].evidence) ::
              d in Orphans(WithoutDependents(deps, Current(ev)), Current(ev))
  {
    var now := Current(ev);
    forall id | id in now
      ensures !Superseded(now, id)
    {
      CurrentStaysVisible(ev, now, id);
    }
  }
}
