/**
 The declared role order and the built-in permission matrix: the transitive closure of the
 declared superset pairs, the grant index, and what they say about each other.
 */
module RoleLattice {

  type Pair = (string, string)

  /** A declared relation: the first role holds every grant of the second. */
  datatype RoleSuperset = RoleSuperset(superset: string, subset: string)

  datatype Grant = Grant(role: string, action: string, resource: string)

  // ---------- reachability ----------

  /** A path of at least one edge. */
  ghost predicate Path(edges: set<Pair>, p: seq<string>) {
    |p| >= 2 && forall i | 0 <= i < |p| - 1 :: (p[i], p[i + 1]) in edges
  }

  ghost predicate PathBetween(edges: set<Pair>, p: seq<string>, s: string, t: string) {
    Path(edges, p) && p[0] == s && p[|p| - 1] == t
  }

  ghost predicate Reaches(edges: set<Pair>, s: string, t: string) {
    exists p :: PathBetween(edges, p, s, t)
  }

  lemma EdgeReaches(edges: set<Pair>, s: string, t: string)
    requires (s, t) in edges
    ensures Reaches(edges, s, t)
  {
    assert PathBetween(edges, [s, t], s, t);
  }

  lemma ReachesFurther(edges: set<Pair>, s: string, t: string, u: string)
    requires Reaches(edges, s, t) && (t, u) in edges
    ensures Reaches(edges, s, u)
  {
    var p :| PathBetween(edges, p, s, t);
    assert PathBetween(edges, p + [u], s, u);
  }

  /** A set that holds the start and all successors of its members holds everything reachable. */
  lemma {:induction false} ClosedSetHoldsPath(edges: set<Pair>, closed: set<string>, p: seq<string>)
    requires Path(edges, p) && p[0] in closed
    requires forall e | e in edges && e.0 in closed :: e.1 in closed
    ensures p[|p| - 1] in closed
  {
    var last := (p[|p| - 2], p[|p| - 1]);
    assert last in edges;
    if |p| > 2 {
      ClosedSetHoldsPath(edges, closed, p[..|p| - 1]);
    }
    assert last.0 in closed;
  }

  // ---------- the closure ----------

  function Successors(adj: map<string, seq<string>>, s: string): seq<string> {
    if s in adj then adj[s] else []
  }

  /** The adjacency lists hold exactly the edges, in some order. */
  ghost predicate Represents(adj: map<string, seq<string>>, edges: set<Pair>) {
    forall a, b :: b in Successors(adj, a) <==> (a, b) in edges
  }

  method SupersetSet(rels: seq<RoleSuperset>) returns (out: set<Pair>)
    ensures forall p :: p in out <==> RoleSuperset(p.0, p.1) in rels
  {
    out := {};
    for i := 0 to |rels|
      invariant forall p :: p in out <==> RoleSuperset(p.0, p.1) in rels[..i]
    {
      out := out + {(rels[i].superset, rels[i].subset)};
    }
    assert rels[..|rels|] == rels;
  }

  /** Builds the adjacency lists, visiting the pairs in an arbitrary order. */
  method Adjacency(direct: set<Pair>) returns (adj: map<string, seq<string>>)
    ensures Represents(adj, direct)
  {
    adj := map[];
    var rest := direct;
    while rest != {}
      invariant rest <= direct
      invariant Represents(adj, direct - rest)
    {
      var pair :| pair in rest;
      ghost var adj0, done := adj, direct - rest;
      adj := adj[pair.0 := Successors(adj, pair.0) + [pair.1]];
      rest := rest - {pair};
      assert direct - rest == done + {pair};
      forall a, b
        ensures b in Successors(adj, a) <==> (a, b) in done + {pair}
      {
        assert b in Successors(adj0, a) <==> (a, b) in done;
      }
    }
    assert direct - rest == direct;
  }

  /**
   The explicit-stack search from one role: it terminates on every finite relation, cyclic
   ones included, and finds exactly the other roles that a non-empty path leads to.
   */
  method Search(edges: set<Pair>, adj: map<string, seq<string>>, start: string) returns (seen: set<string>)
    requires Represents(adj, edges)
    ensures forall t :: t in seen <==> t != start && Reaches(edges, start, t)
  {
    seen := {};
    var stack := Successors(adj, start);
    StartSearch(edges, adj, start);
    while |stack| > 0
      invariant Searching(edges, start, seen, stack)
      decreases Nodes(edges) - seen, |stack|
    {
      var next := stack[|stack| - 1];
      assert stack == stack[..|stack| - 1] + [next];
      stack := stack[..|stack| - 1];
      if next in seen || next == start {
        Revisit(edges, start, seen, stack, next);
        continue;
      }
      Visit(edges, adj, start, seen, stack, next);
      seen := seen + {next};
      stack := stack + Successors(adj, next);
    }
    SearchDone(edges, start, seen);
  }

  /** The roles some edge leads to. */
  function Nodes(edges: set<Pair>): set<string> {
    set e | e in edges :: e.1
  }

  /** What holds between iterations: everything collected is reachable, and nothing is forgotten. */
  ghost predicate Searching(edges: set<Pair>, start: string, seen: set<string>, stack: seq<string>) {
    && start !in seen
    && (forall x | x in seen :: Reaches(edges, start, x))
    && (forall x | x in stack :: x in Nodes(edges) && Reaches(edges, start, x))
    && Unforgotten(edges, start, seen, stack)
  }

  /** Every successor of the start or of a seen role is the start, seen, or still on the stack. */
  ghost predicate Unforgotten(edges: set<Pair>, start: string, seen: set<string>, stack: seq<string>) {
    forall e | e in edges && (e.0 == start || e.0 in seen) :: e.1 == start || e.1 in seen || e.1 in stack
  }

  lemma StartSearch(edges: set<Pair>, adj: map<string, seq<string>>, start: string)
    requires Represents(adj, edges)
    ensures Searching(edges, start, {}, Successors(adj, start))
  {
    var stack := Successors(adj, start);
    forall x | x in stack
      ensures x in Nodes(edges) && Reaches(edges, start, x)
    {
      assert (start, x) in edges;
      EdgeReaches(edges, start, x);
    }
    forall e | e in edges && e.0 == start
      ensures e.1 in stack
    {
      assert (e.0, e.1) in edges;
    }
  }

  lemma Revisit(edges: set<Pair>, start: string, seen: set<string>, stack: seq<string>, next: string)
    requires Searching(edges, start, seen, stack + [next]) && (next in seen || next == start)
    ensures Searching(edges, start, seen, stack)
  {
    assert forall x | x in stack :: x in stack + [next];
  }

  lemma Visit(edges: set<Pair>, adj: map<string, seq<string>>, start: string, seen: set<string>, stack: seq<string>, next: string)
    requires Represents(adj, edges)
    requires Searching(edges, start, seen, stack + [next]) && next !in seen && next != start
    ensures Searching(edges, start, seen + {next}, stack + Successors(adj, next))
    ensures next in Nodes(edges)
  {
    var succ := Successors(adj, next);
    assert next in stack + [next];
    forall x | x in stack + succ
      ensures x in Nodes(edges) && Reaches(edges, start, x)
    {
      if x in stack {
        assert x in stack + [next];
      } else {
        assert (next, x) in edges;
        ReachesFurther(edges, start, next, x);
      }
    }
    forall e | e in edges && (e.0 == start || e.0 in seen + {next})
      ensures e.1 == start || e.1 in seen + {next} || e.1 in stack + succ
    {
      assert (e.0, e.1) in edges;
    }
  }

  lemma SearchDone(edges: set<Pair>, start: string, seen: set<string>)
    requires Searching(edges, start, seen, [])
    ensures forall t :: t in seen <==> t != start && Reaches(edges, start, t)
  {
    forall t | t != start && Reaches(edges, start, t)
      ensures t in seen
    {
      var p :| PathBetween(edges, p, start, t);
      ClosedSetHoldsPath(edges, seen + {start}, p);
    }
  }

  /** The edges a list of declarations stands for. */
  function Edges(rels: seq<RoleSuperset>): set<Pair> {
    set i | 0 <= i < |rels| :: (rels[i].superset, rels[i].subset)
  }

  /**
   The closure holds (s, t) exactly when s is a listed role, t is another role, and a
   non-empty path of declarations leads from s to t.
   */
  method SupersetClosure(roles: seq<string>, rels: seq<RoleSuperset>) returns (closure: set<Pair>)
    ensures forall s, t :: (s, t) in closure <==> s in roles && t != s && Reaches(Edges(rels), s, t)
  {
    var direct := SupersetSet(rels);
    assert direct == Edges(rels) by {
      assert forall p: Pair :: RoleSuperset(p.0, p.1) in rels <==> p in Edges(rels);
    }
    var adj := Adjacency(direct);
    closure := {};
    for k := 0 to |roles|
      invariant forall s, t :: (s, t) in closure <==> s in roles[..k] && t != s && Reaches(direct, s, t)
    {
      var seen := Search(direct, adj, roles[k]);
      closure := closure + (set t | t in seen :: (roles[k], t));
    }
    assert roles[..|roles|] == roles;
  }

  // ---------- the grant index ----------

  type Index = map<string, map<string, set<string>>>

  predicate Granted(index: Index, role: string, action: string, resource: string) {
    resource in index && role in index[resource] && action in index[resource][role]
  }

  /** Materialises a matrix as resource, role, action set; it agrees with the matrix on every triple. */
  method GrantIndex(matrix: seq<Grant>) returns (index: Index)
    ensures forall g: Grant :: Granted(index, g.role, g.action, g.resource) <==> g in matrix
  {
    index := map[];
    for i := 0 to |matrix|
      invariant forall g: Grant :: Granted(index, g.role, g.action, g.resource) <==> g in matrix[..i]
    {
      var grant := matrix[i];
      ghost var before := index;
      if grant.resource !in index {
        index := index[grant.resource := map[]];
      }
      if grant.role !in index[grant.resource] {
        index := index[grant.resource := index[grant.resource][grant.role := {}]];
      }
      assert forall g: Grant :: Granted(index, g.role, g.action, g.resource) <==> Granted(before, g.role, g.action, g.resource);
      ghost var prepared := index;
      var actions := index[grant.resource][grant.role] + {grant.action};
      index := index[grant.resource := index[grant.resource][grant.role := actions]];
      forall g: Grant
        ensures Granted(index, g.role, g.action, g.resource) <==> g in matrix[..i + 1]
      {
        assert Granted(index, g.role, g.action, g.resource) <==> Granted(prepared, g.role, g.action, g.resource) || g == grant;
        assert matrix[..i + 1] == matrix[..i] + [grant];
      }
    }
    assert matrix[..|matrix|] == matrix;
  }

  /** The first role holds every grant of the second. */
  ghost predicate Covers(index: Index, s: string, t: string) {
    forall a, r | Granted(index, t, a, r) :: Granted(index, s, a, r)
  }

  /** The two roles diverge in both directions. */
  ghost predicate Diverge(index: Index, s: string, t: string) {
    !Covers(index, s, t) && !Covers(index, t, s)
  }

  lemma {:induction false} PathCovers(index: Index, edges: set<Pair>, p: seq<string>)
    requires Path(edges, p)
    requires forall e | e in edges :: Covers(index, e.0, e.1)
    ensures Covers(index, p[0], p[|p| - 1])
  {
    var last := (p[|p| - 2], p[|p| - 1]);
    assert last in edges;
    if |p| > 2 {
      PathCovers(index, edges, p[..|p| - 1]);
    }
  }

  /**
   If every declared pair holds on the index, every pair of the closure does, and a pair of
   roles that diverges is in the closure in neither direction: the tests on declarations
   and on incomparabilities cannot contradict each other through transitivity.
   */
  lemma DeclarationsDecideClosure(index: Index, rels: seq<RoleSuperset>, s: string, t: string)
    requires forall i | 0 <= i < |rels| :: Covers(index, rels[i].superset, rels[i].subset)
    ensures Reaches(Edges(rels), s, t) ==> Covers(index, s, t)
    ensures Diverge(index, s, t) ==> !Reaches(Edges(rels), s, t) && !Reaches(Edges(rels), t, s)
  {
    ReachableIsCovered(index, rels, s, t);
    ReachableIsCovered(index, rels, t, s);
  }

  lemma ReachableIsCovered(index: Index, rels: seq<RoleSuperset>, s: string, t: string)
    requires forall i | 0 <= i < |rels| :: Covers(index, rels[i].superset, rels[i].subset)
    ensures Reaches(Edges(rels), s, t) ==> Covers(index, s, t)
  {
    if Reaches(Edges(rels), s, t) {
      var p :| PathBetween(Edges(rels), p, s, t);
      PathCovers(index, Edges(rels), p);
    }
  }

  /**
   Roles on a common cycle of declarations that hold have equal grants: on a matrix that
   honours its declarations the closure is antisymmetric up to equal roles.
   */
  lemma CyclesMeanEqualGrants(index: Index, rels: seq<RoleSuperset>, s: string, t: string)
    requires forall i | 0 <= i < |rels| :: Covers(index, rels[i].superset, rels[i].subset)
    requires Reaches(Edges(rels), s, t) && Reaches(Edges(rels), t, s)
    ensures forall a, r :: Granted(index, s, a, r) <==> Granted(index, t, a, r)
  {
    ReachableIsCovered(index, rels, s, t);
    ReachableIsCovered(index, rels, t, s);
  }
}
