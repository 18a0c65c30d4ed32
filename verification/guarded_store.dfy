/**
 The operational store under its SQLite triggers. Each insert, update or delete of one
 row is a statement that the triggers admit or abort; the results say what every sequence
 of statements keeps, starting from the empty store.
 */
module GuardedStore {
  import opened Tables

  // Each row keeps the columns the triggers read; `rest` stands for all the others.
  datatype Tenant = Tenant(kind: string, status: string, rest: string)
  datatype Connection = Connection(current: int, rest: string)
  datatype Binding = Binding(connection: string, tenant: string, current: int, rest: string)
  datatype BindingVersion = BindingVersion(tenant: string, rest: string)
  datatype Route = Route(tenant: string, pinId: string, pinVersion: int, rest: string)
  datatype Pin = Pin(tenant: string, route: string, version: int, connection: string, connectionVersion: int,
                     binding: string, bindingVersion: int, rest: string)
  /** An execution snapshot or evidence bundle: three references, each absent when its id is empty. */
  datatype Evidence = Evidence(pinId: string, pinVersion: int, connection: string, connectionVersion: int,
                               binding: string, bindingVersion: int, rest: string)
  datatype Resource = Resource(pointer: Option<string>, rest: string)
  datatype ResourceVersion = ResourceVersion(binding: string, rest: string)
  datatype EvalRun = EvalRun(status: string, rest: string)
  datatype CaseResult = CaseResult(run: string, rest: string)
  datatype Candidate = Candidate(status: string, evidence: seq<string>, rest: string)

  /** One map per table, keyed by primary key. */
  datatype Store = Store(
    tenants: map<string, Tenant>,
    connections: map<string, Connection>,
    connectionVersions: map<(string, int), string>,
    bindings: map<string, Binding>,
    bindingVersions: map<(string, int), BindingVersion>,
    routes: map<string, Route>,
    pins: map<string, Pin>,
    snapshots: map<string, Evidence>,
    bundles: map<string, Evidence>,
    resources: map<string, Resource>,
    resourceVersions: map<string, ResourceVersion>,
    runs: map<string, EvalRun>,
    results: map<string, CaseResult>,
    candidates: map<string, Candidate>)

  const Empty := Store(map[], map[], map[], map[], map[], map[], map[], map[], map[], map[], map[], map[], map[], map[])

  /** A change of one row; an update may change the key too. */
  datatype Change<K, R> = Insert(key: K, row: R) | Update(key: K, newKey: K, row: R) | Delete(key: K)

  datatype Statement =
    | OnTenant(tenant: Change<string, Tenant>)
    | OnConnection(connection: Change<string, Connection>)
    | OnConnectionVersion(connectionVersion: Change<(string, int), string>)
    | OnBinding(binding: Change<string, Binding>)
    | OnBindingVersion(bindingVersion: Change<(string, int), BindingVersion>)
    | OnRoute(route: Change<string, Route>)
    | OnPin(pin: Change<string, Pin>)
    | OnSnapshot(snapshot: Change<string, Evidence>)
    | OnBundle(bundle: Change<string, Evidence>)
    | OnResource(resource: Change<string, Resource>)
    | OnResourceVersion(resourceVersion: Change<string, ResourceVersion>)
    | OnRun(run: Change<string, EvalRun>)
    | OnResult(result: Change<string, CaseResult>)
    | OnCandidate(candidate: Change<string, Candidate>)

  // ---------- tables ----------

  /** The change meets the table: primary keys stay unique, and there is a row to update or delete. */
  predicate Fits<K, R>(table: map<K, R>, c: Change<K, R>) {
    match c
    case Insert(k, _) => k !in table
    case Update(k, k', _) => k in table && (k' == k || k' !in table)
    case Delete(k) => k in table
  }

  function Apply<K, R>(table: map<K, R>, c: Change<K, R>): map<K, R> {
    match c
    case Insert(k, r) => table[k := r]
    case Update(k, k', r) => (table - {k})[k' := r]
    case Delete(k) => table - {k}
  }

  // ---------- triggers ----------

  predicate Terminal(status: string) {
    status == "COMPLETED" || status == "FAILED" || status == "CANCELLED"
  }

  predicate PinExists(s: Store, id: string, version: int) {
    id in s.pins && s.pins[id].version == version
  }

  predicate RoutePointerHolds(s: Store, id: string, r: Route) {
    r.pinId != "" ==>
      r.pinId in s.pins && s.pins[r.pinId].tenant == r.tenant && s.pins[r.pinId].route == id && s.pins[r.pinId].version == r.pinVersion
  }

  predicate Resolves(s: Store, e: Evidence) {
    && (e.pinId != "" ==> PinExists(s, e.pinId, e.pinVersion))
    && (e.connection != "" ==> (e.connection, e.connectionVersion) in s.connectionVersions)
    && (e.binding != "" ==> (e.binding, e.bindingVersion) in s.bindingVersions)
  }

  /** A null or empty pointer passes; any other must name a version of this very binding. */
  predicate ResourcePointerHolds(s: Store, id: string, r: Resource) {
    r.pointer.Some? && r.pointer.value != "" ==>
      r.pointer.value in s.resourceVersions && s.resourceVersions[r.pointer.value].binding == id
  }

  predicate RunIsTerminal(s: Store, run: string) {
    run in s.runs && Terminal(s.runs[run].status)
  }

  // What the BEFORE triggers of each table let through.

  predicate TenantGuard(s: Store, c: Change<string, Tenant>)
    requires Fits(s.tenants, c)
  {
    match c
    case Insert(_, _) => true
    case Update(k, k', r) =>
      && s.tenants[k].kind == r.kind
      && (s.tenants[k].kind == "platform" ==> s.tenants[k].status == r.status && k == k')
    case Delete(k) => s.tenants[k].kind != "platform"
  }

  predicate ConnectionGuard(s: Store, c: Change<string, Connection>) {
    match c
    case Insert(_, _) => true
    case Update(_, k', r) => (k', r.current) in s.connectionVersions
    case Delete(k) => forall v | v in s.connectionVersions :: v.0 != k
  }

  predicate ConnectionVersionGuard(s: Store, c: Change<(string, int), string>) {
    c.Insert? && c.key.0 in s.connections
  }

  predicate BindingGuard(s: Store, c: Change<string, Binding>) {
    match c
    case Insert(_, r) => r.connection in s.connections && r.tenant in s.tenants
    case Update(_, k', r) => (k', r.current) in s.bindingVersions
    case Delete(k) => forall v | v in s.bindingVersions :: v.0 != k
  }

  predicate BindingVersionGuard(s: Store, c: Change<(string, int), BindingVersion>) {
    c.Insert? && c.key.0 in s.bindings && s.bindings[c.key.0].tenant == c.row.tenant
  }

  predicate RouteGuard(s: Store, c: Change<string, Route>) {
    c.Update? ==> RoutePointerHolds(s, c.newKey, c.row)
  }

  predicate PinGuard(s: Store, c: Change<string, Pin>) {
    && c.Insert?
    && c.row.route in s.routes && s.routes[c.row.route].tenant == c.row.tenant
    && PinResolves(s, c.row)
  }

  predicate PinResolves(s: Store, p: Pin) {
    && (p.connection, p.connectionVersion) in s.connectionVersions
    && (p.binding, p.bindingVersion) in s.bindingVersions
  }

  predicate EvidenceGuard(s: Store, c: Change<string, Evidence>) {
    !c.Update? && (c.Insert? ==> Resolves(s, c.row))
  }

  predicate ResourceGuard(s: Store, c: Change<string, Resource>) {
    match c
    case Insert(k, r) => ResourcePointerHolds(s, k, r)
    case Update(_, k', r) => ResourcePointerHolds(s, k', r)
    case Delete(_) => true
  }

  predicate RunGuard(s: Store, c: Change<string, EvalRun>) {
    c.Insert? || !RunIsTerminal(s, c.key)
  }

  predicate ResultGuard(s: Store, c: Change<string, CaseResult>)
    requires Fits(s.results, c)
  {
    c.Insert? || !RunIsTerminal(s, s.results[c.key].run)
  }

  predicate CandidateGuard(s: Store, c: Change<string, Candidate>)
    requires Fits(s.candidates, c)
  {
    c.Update? && s.candidates[c.key].status != "DRAFT" ==> c.row.evidence == s.candidates[c.key].evidence
  }

  /** The statement meets its table and no trigger aborts it. */
  predicate Admitted(s: Store, st: Statement) {
    match st
    case OnTenant(c) => Fits(s.tenants, c) && TenantGuard(s, c)
    case OnConnection(c) => Fits(s.connections, c) && ConnectionGuard(s, c)
    case OnConnectionVersion(c) => Fits(s.connectionVersions, c) && ConnectionVersionGuard(s, c)
    case OnBinding(c) => Fits(s.bindings, c) && BindingGuard(s, c)
    case OnBindingVersion(c) => Fits(s.bindingVersions, c) && BindingVersionGuard(s, c)
    case OnRoute(c) => Fits(s.routes, c) && RouteGuard(s, c)
    case OnPin(c) => Fits(s.pins, c) && PinGuard(s, c)
    case OnSnapshot(c) => Fits(s.snapshots, c) && EvidenceGuard(s, c)
    case OnBundle(c) => Fits(s.bundles, c) && EvidenceGuard(s, c)
    case OnResource(c) => Fits(s.resources, c) && ResourceGuard(s, c)
    case OnResourceVersion(c) => Fits(s.resourceVersions, c) && c.Insert?
    case OnRun(c) => Fits(s.runs, c) && RunGuard(s, c)
    case OnResult(c) => Fits(s.results, c) && ResultGuard(s, c)
    case OnCandidate(c) => Fits(s.candidates, c) && CandidateGuard(s, c)
  }

  /** The store after a statement; an aborted statement changes nothing. */
  function Exec(s: Store, st: Statement): Store {
    if Admitted(s, st) then Written(s, st) else s
  }

  function Written(s: Store, st: Statement): Store {
    match st
    case OnTenant(c) => s.(tenants := Apply(s.tenants, c))
    case OnConnection(c) => s.(connections := Apply(s.connections, c))
    case OnConnectionVersion(c) => s.(connectionVersions := Apply(s.connectionVersions, c))
    case OnBinding(c) => s.(bindings := Apply(s.bindings, c))
    case OnBindingVersion(c) => s.(bindingVersions := Apply(s.bindingVersions, c))
    case OnRoute(c) => s.(routes := Apply(s.routes, c))
    case OnPin(c) => s.(pins := Apply(s.pins, c))
    case OnSnapshot(c) => s.(snapshots := Apply(s.snapshots, c))
    case OnBundle(c) => s.(bundles := Apply(s.bundles, c))
    case OnResource(c) => s.(resources := Apply(s.resources, c))
    case OnResourceVersion(c) => s.(resourceVersions := Apply(s.resourceVersions, c))
    case OnRun(c) => s.(runs := Apply(s.runs, c))
    case OnResult(c) => s.(results := Apply(s.results, c))
    case OnCandidate(c) => s.(candidates := Apply(s.candidates, c))
  }

  /** A statement writes no table but its own. */
  lemma WrittenFrame(s: Store, st: Statement)
    ensures !st.OnTenant? ==> Written(s, st).tenants == s.tenants
    ensures !st.OnConnection? ==> Written(s, st).connections == s.connections
    ensures !st.OnConnectionVersion? ==> Written(s, st).connectionVersions == s.connectionVersions
    ensures !st.OnBinding? ==> Written(s, st).bindings == s.bindings
    ensures !st.OnBindingVersion? ==> Written(s, st).bindingVersions == s.bindingVersions
    ensures !st.OnRoute? ==> Written(s, st).routes == s.routes
    ensures !st.OnPin? ==> Written(s, st).pins == s.pins
    ensures !st.OnSnapshot? ==> Written(s, st).snapshots == s.snapshots
    ensures !st.OnBundle? ==> Written(s, st).bundles == s.bundles
    ensures !st.OnResource? ==> Written(s, st).resources == s.resources
    ensures !st.OnResourceVersion? ==> Written(s, st).resourceVersions == s.resourceVersions
    ensures !st.OnRun? ==> Written(s, st).runs == s.runs
    ensures !st.OnResult? ==> Written(s, st).results == s.results
    ensures !st.OnCandidate? ==> Written(s, st).candidates == s.candidates
  {
  }

  lemma OtherTablesStay(s: Store, st: Statement)
    ensures !st.OnTenant? ==> Exec(s, st).tenants == s.tenants
    ensures !st.OnConnection? ==> Exec(s, st).connections == s.connections
    ensures !st.OnConnectionVersion? ==> Exec(s, st).connectionVersions == s.connectionVersions
    ensures !st.OnBinding? ==> Exec(s, st).bindings == s.bindings
    ensures !st.OnBindingVersion? ==> Exec(s, st).bindingVersions == s.bindingVersions
    ensures !st.OnRoute? ==> Exec(s, st).routes == s.routes
    ensures !st.OnPin? ==> Exec(s, st).pins == s.pins
    ensures !st.OnSnapshot? ==> Exec(s, st).snapshots == s.snapshots
    ensures !st.OnBundle? ==> Exec(s, st).bundles == s.bundles
    ensures !st.OnResource? ==> Exec(s, st).resources == s.resources
    ensures !st.OnResourceVersion? ==> Exec(s, st).resourceVersions == s.resourceVersions
    ensures !st.OnRun? ==> Exec(s, st).runs == s.runs
    ensures !st.OnResult? ==> Exec(s, st).results == s.results
    ensures !st.OnCandidate? ==> Exec(s, st).candidates == s.candidates
  {
    WrittenFrame(s, st);
    assert Exec(s, st) == Written(s, st) || Exec(s, st) == s;
  }

  // ---------- what each statement needs and does ----------

  /** The table after a change, key by key. */
  ghost predicate Changed<K(!new), R>(table: map<K, R>, c: Change<K, R>, after: map<K, R>) {
    match c
    case Insert(k, r) =>
      && (forall x :: x in after <==> x in table || x == k)
      && after[k] == r
      && (forall x | x in table :: after[x] == table[x])
    case Update(k, k', r) =>
      && (forall x :: x in after <==> (x in table && x != k) || x == k')
      && after[k'] == r
      && (forall x | x in table && x != k :: after[x] == table[x])
    case Delete(k) =>
      && (forall x :: x in after <==> x in table && x != k)
      && (forall x | x in after :: after[x] == table[x])
  }

  lemma ApplyChanges<K(!new), R>(table: map<K, R>, c: Change<K, R>)
    requires Fits(table, c)
    ensures Changed(table, c, Apply(table, c))
  {
  }

  /** An admitted statement takes effect on its table. */
  lemma StatementsTakeEffect(s: Store, st: Statement)
    requires Admitted(s, st)
    ensures match st
            case OnTenant(c) => Changed(s.tenants, c, Exec(s, st).tenants)
            case OnConnection(c) => Changed(s.connections, c, Exec(s, st).connections)
            case OnConnectionVersion(c) => Changed(s.connectionVersions, c, Exec(s, st).connectionVersions)
            case OnBinding(c) => Changed(s.bindings, c, Exec(s, st).bindings)
            case OnBindingVersion(c) => Changed(s.bindingVersions, c, Exec(s, st).bindingVersions)
            case OnRoute(c) => Changed(s.routes, c, Exec(s, st).routes)
            case OnPin(c) => Changed(s.pins, c, Exec(s, st).pins)
            case OnSnapshot(c) => Changed(s.snapshots, c, Exec(s, st).snapshots)
            case OnBundle(c) => Changed(s.bundles, c, Exec(s, st).bundles)
            case OnResource(c) => Changed(s.resources, c, Exec(s, st).resources)
            case OnResourceVersion(c) => Changed(s.resourceVersions, c, Exec(s, st).resourceVersions)
            case OnRun(c) => Changed(s.runs, c, Exec(s, st).runs)
            case OnResult(c) => Changed(s.results, c, Exec(s, st).results)
            case OnCandidate(c) => Changed(s.candidates, c, Exec(s, st).candidates)
  {
    assert Exec(s, st) == Written(s, st);
    match st
    case OnTenant(c) => ApplyChanges(s.tenants, c);
    case OnConnection(c) => ApplyChanges(s.connections, c);
    case OnConnectionVersion(c) => ApplyChanges(s.connectionVersions, c);
    case OnBinding(c) => ApplyChanges(s.bindings, c);
    case OnBindingVersion(c) => ApplyChanges(s.bindingVersions, c);
    case OnRoute(c) => ApplyChanges(s.routes, c);
    case OnPin(c) => ApplyChanges(s.pins, c);
    case OnSnapshot(c) => ApplyChanges(s.snapshots, c);
    case OnBundle(c) => ApplyChanges(s.bundles, c);
    case OnResource(c) => ApplyChanges(s.resources, c);
    case OnResourceVersion(c) => ApplyChanges(s.resourceVersions, c);
    case OnRun(c) => ApplyChanges(s.runs, c);
    case OnResult(c) => ApplyChanges(s.results, c);
    case OnCandidate(c) => ApplyChanges(s.candidates, c);
  }

  /** A statement that is not admitted changes nothing. */
  lemma AbortedChangesNothing(s: Store, st: Statement)
    requires !Admitted(s, st)
    ensures Exec(s, st) == s
  {
  }

  /** Keys stay unique: an inserted key is new, an updated row is there and its new key is its own or new. */
  ghost predicate KeysFit<K, R>(table: map<K, R>, c: Change<K, R>) {
    if c.Insert? then c.key !in table
    else c.key in table && (c.Update? ==> c.newKey == c.key || c.newKey !in table)
  }

  lemma TenantAdmission(s: Store, c: Change<string, Tenant>)
    ensures Admitted(s, OnTenant(c)) <==>
            && KeysFit(s.tenants, c)
            && (c.Update? ==> c.row.kind == s.tenants[c.key].kind)
            && (c.Update? && s.tenants[c.key].kind == "platform" ==> c.row.status == s.tenants[c.key].status && c.newKey == c.key)
            && (c.Delete? ==> s.tenants[c.key].kind != "platform")
  {
  }

  lemma ConnectionAdmission(s: Store, c: Change<string, Connection>)
    ensures Admitted(s, OnConnection(c)) <==>
            && KeysFit(s.connections, c)
            && (c.Update? ==> (c.newKey, c.row.current) in s.connectionVersions)
            && (c.Delete? ==> forall n: int :: (c.key, n) !in s.connectionVersions)
  {
    if c.Delete? && forall n: int :: (c.key, n) !in s.connectionVersions {
      assert forall v | v in s.connectionVersions :: v == (v.0, v.1);
    }
  }

  lemma BindingAdmission(s: Store, c: Change<string, Binding>)
    ensures Admitted(s, OnBinding(c)) <==>
            && KeysFit(s.bindings, c)
            && (c.Insert? ==> c.row.connection in s.connections && c.row.tenant in s.tenants)
            && (c.Update? ==> (c.newKey, c.row.current) in s.bindingVersions)
            && (c.Delete? ==> forall n: int :: (c.key, n) !in s.bindingVersions)
  {
    if c.Delete? && forall n: int :: (c.key, n) !in s.bindingVersions {
      assert forall v | v in s.bindingVersions :: v == (v.0, v.1);
    }
  }

  /** Version rows are only ever inserted, beside their parent; a binding version carries its binding's tenant. */
  lemma VersionAdmission(s: Store, c: Change<(string, int), string>, b: Change<(string, int), BindingVersion>, r: Change<string, ResourceVersion>)
    ensures Admitted(s, OnConnectionVersion(c)) <==> c.Insert? && c.key !in s.connectionVersions && c.key.0 in s.connections
    ensures Admitted(s, OnBindingVersion(b)) <==>
            b.Insert? && b.key !in s.bindingVersions && b.key.0 in s.bindings && s.bindings[b.key.0].tenant == b.row.tenant
    ensures Admitted(s, OnResourceVersion(r)) <==> r.Insert? && r.key !in s.resourceVersions
  {
  }

  /** A route is checked on update only: its pointer is empty or names a pin of this tenant, route and version. */
  lemma RouteAdmission(s: Store, c: Change<string, Route>)
    ensures Admitted(s, OnRoute(c)) <==>
            && KeysFit(s.routes, c)
            && (c.Update? && c.row.pinId != "" ==>
                  && c.row.pinId in s.pins
                  && s.pins[c.row.pinId].tenant == c.row.tenant && s.pins[c.row.pinId].route == c.newKey
                  && s.pins[c.row.pinId].version == c.row.pinVersion)
  {
  }

  lemma PinAdmission(s: Store, c: Change<string, Pin>)
    ensures Admitted(s, OnPin(c)) <==>
            && c.Insert? && c.key !in s.pins
            && c.row.route in s.routes && s.routes[c.row.route].tenant == c.row.tenant
            && (c.row.connection, c.row.connectionVersion) in s.connectionVersions
            && (c.row.binding, c.row.bindingVersion) in s.bindingVersions
  {
  }

  /** The three references of a snapshot or an evidence bundle, each empty or resolved. */
  ghost predicate ReferencesResolve(s: Store, e: Evidence) {
    && (e.pinId == "" || (e.pinId in s.pins && s.pins[e.pinId].version == e.pinVersion))
    && (e.connection == "" || (e.connection, e.connectionVersion) in s.connectionVersions)
    && (e.binding == "" || (e.binding, e.bindingVersion) in s.bindingVersions)
  }

  lemma EvidenceAdmission(s: Store, c: Change<string, Evidence>)
    ensures Admitted(s, OnSnapshot(c)) <==> KeysFit(s.snapshots, c) && !c.Update? && (c.Insert? ==> ReferencesResolve(s, c.row))
    ensures Admitted(s, OnBundle(c)) <==> KeysFit(s.bundles, c) && !c.Update? && (c.Insert? ==> ReferencesResolve(s, c.row))
  {
  }

  lemma ResourceAdmission(s: Store, c: Change<string, Resource>)
    ensures Admitted(s, OnResource(c)) <==>
            && KeysFit(s.resources, c)
            && (!c.Delete? && c.row.pointer.Some? && c.row.pointer.value != "" ==>
                  && c.row.pointer.value in s.resourceVersions
                  && s.resourceVersions[c.row.pointer.value].binding == if c.Insert? then c.key else c.newKey)
  {
  }

  /** A run may be changed or deleted until it is completed, failed or cancelled. */
  lemma RunAdmission(s: Store, c: Change<string, EvalRun>)
    ensures Admitted(s, OnRun(c)) <==>
            KeysFit(s.runs, c)
            && (!c.Insert? ==> s.runs[c.key].status != "COMPLETED" && s.runs[c.key].status != "FAILED" && s.runs[c.key].status != "CANCELLED")
  {
  }

  /** A case result may be changed or deleted until the run it belongs to is. */
  lemma ResultAdmission(s: Store, c: Change<string, CaseResult>)
    ensures Admitted(s, OnResult(c)) <==>
            KeysFit(s.results, c)
            && (!c.Insert? && s.results[c.key].run in s.runs ==>
                  var status := s.runs[s.results[c.key].run].status;
                  status != "COMPLETED" && status != "FAILED" && status != "CANCELLED")
  {
  }

  lemma CandidateAdmission(s: Store, c: Change<string, Candidate>)
    ensures Admitted(s, OnCandidate(c)) <==>
            KeysFit(s.candidates, c)
            && (c.Update? && s.candidates[c.key].status != "DRAFT" ==> c.row.evidence == s.candidates[c.key].evidence)
  {
  }

  // ---------- the invariant ----------

  /** Referential integrity that no single trigger states but all of them together keep. */
  ghost predicate Sound(s: Store) {
    && (forall v | v in s.connectionVersions :: v.0 in s.connections)
    && (forall v | v in s.bindingVersions :: v.0 in s.bindings)
    && (forall p | p in s.pins :: PinResolves(s, s.pins[p]))
    && (forall e | e in s.snapshots :: Resolves(s, s.snapshots[e]))
    && (forall e | e in s.bundles :: Resolves(s, s.bundles[e]))
    && (forall r | r in s.resources :: ResourcePointerHolds(s, r, s.resources[r]))
  }

  /** Every row of the first table is still in the second, unchanged. */
  ghost predicate Kept<K(!new), R(!new)>(a: map<K, R>, b: map<K, R>) {
    forall k | k in a :: k in b && b[k] == a[k]
  }

  /** The append-only tables only grow. */
  ghost predicate Grows(s: Store, s': Store) {
    && Kept(s.connectionVersions, s'.connectionVersions)
    && Kept(s.bindingVersions, s'.bindingVersions)
    && Kept(s.pins, s'.pins)
    && Kept(s.resourceVersions, s'.resourceVersions)
  }

  lemma InsertKeeps<K, R>(table: map<K, R>, c: Change<K, R>)
    requires Fits(table, c) && c.Insert?
    ensures forall k | k in table :: k in Apply(table, c) && Apply(table, c)[k] == table[k]
  {
  }

  lemma StepGrows(s: Store, st: Statement)
    ensures Grows(s, Exec(s, st))
  {
    OtherTablesStay(s, st);
    if Admitted(s, st) {
      match st
      case OnConnectionVersion(c) => InsertKeeps(s.connectionVersions, c);
      case OnBindingVersion(c) => InsertKeeps(s.bindingVersions, c);
      case OnPin(c) => InsertKeeps(s.pins, c);
      case OnResourceVersion(c) => InsertKeeps(s.resourceVersions, c);
      case _ =>
    }
  }

  /** References resolved before an append-only step stay resolved. */
  lemma ReferencesPersist(s: Store, s': Store)
    requires Sound(s) && Grows(s, s')
    ensures forall p | p in s.pins :: PinResolves(s', s.pins[p])
    ensures forall e | e in s.snapshots :: Resolves(s', s.snapshots[e])
    ensures forall e | e in s.bundles :: Resolves(s', s.bundles[e])
    ensures forall r | r in s.resources :: ResourcePointerHolds(s', r, s.resources[r])
  {
  }

  /**
   An update cannot move a connection or a binding to another key: the pointer trigger asks
   for a version under the new key, whose parent must exist, and then the key is taken.
   */
  lemma KeysCannotMove(s: Store, st: Statement)
    requires Sound(s) && Admitted(s, st)
    ensures st.OnConnection? && st.connection.Update? ==> st.connection.newKey == st.connection.key
    ensures st.OnBinding? && st.binding.Update? ==> st.binding.newKey == st.binding.key
  {
    if st.OnConnection? && st.connection.Update? {
      assert (st.connection.newKey, st.connection.row.current).0 in s.connections;
    }
    if st.OnBinding? && st.binding.Update? {
      assert (st.binding.newKey, st.binding.row.current).0 in s.bindings;
    }
  }

  lemma ConnectionsSurvive(s: Store, c: Change<string, Connection>)
    requires forall v | v in s.connectionVersions :: v.0 in s.connections
    requires Fits(s.connections, c) && ConnectionGuard(s, c)
    ensures forall v | v in s.connectionVersions :: v.0 in Apply(s.connections, c)
  {
    if c.Update? {
      assert (c.newKey, c.row.current).0 in s.connections;
    }
  }

  lemma BindingsSurvive(s: Store, c: Change<string, Binding>)
    requires forall v | v in s.bindingVersions :: v.0 in s.bindings
    requires Fits(s.bindings, c) && BindingGuard(s, c)
    ensures forall v | v in s.bindingVersions :: v.0 in Apply(s.bindings, c)
  {
    if c.Update? {
      assert (c.newKey, c.row.current).0 in s.bindings;
    }
  }

  /** A parent that has versions survives every step. */
  lemma ParentsSurvive(s: Store, st: Statement)
    requires Sound(s)
    ensures forall v | v in s.connectionVersions :: v.0 in Exec(s, st).connections
    ensures forall v | v in s.bindingVersions :: v.0 in Exec(s, st).bindings
  {
    OtherTablesStay(s, st);
    if Admitted(s, st) && st.OnConnection? {
      ConnectionsSurvive(s, st.connection);
    } else if Admitted(s, st) && st.OnBinding? {
      BindingsSurvive(s, st.binding);
    }
  }

  /** Every statement keeps the store sound. */
  lemma StepKeepsSound(s: Store, st: Statement)
    requires Sound(s)
    ensures Sound(Exec(s, st))
  {
    var s' := Exec(s, st);
    StepGrows(s, st);
    ReferencesPersist(s, s');
    StepKeepsParents(s, st);
    StepKeepsPins(s, st);
    StepKeepsEvidence(s, st);
    StepKeepsResources(s, st);
  }

  lemma StepKeepsParents(s: Store, st: Statement)
    requires Sound(s)
    ensures forall v | v in Exec(s, st).connectionVersions :: v.0 in Exec(s, st).connections
    ensures forall v | v in Exec(s, st).bindingVersions :: v.0 in Exec(s, st).bindings
  {
    ParentsSurvive(s, st);
    if st.OnConnectionVersion? || st.OnBindingVersion? {
      NewVersionHasParent(s, st);
    } else {
      OtherTablesStay(s, st);
    }
  }

  lemma NewVersionHasParent(s: Store, st: Statement)
    requires Sound(s) && (st.OnConnectionVersion? || st.OnBindingVersion?)
    ensures forall v | v in Exec(s, st).connectionVersions :: v.0 in Exec(s, st).connections
    ensures forall v | v in Exec(s, st).bindingVersions :: v.0 in Exec(s, st).bindings
  {
    OtherTablesStay(s, st);
    if Admitted(s, st) && st.OnConnectionVersion? {
      var c := st.connectionVersion;
      assert Exec(s, st).connectionVersions == s.connectionVersions[c.key := c.row];
      assert Exec(s, st).bindingVersions == s.bindingVersions;
    } else if Admitted(s, st) {
      var c := st.bindingVersion;
      assert Exec(s, st).bindingVersions == s.bindingVersions[c.key := c.row];
      assert Exec(s, st).connectionVersions == s.connectionVersions;
    }
  }

  /** A row of a table after a statement is the statement's own row or was there before. */
  lemma RowOrigin<K, R>(table: map<K, R>, c: Change<K, R>, k: K)
    requires Fits(table, c) && k in Apply(table, c)
    ensures if c.Insert? && c.key == k then Apply(table, c)[k] == c.row
            else if c.Update? && c.newKey == k then Apply(table, c)[k] == c.row
            else k in table && Apply(table, c)[k] == table[k]
  {
  }

  lemma StepKeepsPins(s: Store, st: Statement)
    requires Sound(s) && Grows(s, Exec(s, st))
    ensures forall p | p in Exec(s, st).pins :: PinResolves(Exec(s, st), Exec(s, st).pins[p])
  {
    ReferencesPersist(s, Exec(s, st));
    OtherTablesStay(s, st);
    if Admitted(s, st) && st.OnPin? {
      NewPin(s, st.pin);
    }
  }

  lemma NewPin(s: Store, c: Change<string, Pin>)
    requires Sound(s) && Admitted(s, OnPin(c))
    ensures var s' := s.(pins := Apply(s.pins, c)); forall p | p in s'.pins :: PinResolves(s', s'.pins[p])
  {
    forall p | p in Apply(s.pins, c)
      ensures PinResolves(s, Apply(s.pins, c)[p])
    {
      RowOrigin(s.pins, c, p);
    }
  }

  lemma StepKeepsEvidence(s: Store, st: Statement)
    requires Sound(s) && Grows(s, Exec(s, st))
    ensures forall e | e in Exec(s, st).snapshots :: Resolves(Exec(s, st), Exec(s, st).snapshots[e])
    ensures forall e | e in Exec(s, st).bundles :: Resolves(Exec(s, st), Exec(s, st).bundles[e])
  {
    ReferencesPersist(s, Exec(s, st));
    OtherTablesStay(s, st);
    if Admitted(s, st) && st.OnSnapshot? {
      NewEvidence(s, s.snapshots, st.snapshot);
      SameEvidenceTargets(s, st);
    } else if Admitted(s, st) && st.OnBundle? {
      NewEvidence(s, s.bundles, st.bundle);
      SameEvidenceTargets(s, st);
    }
  }

  lemma NewEvidence(s: Store, table: map<string, Evidence>, c: Change<string, Evidence>)
    requires forall e | e in table :: Resolves(s, table[e])
    requires Fits(table, c) && EvidenceGuard(s, c)
    ensures forall e | e in Apply(table, c) :: Resolves(s, Apply(table, c)[e])
  {
    forall e | e in Apply(table, c)
      ensures Resolves(s, Apply(table, c)[e])
    {
      RowOrigin(table, c, e);
    }
  }

  lemma SameEvidenceTargets(s: Store, st: Statement)
    requires st.OnSnapshot? || st.OnBundle?
    ensures forall e :: Resolves(Exec(s, st), e) <==> Resolves(s, e)
  {
    OtherTablesStay(s, st);
  }

  lemma StepKeepsResources(s: Store, st: Statement)
    requires Sound(s) && Grows(s, Exec(s, st))
    ensures forall r | r in Exec(s, st).resources :: ResourcePointerHolds(Exec(s, st), r, Exec(s, st).resources[r])
  {
    ReferencesPersist(s, Exec(s, st));
    OtherTablesStay(s, st);
    if Admitted(s, st) && st.OnResource? {
      var c := st.resource;
      forall r | r in Apply(s.resources, c)
        ensures ResourcePointerHolds(s, r, Apply(s.resources, c)[r])
      {
        RowOrigin(s.resources, c, r);
      }
    }
  }

  // ---------- whole runs ----------

  /** The store after a sequence of statements. */
  function ExecAll(s: Store, sts: seq<Statement>): Store {
    if sts == [] then s else Exec(ExecAll(s, sts[..|sts| - 1]), sts[|sts| - 1])
  }

  /** In every run from the empty store, every reference resolves. */
  lemma {:induction false} EveryRunIsSound(sts: seq<Statement>)
    ensures Sound(ExecAll(Empty, sts))
  {
    if sts != [] {
      EveryRunIsSound(sts[..|sts| - 1]);
      StepKeepsSound(ExecAll(Empty, sts[..|sts| - 1]), sts[|sts| - 1]);
    }
  }

  /**
   From any sound store, whatever follows: version rows and pins stay as they are, and a
   connection or binding that has a version is still there under the same id.
   */
  lemma {:induction false} VersionedParentsArePermanent(s: Store, sts: seq<Statement>)
    requires Sound(s)
    ensures Sound(ExecAll(s, sts)) && Grows(s, ExecAll(s, sts))
    ensures forall v | v in s.connectionVersions :: v.0 in ExecAll(s, sts).connections
    ensures forall v | v in s.bindingVersions :: v.0 in ExecAll(s, sts).bindings
  {
    if sts != [] {
      var before := ExecAll(s, sts[..|sts| - 1]);
      VersionedParentsArePermanent(s, sts[..|sts| - 1]);
      StepKeepsSound(before, sts[|sts| - 1]);
      StepGrows(before, sts[|sts| - 1]);
      ParentsSurvive(before, sts[|sts| - 1]);
      forall v | v in s.connectionVersions
        ensures v.0 in ExecAll(s, sts).connections
      {
        assert v in before.connectionVersions;
      }
      forall v | v in s.bindingVersions
        ensures v.0 in ExecAll(s, sts).bindings
      {
        assert v in before.bindingVersions;
      }
    }
  }

  /** In every run from the empty store, said of the tables alone: parents exist and references resolve. */
  lemma EveryReferenceResolves(sts: seq<Statement>)
    ensures var s := ExecAll(Empty, sts);
            && (forall c, n: int | (c, n) in s.connectionVersions :: c in s.connections)
            && (forall b, n: int | (b, n) in s.bindingVersions :: b in s.bindings)
            && (forall p | p in s.pins ::
                  && (s.pins[p].connection, s.pins[p].connectionVersion) in s.connectionVersions
                  && (s.pins[p].binding, s.pins[p].bindingVersion) in s.bindingVersions)
            && (forall e | e in s.snapshots :: ReferencesResolve(s, s.snapshots[e]))
            && (forall e | e in s.bundles :: ReferencesResolve(s, s.bundles[e]))
            && (forall r | r in s.resources && s.resources[r].pointer.Some? && s.resources[r].pointer.value != "" ::
                  && s.resources[r].pointer.value in s.resourceVersions
                  && s.resourceVersions[s.resources[r].pointer.value].binding == r)
  {
    EveryRunIsSound(sts);
    var s := ExecAll(Empty, sts);
    forall c, n: int | (c, n) in s.connectionVersions
      ensures c in s.connections
    {
      assert (c, n).0 in s.connections;
    }
    forall b, n: int | (b, n) in s.bindingVersions
      ensures b in s.bindings
    {
      assert (b, n).0 in s.bindings;
    }
  }

  /**
   Once a run is terminal, its row and every case result it has are there unchanged after
   any further statements; only new results can appear.
   */
  lemma {:induction false} TerminalRunsAreFrozen(s: Store, sts: seq<Statement>, run: string)
    requires run in s.runs
    requires s.runs[run].status == "COMPLETED" || s.runs[run].status == "FAILED" || s.runs[run].status == "CANCELLED"
    ensures run in ExecAll(s, sts).runs && ExecAll(s, sts).runs[run] == s.runs[run]
    ensures forall k | k in s.results && s.results[k].run == run ::
              k in ExecAll(s, sts).results && ExecAll(s, sts).results[k] == s.results[k]
  {
    if sts != [] {
      TerminalRunsAreFrozen(s, sts[..|sts| - 1], run);
      TerminalStep(ExecAll(s, sts[..|sts| - 1]), sts[|sts| - 1], run);
    }
  }

  lemma TerminalStep(s: Store, st: Statement, run: string)
    requires run in s.runs
    requires s.runs[run].status == "COMPLETED" || s.runs[run].status == "FAILED" || s.runs[run].status == "CANCELLED"
    ensures run in Exec(s, st).runs && Exec(s, st).runs[run] == s.runs[run]
    ensures forall k | k in s.results && s.results[k].run == run ::
              k in Exec(s, st).results && Exec(s, st).results[k] == s.results[k]
  {
    OtherTablesStay(s, st);
    if Admitted(s, st) && st.OnRun? {
      OtherRows(s.runs, st.run, run);
    } else if Admitted(s, st) && st.OnResult? {
      forall k | k in s.results && s.results[k].run == run
        ensures k in Apply(s.results, st.result) && Apply(s.results, st.result)[k] == s.results[k]
      {
        OtherRows(s.results, st.result, k);
      }
    }
  }

  /** A change leaves the rows alone that it neither updates nor deletes. */
  lemma OtherRows<K, R>(table: map<K, R>, c: Change<K, R>, k: K)
    requires Fits(table, c) && k in table && (c.Insert? || c.key != k)
    ensures k in Apply(table, c) && Apply(table, c)[k] == table[k]
  {
  }

  /** A platform tenant keeps its id, kind and status through any statements and is never deleted. */
  lemma {:induction false} PlatformTenantsArePermanent(s: Store, sts: seq<Statement>, t: string)
    requires t in s.tenants && s.tenants[t].kind == "platform"
    ensures t in ExecAll(s, sts).tenants
    ensures ExecAll(s, sts).tenants[t].kind == "platform" && ExecAll(s, sts).tenants[t].status == s.tenants[t].status
  {
    if sts != [] {
      PlatformTenantsArePermanent(s, sts[..|sts| - 1], t);
      PlatformStep(ExecAll(s, sts[..|sts| - 1]), sts[|sts| - 1], t);
    }
  }

  lemma PlatformStep(s: Store, st: Statement, t: string)
    requires t in s.tenants && s.tenants[t].kind == "platform"
    ensures t in Exec(s, st).tenants
    ensures Exec(s, st).tenants[t].kind == "platform" && Exec(s, st).tenants[t].status == s.tenants[t].status
  {
    OtherTablesStay(s, st);
    if Admitted(s, st) && st.OnTenant? && (st.tenant.Insert? || st.tenant.key != t) {
      OtherRows(s.tenants, st.tenant, t);
    }
  }

  // ---------- where the triggers stop short ----------

  ghost predicate RoutesHold(s: Store) {
    forall k | k in s.routes :: RoutePointerHolds(s, k, s.routes[k])
  }

  /** A statement that inserts a route whose pin pointer does not name one of its own pins. */
  predicate DanglingInsert(s: Store, st: Statement) {
    st.OnRoute? && st.route.Insert? && st.route.key !in s.routes && !RoutePointerHolds(s, st.route.key, st.route.row)
  }

  /**
   Route pointers are checked on update only. A step keeps all of them valid if and only if
   it does not insert a route with a dangling pointer.
   */
  lemma RoutePointersKeptIff(s: Store, st: Statement)
    requires RoutesHold(s)
    ensures RoutesHold(Exec(s, st)) <==> !DanglingInsert(s, st)
  {
    OtherTablesStay(s, st);
    if Admitted(s, st) && st.OnRoute? {
      RouteStep(s, st.route);
    } else {
      StepGrows(s, st);
    }
  }

  lemma RouteStep(s: Store, c: Change<string, Route>)
    requires RoutesHold(s) && Admitted(s, OnRoute(c))
    ensures RoutesHold(s.(routes := Apply(s.routes, c))) <==> !DanglingInsert(s, OnRoute(c))
  {
    var s' := s.(routes := Apply(s.routes, c));
    assert forall k, r :: RoutePointerHolds(s', k, r) <==> RoutePointerHolds(s, k, r);
    if c.Insert? {
      assert c.key in s'.routes && s'.routes[c.key] == c.row;
    }
    forall k | k in s'.routes && !DanglingInsert(s, OnRoute(c))
      ensures RoutePointerHolds(s', k, s'.routes[k])
    {
      RowOrigin(s.routes, c, k);
    }
  }

  /** A route with a dangling pointer does get in. */
  lemma RoutePointersCanDangle()
    ensures exists st :: !RoutesHold(ExecAll(Empty, [st]))
  {
    var st := OnRoute(Insert("r", Route("t", "p", 1, "")));
    assert [st][..0] == [];
    assert ExecAll(Empty, [st]) == Exec(Empty, st);
    assert DanglingInsert(Empty, st);
    RoutePointersKeptIff(Empty, st);
    assert !RoutesHold(ExecAll(Empty, [st]));
  }

  /** The candidate is present and out of draft after each of the first n statements. */
  ghost predicate StaysOutOfDraft(s: Store, sts: seq<Statement>, c: string) {
    forall i | 0 <= i <= |sts| ::
      c in ExecAll(s, sts[..i]).candidates && (i < |sts| ==> ExecAll(s, sts[..i]).candidates[c].status != "DRAFT")
  }

  /** A release candidate's evidence is fixed for as long as the candidate stays out of draft. */
  lemma {:induction false} CandidateEvidenceHolds(s: Store, sts: seq<Statement>, c: string)
    requires StaysOutOfDraft(s, sts, c)
    ensures c in s.candidates && c in ExecAll(s, sts).candidates
    ensures ExecAll(s, sts).candidates[c].evidence == s.candidates[c].evidence
  {
    assert sts[..0] == [] && sts[..|sts|] == sts;
    if sts != [] {
      var front := sts[..|sts| - 1];
      forall i | 0 <= i <= |front|
        ensures c in ExecAll(s, front[..i]).candidates && (i < |front| ==> ExecAll(s, front[..i]).candidates[c].status != "DRAFT")
      {
        assert front[..i] == sts[..i];
      }
      CandidateEvidenceHolds(s, front, c);
      CandidateStep(ExecAll(s, front), sts[|sts| - 1], c);
    }
  }

  lemma CandidateStep(s: Store, st: Statement, c: string)
    requires c in s.candidates && s.candidates[c].status != "DRAFT" && c in Exec(s, st).candidates
    ensures Exec(s, st).candidates[c].evidence == s.candidates[c].evidence
  {
    OtherTablesStay(s, st);
    if Admitted(s, st) && st.OnCandidate? {
      RowOrigin(s.candidates, st.candidate, c);
    }
  }

  /**
   The exact reach of the guard: no statement can change the evidence of a candidate it leaves
   in place if and only if the candidate is out of draft.
   */
  lemma EvidenceFixedIff(s: Store, c: string)
    requires c in s.candidates
    ensures (forall st :: c in Exec(s, st).candidates ==> Exec(s, st).candidates[c].evidence == s.candidates[c].evidence)
            <==> s.candidates[c].status != "DRAFT"
  {
    if s.candidates[c].status != "DRAFT" {
      forall st | c in Exec(s, st).candidates
        ensures Exec(s, st).candidates[c].evidence == s.candidates[c].evidence
      {
        CandidateStep(s, st, c);
      }
    } else {
      var row := s.candidates[c];
      var s' := UpdateCandidate(s, c, row.(evidence := row.evidence + ["x"]));
      assert s'.candidates[c].evidence != row.evidence;
    }
  }

  /** Going back to draft is allowed, so two updates can replace the evidence of a submitted candidate. */
  lemma EvidenceCanBeReplacedThroughDraft(s: Store, c: string, evidence: seq<string>)
    requires c in s.candidates
    ensures exists sts ::
              && c in ExecAll(s, sts).candidates
              && ExecAll(s, sts).candidates[c] == s.candidates[c].(evidence := evidence)
  {
    var row := s.candidates[c];
    var draft, final := row.(status := "DRAFT"), row.(evidence := evidence);
    var toDraft, back := OnCandidate(Update(c, c, draft)), OnCandidate(Update(c, c, final));
    var mid := UpdateCandidate(s, c, draft);
    var end := UpdateCandidate(mid, c, final);
    var sts := [toDraft, back];
    assert sts[..1] == [toDraft] && [toDraft][..0] == [];
    assert ExecAll(s, [toDraft]) == mid && ExecAll(s, sts) == end;
  }

  /** An update of one candidate in place, where the guard allows it. */
  lemma UpdateCandidate(s: Store, c: string, row: Candidate) returns (s': Store)
    requires c in s.candidates
    requires s.candidates[c].status == "DRAFT" || row.evidence == s.candidates[c].evidence
    ensures s' == Exec(s, OnCandidate(Update(c, c, row)))
    ensures c in s'.candidates && s'.candidates[c] == row
  {
    s' := Exec(s, OnCandidate(Update(c, c, row)));
    assert Admitted(s, OnCandidate(Update(c, c, row)));
  }

  // ---------- the store as an object ----------

  /** The database: its tables are updated in place, one statement at a time. */
  class Database {
    var tables: Store

    constructor ()
      ensures tables == Empty && Sound(tables)
    {
      tables := Empty;
    }

    /** Runs one statement: reports whether the triggers admit it, and keeps the store sound either way. */
    method Execute(st: Statement) returns (ok: bool)
      requires Sound(tables)
      modifies this
      ensures ok == Admitted(old(tables), st)
      ensures tables == Exec(old(tables), st)
      ensures Sound(tables) && Grows(old(tables), tables)
    {
      StepKeepsSound(tables, st);
      StepGrows(tables, st);
      ok := Admitted(tables, st);
      if ok {
        tables := Written(tables, st);
      }
    }
  }
}
