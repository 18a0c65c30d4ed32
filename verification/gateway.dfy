/**
 The three gateway entry points as sequences of effects on the idempotency record, the quota
 reservation, the provider and the response, for every outcome of the service calls.
 */
module Gateway {

  datatype Effect =
    | Begin(isNew: bool)   // the idempotency record was opened (fresh) or found settled (replay)
    | Reserve(ok: bool)    // quota preauthorization
    | Release | Finalize   // the reservation is returned or consumed
    | Complete | Fail      // the idempotency record is settled
    | Call                 // the provider is invoked
    | Respond | OpenStream // a response is written, or its stream is committed
    | Audit

  datatype BeginResult = BeginError | Replay | Fresh

  /** Everything the services decide; each handler looks at its own part. */
  datatype Outcomes = Outcomes(
    keyOk: bool, mayExecute: bool, ipOk: bool, bodyOk: bool,
    begin: BeginResult, quotaOk: bool, tooManyRequests: bool,
    inputOk: bool, hasChatTarget: bool, routeScopeOk: bool, itemScopeOk: bool, targetOk: bool,
    stream: bool, callOk: bool, hasChoices: bool)

  type Trace = seq<Effect>

  /**
   How often each effect occurred; how many calls came before any reservation or after something was
   settled or closed, and how many reservations came before the record was opened.
   */
  datatype Ledger = Ledger(begun: nat, replayed: nat, reserved: nat, refused: nat, released: nat, finalized: nat,
                           completed: nat, failed: nat, called: nat, responses: nat, audits: nat,
                           uncovered: nat, hasty: nat, unrecorded: nat)

  const NOTHING := Ledger(0, 0, 0, 0, 0, 0, 0, 0, 0, 0, 0, 0, 0, 0)

  function Add(l: Ledger, e: Effect): Ledger {
    match e
    case Begin(isNew) => if isNew then l.(begun := l.begun + 1) else l.(replayed := l.replayed + 1)
    case Reserve(ok) =>
      var m := l.(unrecorded := if l.begun == 0 then l.unrecorded + 1 else l.unrecorded);
      if ok then m.(reserved := m.reserved + 1) else m.(refused := m.refused + 1)
    case Release => l.(released := l.released + 1)
    case Finalize => l.(finalized := l.finalized + 1)
    case Complete => l.(completed := l.completed + 1)
    case Fail => l.(failed := l.failed + 1)
    case Call =>
      l.(called := l.called + 1,
         uncovered := if l.reserved == 0 then l.uncovered + 1 else l.uncovered,
         hasty := if l.released + l.finalized + l.completed + l.failed > 0 then l.hasty + 1 else l.hasty)
    case Respond => l.(responses := l.responses + 1)
    case OpenStream => l.(responses := l.responses + 1)
    case Audit => l.(audits := l.audits + 1)
  }

  function Tally(t: Trace): Ledger {
    if t == [] then NOTHING else Add(Tally(t[..|t| - 1]), t[|t| - 1])
  }

  /** How often an effect occurs in a trace. */
  function Times(t: Trace, e: Effect): nat {
    if t == [] then 0 else Times(t[..|t| - 1], e) + if t[|t| - 1] == e then 1 else 0
  }

  lemma {:induction false} TallyCountsQuota(t: Trace)
    ensures var l := Tally(t);
            && l.reserved == Times(t, Reserve(true)) && l.refused == Times(t, Reserve(false))
            && l.released == Times(t, Release) && l.finalized == Times(t, Finalize)
            && l.called == Times(t, Call)
  {
    if t != [] {
      TallyCountsQuota(t[..|t| - 1]);
    }
  }

  lemma {:induction false} TallyCountsRecord(t: Trace)
    ensures var l := Tally(t);
            && l.begun == Times(t, Begin(true)) && l.replayed == Times(t, Begin(false))
            && l.completed == Times(t, Complete) && l.failed == Times(t, Fail)
            && l.audits == Times(t, Audit) && l.responses == Times(t, Respond) + Times(t, OpenStream)
  {
    if t != [] {
      TallyCountsRecord(t[..|t| - 1]);
    }
  }

  /** The ledger counts the effects of the trace. */
  lemma TallyCounts(t: Trace)
    ensures var l := Tally(t);
            && l.begun == Times(t, Begin(true)) && l.replayed == Times(t, Begin(false))
            && l.reserved == Times(t, Reserve(true)) && l.refused == Times(t, Reserve(false))
            && l.released == Times(t, Release) && l.finalized == Times(t, Finalize)
            && l.completed == Times(t, Complete) && l.failed == Times(t, Fail)
            && l.called == Times(t, Call) && l.audits == Times(t, Audit)
            && l.responses == Times(t, Respond) + Times(t, OpenStream)
  {
    TallyCountsQuota(t);
    TallyCountsRecord(t);
  }

  // ---------- the order of effects ----------

  type Kind = Effect -> bool

  predicate Seen(t: Trace, q: Kind) {
    exists i :: 0 <= i < |t| && q(t[i])
  }

  /** Every effect of the first kind has one of the second kind somewhere before it, or none has. */
  predicate Follows(t: Trace, p: Kind, q: Kind, some: bool) {
    forall i | 0 <= i < |t| && p(t[i]) :: Seen(t[..i], q) == some
  }

  lemma SeenStep(front: Trace, last: Effect, q: Kind)
    ensures Seen(front + [last], q) <==> Seen(front, q) || q(last)
  {
    var t := front + [last];
    if Seen(front, q) {
      var i :| 0 <= i < |front| && q(front[i]);
      assert t[i] == front[i];
    }
    assert t[|front|] == last;
  }

  lemma FollowsStep(front: Trace, last: Effect, p: Kind, q: Kind, some: bool)
    ensures Follows(front + [last], p, q, some) <==> Follows(front, p, q, some) && (p(last) ==> Seen(front, q) == some)
  {
    var t := front + [last];
    assert t[..|front|] == front && t[|front|] == last;
    assert forall i | 0 <= i < |front| :: t[i] == front[i] && t[..i] == front[..i];
    if Follows(t, p, q, some) {
      forall i | 0 <= i < |front| && p(front[i])
        ensures Seen(front[..i], q) == some
      {
        assert p(t[i]);
      }
    }
  }

  function IsCall(): Kind { (e: Effect) => e == Call }
  function IsAsking(): Kind { (e: Effect) => e.Reserve? }
  function IsOpening(): Kind { (e: Effect) => e == Begin(true) }
  function IsReservation(): Kind { (e: Effect) => e == Reserve(true) }
  function IsSettling(): Kind { (e: Effect) => e == Release || e == Finalize || e == Complete || e == Fail }

  lemma {:induction false} TallySeesOpening(t: Trace)
    ensures Tally(t).begun > 0 <==> Seen(t, IsOpening())
  {
    if t != [] {
      var front, last := t[..|t| - 1], t[|t| - 1];
      TallySeesOpening(front);
      assert t == front + [last];
      SeenStep(front, last, IsOpening());
    }
  }

  lemma {:induction false} TallySeesReservation(t: Trace)
    ensures Tally(t).reserved > 0 <==> Seen(t, IsReservation())
  {
    if t != [] {
      var front, last := t[..|t| - 1], t[|t| - 1];
      TallySeesReservation(front);
      assert t == front + [last];
      SeenStep(front, last, IsReservation());
    }
  }

  lemma {:induction false} TallySeesSettling(t: Trace)
    ensures Tally(t).released + Tally(t).finalized + Tally(t).completed + Tally(t).failed > 0 <==> Seen(t, IsSettling())
  {
    if t != [] {
      var front, last := t[..|t| - 1], t[|t| - 1];
      TallySeesSettling(front);
      assert t == front + [last];
      SeenStep(front, last, IsSettling());
    }
  }

  /** No call without a reservation before it. */
  lemma {:induction false} TallyWatchesCover(t: Trace)
    ensures Tally(t).uncovered == 0 <==> Follows(t, IsCall(), IsReservation(), true)
  {
    if t != [] {
      var front, last := t[..|t| - 1], t[|t| - 1];
      TallyWatchesCover(front);
      TallySeesReservation(front);
      assert t == front + [last];
      FollowsStep(front, last, IsCall(), IsReservation(), true);
    }
  }

  /** No call after anything was settled or closed. */
  lemma {:induction false} TallyWatchesHaste(t: Trace)
    ensures Tally(t).hasty == 0 <==> Follows(t, IsCall(), IsSettling(), false)
  {
    if t != [] {
      var front, last := t[..|t| - 1], t[|t| - 1];
      TallyWatchesHaste(front);
      TallySeesSettling(front);
      assert t == front + [last];
      FollowsStep(front, last, IsCall(), IsSettling(), false);
    }
  }

  /** No reservation attempt before the record was opened. */
  lemma {:induction false} TallyWatchesRecord(t: Trace)
    ensures Tally(t).unrecorded == 0 <==> Follows(t, IsAsking(), IsOpening(), true)
  {
    if t != [] {
      var front, last := t[..|t| - 1], t[|t| - 1];
      TallyWatchesRecord(front);
      TallySeesOpening(front);
      assert t == front + [last];
      FollowsStep(front, last, IsAsking(), IsOpening(), true);
    }
  }

  /**
   The ledger watches the order: no call without a reservation before it, no call after anything was
   settled or closed, no reservation attempt before the record was opened.
   */
  lemma TallyWatchesOrder(t: Trace)
    ensures Tally(t).uncovered == 0 <==> Follows(t, IsCall(), IsReservation(), true)
    ensures Tally(t).hasty == 0 <==> Follows(t, IsCall(), IsSettling(), false)
    ensures Tally(t).unrecorded == 0 <==> Follows(t, IsAsking(), IsOpening(), true)
  {
    TallyWatchesCover(t);
    TallyWatchesHaste(t);
    TallyWatchesRecord(t);
  }

  // ---------- the protocol ----------

  /**
   What every exchange obeys: a new idempotency record is settled exactly once and nothing
   else is; a replay reaches neither quota nor provider; the record is opened before the quota is asked,
   no provider call precedes a successful reservation or follows a settlement; a reservation is
   never both returned and consumed.
   */
  predicate Protocol(l: Ledger) {
    && l.begun + l.replayed <= 1
    && l.completed + l.failed == l.begun
    && (l.replayed > 0 ==> l.reserved + l.refused + l.called == 0)
    && l.reserved + l.refused <= l.begun
    && l.called <= l.reserved
    && l.released + l.finalized <= l.reserved
    && l.uncovered == 0 && l.hasty == 0 && l.unrecorded == 0
  }

  /** The reservation of this exchange was returned or consumed by the handler itself. */
  predicate Closed(l: Ledger) {
    l.released + l.finalized == l.reserved
  }

  /** A new record and a successful reservation, and nothing more. */
  const OPENED := NOTHING.(begun := 1, reserved := 1)

  datatype Entry = Chat | SearchApp | Agent

  /** Key, address and permission are in order. */
  predicate Admitted(o: Outcomes) {
    o.keyOk && o.mayExecute && o.ipOk
  }

  /** The exchange got as far as holding a reservation. */
  predicate Reserved(o: Outcomes) {
    Admitted(o) && o.bodyOk && o.begin == Fresh && o.quotaOk
  }

  /** The checks between the reservation and the provider pass. */
  predicate Cleared(e: Entry, o: Outcomes) {
    if e.Chat? then o.routeScopeOk && o.itemScopeOk && (o.hasChatTarget ==> o.targetOk)
    else o.inputOk && o.routeScopeOk && o.targetOk
  }

  /** The run got as far as calling the provider. */
  predicate ReachesProvider(e: Entry, o: Outcomes) {
    Reserved(o) && Cleared(e, o)
  }

  /** The handler panics over the answer. */
  predicate Panics(e: Entry, o: Outcomes) {
    e.Agent? && ReachesProvider(e, o) && !o.stream && o.callOk && !o.hasChoices
  }

  /** An audit record is written. */
  predicate Audited(e: Entry, o: Outcomes) {
    if !o.keyOk then false
    else if e.Chat? && !o.mayExecute then false
    else if !o.ipOk || !o.mayExecute then true
    else if !o.bodyOk || o.begin != Fresh then false
    else if !o.quotaOk then o.tooManyRequests
    else if !Cleared(e, o) then !e.Chat? && o.inputOk
    else if o.stream then !e.Chat? || !o.callOk
    else o.callOk && !Panics(e, o)
  }

  /** The record, by the outcome of the services. */
  predicate RecordAccounts(e: Entry, o: Outcomes, l: Ledger) {
    && (l.begun == 1 <==> Admitted(o) && o.bodyOk && o.begin == Fresh)
    && (l.replayed == 1 <==> Admitted(o) && o.bodyOk && o.begin == Replay)
    && (l.completed == 1 <==> ReachesProvider(e, o) && o.callOk)
  }

  /** The reservation and the call. */
  predicate QuotaAccounts(e: Entry, o: Outcomes, l: Ledger) {
    && (l.reserved == 1 <==> Reserved(o))
    && (l.called == 1 <==> ReachesProvider(e, o))
    && (l.finalized == 1 <==> !e.Chat? && ReachesProvider(e, o) && o.callOk && !Panics(e, o))
    && (l.released == 1 <==> Reserved(o) && (ReachesProvider(e, o) ==> !e.Chat? && !o.stream && !o.callOk))
  }

  /** The response and the audit record. */
  predicate ReplyAccounts(e: Entry, o: Outcomes, l: Ledger) {
    && (l.responses == 1 <==> !Panics(e, o)) && l.responses <= 1
    && (l.audits == 1 <==> Audited(e, o)) && l.audits <= 1
  }

  /** What an exchange must have done, effect by effect, for every outcome of the services. */
  predicate Accounts(e: Entry, o: Outcomes, l: Ledger) {
    RecordAccounts(e, o, l) && QuotaAccounts(e, o, l) && ReplyAccounts(e, o, l)
  }

  // ---------- what each part leaves in the ledger ----------

  function AfterAdmission(o: Outcomes): Ledger {
    NOTHING.(responses := 1, audits := if o.keyOk then 1 else 0)
  }

  function AfterOpening(o: Outcomes): Ledger {
    if !o.bodyOk || o.begin == BeginError then NOTHING.(responses := 1)
    else if o.begin == Replay then NOTHING.(replayed := 1, responses := 1)
    else if !o.quotaOk then NOTHING.(begun := 1, refused := 1, failed := 1, responses := 1, audits := if o.tooManyRequests then 1 else 0)
    else OPENED
  }

  function AfterDenial(audited: bool): Ledger {
    OPENED.(released := 1, failed := 1, responses := 1, audits := if audited then 1 else 0)
  }

  function AfterForward(o: Outcomes): Ledger {
    if o.callOk then OPENED.(called := 1, completed := 1, responses := 1, audits := if o.stream then 0 else 1)
    else OPENED.(called := 1, failed := 1, responses := 1, audits := if o.stream then 1 else 0)
  }

  function AfterStream(o: Outcomes): Ledger {
    if o.callOk then OPENED.(called := 1, completed := 1, finalized := 1, responses := 1, audits := 1)
    else OPENED.(called := 1, failed := 1, responses := 1, audits := 1)
  }

  /** The plain answer; `computable` says whether its token count can be computed. */
  function AfterAnswer(callOk: bool, computable: bool): Ledger {
    if !callOk then OPENED.(called := 1, released := 1, failed := 1, responses := 1)
    else if !computable then OPENED.(called := 1, completed := 1)
    else OPENED.(called := 1, completed := 1, finalized := 1, responses := 1, audits := 1)
  }

  function AfterChecks(e: Entry, o: Outcomes): Ledger {
    if e.Chat? then (if Cleared(e, o) then AfterForward(o) else AfterDenial(false))
    else if !o.inputOk then AfterDenial(false)
    else if !o.routeScopeOk || !o.targetOk then AfterDenial(true)
    else if o.stream then AfterStream(o)
    else AfterAnswer(o.callOk, e.SearchApp? || o.hasChoices)
  }

  function Final(e: Entry, o: Outcomes): Ledger {
    if !Admitted(o) then
      if e.Chat? && (!o.keyOk || !o.mayExecute) then NOTHING.(responses := 1) else AfterAdmission(o)
    else if !Reserved(o) then AfterOpening(o)
    else AfterChecks(e, o)
  }

  lemma RecordIsAccounted(e: Entry, o: Outcomes)
    ensures RecordAccounts(e, o, Final(e, o))
  {
  }

  lemma QuotaIsAccounted(e: Entry, o: Outcomes)
    ensures QuotaAccounts(e, o, Final(e, o))
  {
  }

  lemma ReplyIsAccounted(e: Entry, o: Outcomes)
    ensures ReplyAccounts(e, o, Final(e, o))
  {
  }

  lemma ProtocolIsObeyed(e: Entry, o: Outcomes)
    ensures Protocol(Final(e, o))
  {
  }

  /**
   For every outcome of the service calls, all three entry points obey the protocol and account for every
   effect; the reservation is closed by the handler unless the chat service closes it, the handler panicked, or a
   committed stream failed.
   */
  lemma EveryExchangeAccounts(e: Entry, o: Outcomes)
    ensures Protocol(Final(e, o)) && Accounts(e, o, Final(e, o))
    ensures Closed(Final(e, o)) <==>
            !(ReachesProvider(e, o) && (e.Chat? || Panics(e, o) || (o.stream && !o.callOk)))
  {
    RecordIsAccounted(e, o);
    QuotaIsAccounted(e, o);
    ReplyIsAccounted(e, o);
    ProtocolIsObeyed(e, o);
  }

  /** Key, permission, address, body, a new record and the quota: what stands before the entry point's own checks. */
  lemma OpeningIff(e: Entry, o: Outcomes)
    ensures Final(e, o).begun == 1 <==> o.keyOk && o.mayExecute && o.ipOk && o.bodyOk && o.begin == Fresh
    ensures Final(e, o).reserved == 1 <==> o.keyOk && o.mayExecute && o.ipOk && o.bodyOk && o.begin == Fresh && o.quotaOk
  {
    RecordIsAccounted(e, o);
    QuotaIsAccounted(e, o);
  }

  /** Every check of an entry point stands before its call, and nothing else does. */
  lemma CalledIff(e: Entry, o: Outcomes)
    ensures Final(e, o).called == 1 <==>
            && Final(e, o).reserved == 1
            && o.routeScopeOk
            && (e == Chat ==> o.itemScopeOk && (o.hasChatTarget ==> o.targetOk))
            && (e != Chat ==> o.inputOk && o.targetOk)
    ensures Final(e, o).responses == 0 <==> e == Agent && Final(e, o).called == 1 && !o.stream && o.callOk && !o.hasChoices
  {
    QuotaIsAccounted(e, o);
    ReplyIsAccounted(e, o);
  }

  /** One HTTP exchange, recording its effects in order. */
  class Exchange {
    var trace: Trace

    function L(): Ledger
      reads this
    {
      Tally(trace)
    }

    constructor ()
      ensures trace == [] && L() == NOTHING
    {
      trace := [];
    }

    method Do(e: Effect)
      modifies this
      ensures trace == old(trace) + [e]
      ensures L() == Add(old(L()), e)
    {
      trace := trace + [e];
      assert trace[..|trace| - 1] == old(trace);
    }

    // ----- shared steps -----

    /** Key resolution and path authorization of the Search App and Agent entry points. */
    method Admit(o: Outcomes) returns (ok: bool)
      requires L() == NOTHING
      modifies this
      ensures ok <==> Admitted(o)
      ensures L() == if ok then NOTHING else AfterAdmission(o)
    {
      if !o.keyOk {
        Do(Respond);
        return false;
      }
      if !o.ipOk {
        Do(Audit);
        Do(Respond);
        return false;
      }
      if !o.mayExecute {
        Do(Audit);
        Do(Respond);
        return false;
      }
      return true;
    }

    /** Body, idempotency record and quota: the common middle of all entry points. */
    method Open(o: Outcomes) returns (ok: bool)
      requires L() == NOTHING
      modifies this
      ensures ok <==> o.bodyOk && o.begin == Fresh && o.quotaOk
      ensures L() == AfterOpening(o)
    {
      if !o.bodyOk || o.begin == BeginError {
        Do(Respond);
        return false;
      }
      if o.begin == Replay {
        Do(Begin(false));
        Do(Respond);
        return false;
      }
      Do(Begin(true));
      if !o.quotaOk {
        QuotaFailed(o.tooManyRequests);
        return false;
      }
      Do(Reserve(true));
      return true;
    }

    /** The reservation was refused: settle the record and answer. */
    method QuotaFailed(tooManyRequests: bool)
      requires L() == NOTHING.(begun := 1)
      modifies this
      ensures L() == NOTHING.(begun := 1, refused := 1, failed := 1, responses := 1, audits := if tooManyRequests then 1 else 0)
    {
      Do(Reserve(false));
      if tooManyRequests {
        Do(Audit);
      }
      Do(Fail);
      Do(Respond);
    }

    /** A check after the reservation failed: return it, settle the record, answer. */
    method Deny(audited: bool)
      requires L() == OPENED
      modifies this
      ensures L() == AfterDenial(audited)
    {
      Do(Release);
      Do(Fail);
      if audited {
        Do(Audit);
      }
      Do(Respond);
    }

    // ----- entry points -----

    /** Chat: the handler settles the record; closing the reservation after the call is the service's part. */
    method GatewayChat(o: Outcomes)
      requires L() == NOTHING
      modifies this
      ensures L() == Final(Chat, o)
      ensures Protocol(L()) && Accounts(Chat, o, L())
      ensures L().called == 0 ==> Closed(L())
    {
      ServeChat(o);
      EveryExchangeAccounts(Chat, o);
    }

    method ServeChat(o: Outcomes)
      requires L() == NOTHING
      modifies this
      ensures L() == Final(Chat, o)
    {
      if !o.keyOk || !o.mayExecute {
        Do(Respond);
        return;
      }
      if !o.ipOk {
        Do(Audit);
        Do(Respond);
        return;
      }
      var open := Open(o);
      if open {
        ChatChecks(o);
      }
    }

    /** The scope checks of the two chat paths and the forwarding behind them. */
    method ChatChecks(o: Outcomes)
      requires L() == OPENED
      modifies this
      ensures L() == AfterChecks(Chat, o)
    {
      if o.hasChatTarget {
        if !o.routeScopeOk || !o.itemScopeOk || !o.targetOk {
          Deny(false);
          return;
        }
      } else if !o.itemScopeOk || !o.routeScopeOk {
        Deny(false);
        return;
      }
      Forward(o);
    }

    /** The forwarding tail shared by the chat assistant and the model route. */
    method Forward(o: Outcomes)
      requires L() == OPENED
      modifies this
      ensures L() == AfterForward(o)
    {
      if o.stream {
        ForwardStream(o.callOk);
      } else {
        ForwardAnswer(o.callOk);
      }
    }

    method ForwardAnswer(callOk: bool)
      requires L() == OPENED
      modifies this
      ensures L() == if callOk then OPENED.(called := 1, completed := 1, responses := 1, audits := 1)
                     else OPENED.(called := 1, failed := 1, responses := 1)
    {
      Do(Call);
      if !callOk {
        Do(Fail);
        Do(Respond);
        return;
      }
      Do(Audit);
      Do(Complete);
      Do(Respond);
    }

    method ForwardStream(callOk: bool)
      requires L() == OPENED
      modifies this
      ensures L() == if callOk then OPENED.(called := 1, completed := 1, responses := 1)
                     else OPENED.(called := 1, failed := 1, responses := 1, audits := 1)
    {
      Do(OpenStream);
      Do(Call);
      if !callOk {
        Do(Audit);
        Do(Fail);
        return;
      }
      Do(Complete);
    }

    method GatewaySearchApp(o: Outcomes)
      requires L() == NOTHING
      modifies this
      ensures L() == Final(SearchApp, o)
      ensures Protocol(L()) && Accounts(SearchApp, o, L())
      ensures Closed(L()) <==> !(ReachesProvider(SearchApp, o) && o.stream && !o.callOk)
    {
      var _ := Serve(SearchApp, o);
      EveryExchangeAccounts(SearchApp, o);
    }

    /** The sequence of Search App and Agent. */
    method Serve(e: Entry, o: Outcomes) returns (panicked: bool)
      requires L() == NOTHING && !e.Chat?
      modifies this
      ensures L() == Final(e, o)
      ensures panicked <==> Panics(e, o)
    {
      panicked := false;
      var ok := Admit(o);
      if !ok {
        return;
      }
      ok := Open(o);
      if ok {
        panicked := Answer(e, o);
      }
    }

    /** The checks of Search App and Agent and the answer behind them. */
    method Answer(e: Entry, o: Outcomes) returns (panicked: bool)
      requires L() == OPENED && !e.Chat?
      modifies this
      ensures L() == AfterChecks(e, o)
      ensures panicked <==> e.Agent? && Cleared(e, o) && !o.stream && o.callOk && !o.hasChoices
    {
      panicked := false;
      if !o.inputOk {
        Deny(false);
        return;
      }
      if !o.routeScopeOk || !o.targetOk {
        Deny(true);
        return;
      }
      if o.stream {
        StreamTail(o);
        return;
      }
      panicked := AnswerTail(o.callOk, e.SearchApp? || o.hasChoices);
    }

    /** The plain tail; `computable` says whether the token count of the answer can be computed. */
    method AnswerTail(callOk: bool, computable: bool) returns (panicked: bool)
      requires L() == OPENED
      modifies this
      ensures panicked <==> callOk && !computable
      ensures L() == AfterAnswer(callOk, computable)
    {
      Do(Call);
      if !callOk {
        Do(Release);
        Do(Fail);
        Do(Respond);
        return false;
      }
      Do(Complete);
      if !computable {
        return true;
      }
      Do(Finalize);
      Do(Audit);
      Do(Respond);
      return false;
    }

    /** The streaming tail: a failure after the stream is committed leaves the reservation open. */
    method StreamTail(o: Outcomes)
      requires L() == OPENED
      modifies this
      ensures L() == AfterStream(o)
    {
      Do(OpenStream);
      Do(Call);
      if !o.callOk {
        Do(Audit);
        Do(Fail);
        return;
      }
      Do(Complete);
      Do(Finalize);
      Do(Audit);
    }

    /**
     Agent: like Search App, except that a non-streamed answer without choices makes the
     handler panic after the record is completed and before the reservation is consumed.
     */
    method GatewayAgent(o: Outcomes) returns (panicked: bool)
      requires L() == NOTHING
      modifies this
      ensures L() == Final(Agent, o)
      ensures Protocol(L()) && Accounts(Agent, o, L())
      ensures panicked <==> Panics(Agent, o)
      ensures Closed(L()) <==> !panicked && !(ReachesProvider(Agent, o) && o.stream && !o.callOk)
    {
      panicked := Serve(Agent, o);
      EveryExchangeAccounts(Agent, o);
    }
  }
}
