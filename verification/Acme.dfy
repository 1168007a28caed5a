/** The ACME authorization protocol of internal/acme/handlers.go and
    internal/acme/finalize.go (sections 7.1.6 and 7.4 of RFC 8555) as atomic
    steps over the shared tables of internal/store/store.go.  Every store call
    of a request handler or goroutine is one step, so that a sequence of events
    is one interleaving. */
module Acme {
  import opened Wrappers

  type Id = string

  /** The status strings of orders, authorizations and challenges. */
  datatype Status = Pending | Ready | Processing | Valid | Invalid

  datatype OrderRow = OrderRow(status: Status, identifiers: seq<string>, csr: Option<Request>)
  datatype AuthzRow = AuthzRow(orderId: Id, identifier: string, status: Status)
  datatype ChallengeRow = ChallengeRow(authzId: Id, status: Status)

  /** Where a validateChallenge goroutine is: before the check, after it, after
      marking the challenge, after reading the authorization, after writing it,
      after listing the order's authorizations.  Lost is the end of a goroutine
      whose store call failed after it had written its authorization. */
  datatype Pc =
    | Started
    | Checked(passed: bool)
    | Marked
    | HasAuthz(order: Id)
    | WroteAuthz(order: Id)
    | Listed(order: Id, allValid: bool)
    | Done
    | Lost(order: Id)

  datatype Thread =
    | Validation(challengeId: Id, authzId: Id, pc: Pc)
    | Finalizing(orderId: Id, request: Request)
    | Issuing(orderId: Id, proxied: bool)
    | Ended

  /** `validated` records the challenges whose check succeeded or was
      auto-approved; no code reads it. */
  datatype State = State(
    autoApprove: bool,
    orders: map<Id, OrderRow>,
    authzs: map<Id, AuthzRow>,
    challenges: map<Id, ChallengeRow>,
    threads: map<nat, Thread>,
    validated: set<Id>)

  /** What became of the certificate request: an error, a serial number from the
      CA that is still waited for, or a certificate. */
  datatype Outcome = Failed | AcceptedByCA | Issued

  /** `stored` is false when the store call of the step returns an error. */
  datatype Event =
    | NewOrder(orderId: Id, identifiers: seq<string>, authzIds: seq<Id>, challengeIds: seq<Id>)
    | PostChallenge(challengeId: Id, tid: nat)
    | Check(tid: nat, passed: bool)
    | Advance(tid: nat, stored: bool)
    | PostFinalize(orderId: Id, request: Request, tid: nat)
    | StoreProcessing(tid: nat, stored: bool)
    | Issue(tid: nat, outcome: Outcome, stored: bool)

  // ----- name matching -----

  function LowerChar(c: char): char {
    if 'A' <= c <= 'Z' then (c as int + 32) as char else c
  }

  /** strings.ToLower on ASCII names. */
  function Lower(s: string): string {
    seq(|s|, i requires 0 <= i < |s| => LowerChar(s[i]))
  }

  /** Equal up to the case of ASCII letters. */
  predicate SameName(name: string, ident: string) {
    |name| == |ident| && forall k :: 0 <= k < |ident| ==>
      || name[k] == ident[k]
      || ('A' <= name[k] <= 'Z' && ident[k] as int == name[k] as int + 32)
      || ('A' <= ident[k] <= 'Z' && name[k] as int == ident[k] as int + 32)
  }

  lemma LowerCharExactly(c: char, d: char)
    ensures LowerChar(c) == LowerChar(d) <==>
            || c == d
            || ('A' <= c <= 'Z' && d as int == c as int + 32)
            || ('A' <= d <= 'Z' && c as int == d as int + 32)
  {
  }

  /** Lower-casing identifies exactly the names that differ in case only. */
  lemma LowerExactly(name: string, ident: string)
    ensures Lower(name) == Lower(ident) <==> SameName(name, ident)
  {
    hide LowerChar;
    forall c, d {
      LowerCharExactly(c, d);
    }
    if Lower(name) == Lower(ident) {
      assert |name| == |Lower(name)| == |ident|;
      forall k | 0 <= k < |ident|
        ensures LowerChar(name[k]) == LowerChar(ident[k])
      {
        assert Lower(name)[k] == Lower(ident)[k];
      }
    }
  }

  /** The names of a certificate request, as far as finalization reads them. */
  datatype Request = Request(commonName: string, dnsNames: seq<string>) {
    function Names(): seq<string> {
      dnsNames + (if commonName == "" then [] else [commonName])
    }
  }

  function LoweredNames(request: Request): set<string> {
    (set name | name in request.dnsNames :: Lower(name)) + CommonNames(request.commonName)
  }

  ghost predicate Covers(request: Request, identifiers: seq<string>) {
    forall ident :: ident in identifiers ==> Lower(ident) in LoweredNames(request)
  }

  function CommonNames(commonName: string): set<string> {
    if commonName == "" then {} else {Lower(commonName)}
  }

  lemma NamedExactly(request: Request, ident: string)
    ensures Lower(ident) in LoweredNames(request) <==> exists name :: name in request.Names() && SameName(name, ident)
  {
    hide Lower, SameName;
    var names := request.Names();
    if Lower(ident) in LoweredNames(request) {
      var name :| name in names && Lower(name) == Lower(ident);
      LowerExactly(name, ident);
    }
    if exists name :: name in names && SameName(name, ident) {
      var name :| name in names && SameName(name, ident);
      LowerExactly(name, ident);
      if name !in request.dnsNames {
        assert name == request.commonName;
      }
    }
  }

  /** The same without naming it: one identifier, and then all of them. */
  lemma NamedInLetters(request: Request, ident: string)
    ensures Lower(ident) in LoweredNames(request) <==>
            exists name :: name in request.dnsNames + (if request.commonName == "" then [] else [request.commonName])
              && |name| == |ident| && forall k :: 0 <= k < |ident| ==>
                || name[k] == ident[k]
                || ('A' <= name[k] <= 'Z' && ident[k] as int == name[k] as int + 32)
                || ('A' <= ident[k] <= 'Z' && name[k] as int == ident[k] as int + 32)
  {
    hide LoweredNames, Lower;
    NamedExactly(request, ident);
    var names := request.Names();
    if name :| name in names && SameName(name, ident) {
      assert name in request.dnsNames + (if request.commonName == "" then [] else [request.commonName]);
    }
    forall name | name in names && |name| == |ident| && forall k :: 0 <= k < |ident| ==>
      || name[k] == ident[k]
      || ('A' <= name[k] <= 'Z' && ident[k] as int == name[k] as int + 32)
      || ('A' <= ident[k] <= 'Z' && name[k] as int == ident[k] as int + 32)
      ensures SameName(name, ident)
    {
    }
  }

  lemma CoversExactly(request: Request, identifiers: seq<string>)
    ensures Covers(request, identifiers) <==>
            forall ident :: ident in identifiers ==>
              exists name :: name in request.dnsNames + (if request.commonName == "" then [] else [request.commonName])
                && |name| == |ident| && forall k :: 0 <= k < |ident| ==>
                  || name[k] == ident[k]
                  || ('A' <= name[k] <= 'Z' && ident[k] as int == name[k] as int + 32)
                  || ('A' <= ident[k] <= 'Z' && name[k] as int == ident[k] as int + 32)
  {
    hide LoweredNames, Lower;
    forall ident {
      NamedInLetters(request, ident);
    }
  }

  /** The name check of handleFinalize: csrNames is filled from the common name
      and the DNS names, then every order identifier is looked up.  It passes
      exactly when every identifier has a name in the request that is equal to it
      up to the case of ASCII letters. */
  method CsrCoversOrder(commonName: string, dnsNames: seq<string>, identifiers: seq<string>)
    returns (ok: bool, csrNames: set<string>)
    ensures csrNames == LoweredNames(Request(commonName, dnsNames))
    ensures ok <==> Covers(Request(commonName, dnsNames), identifiers)
    ensures ok <==>
            forall ident :: ident in identifiers ==>
              exists name :: name in dnsNames + (if commonName == "" then [] else [commonName])
                && |name| == |ident| && forall k :: 0 <= k < |ident| ==>
                  || name[k] == ident[k]
                  || ('A' <= name[k] <= 'Z' && ident[k] as int == name[k] as int + 32)
                  || ('A' <= ident[k] <= 'Z' && name[k] as int == ident[k] as int + 32)
  {
    hide Lower;
    ghost var request := Request(commonName, dnsNames);
    CoversExactly(request, identifiers);
    csrNames := {};
    if commonName != "" {
      csrNames := {Lower(commonName)};
    }
    for i := 0 to |dnsNames|
      invariant csrNames == (set name | name in dnsNames[..i] :: Lower(name)) + CommonNames(commonName)
    {
      assert dnsNames[..i + 1] == dnsNames[..i] + [dnsNames[i]];
      csrNames := csrNames + {Lower(dnsNames[i])};
    }
    assert dnsNames[..|dnsNames|] == dnsNames;
    assert csrNames == LoweredNames(request);
    hide LoweredNames;
    for i := 0 to |identifiers|
      invariant forall ident :: ident in identifiers[..i] ==> Lower(ident) in csrNames
    {
      assert identifiers[..i + 1] == identifiers[..i] + [identifiers[i]];
      if Lower(identifiers[i]) !in csrNames {
        assert identifiers[i] in identifiers;
        return false, csrNames;
      }
    }
    assert identifiers[..|identifiers|] == identifiers;
    ok := true;
  }

  // ----- reading the order's authorizations -----

  ghost predicate AllValid(s: State, orderId: Id) {
    forall a :: a in s.authzs && s.authzs[a].orderId == orderId ==> s.authzs[a].status == Valid
  }

  ghost predicate OthersValid(s: State, orderId: Id, own: Id) {
    forall a :: a in s.authzs && s.authzs[a].orderId == orderId && a != own ==> s.authzs[a].status == Valid
  }

  /** The rows that ListACMEAuthorizationsByOrder returns, in any order. */
  ghost predicate IsListing(rows: seq<(Id, Status)>, s: State, orderId: Id) {
    && (forall i :: 0 <= i < |rows| ==>
          rows[i].0 in s.authzs && s.authzs[rows[i].0].orderId == orderId && s.authzs[rows[i].0].status == rows[i].1)
    && (forall a :: a in s.authzs && s.authzs[a].orderId == orderId ==> (a, s.authzs[a].status) in rows)
  }

  /** The allValid loop of validateChallenge, on any listing of the rows. */
  method AllOthersValid(rows: seq<(Id, Status)>, own: Id, ghost s: State, ghost orderId: Id) returns (allValid: bool)
    requires IsListing(rows, s, orderId)
    ensures allValid <==> OthersValid(s, orderId, own)
  {
    allValid := true;
    for i := 0 to |rows|
      invariant allValid
      invariant forall j :: 0 <= j < i && rows[j].0 != own ==> rows[j].1 == Valid
    {
      if rows[i].0 == own {
        continue;
      }
      if rows[i].1 != Valid {
        allValid := false;
        return;
      }
    }
  }

  // ----- the steps -----

  predicate Distinct(ids: seq<Id>) {
    forall i, j :: 0 <= i < j < |ids| ==> ids[i] != ids[j]
  }

  /** newID gives unused keys; the primary keys refuse anything else. */
  predicate FreshOrder(s: State, e: Event)
    requires e.NewOrder?
  {
    && |e.identifiers| >= 1 && |e.authzIds| == |e.challengeIds| == |e.identifiers|
    && e.orderId !in s.orders
    && Distinct(e.authzIds) && (forall a :: a in e.authzIds ==> a !in s.authzs)
    && Distinct(e.challengeIds) && (forall c :: c in e.challengeIds ==> c !in s.challenges)
  }

  function IndexOf(ids: seq<Id>, id: Id): (i: nat)
    requires id in ids
    ensures i < |ids| && ids[i] == id
  {
    if ids[0] == id then 0 else 1 + IndexOf(ids[1..], id)
  }

  /** The loop of handleNewOrder: one authorization per identifier and one
      challenge per authorization, in step. */
  method BuildRows(orderId: Id, identifiers: seq<string>, authzIds: seq<Id>, challengeIds: seq<Id>)
    returns (authzs: seq<(Id, AuthzRow)>, challenges: seq<(Id, ChallengeRow)>)
    requires |authzIds| == |challengeIds| == |identifiers|
    ensures |authzs| == |challenges| == |identifiers|
    ensures forall i :: 0 <= i < |identifiers| ==>
              authzs[i] == (authzIds[i], AuthzRow(orderId, identifiers[i], Pending))
    ensures forall i :: 0 <= i < |identifiers| ==>
              challenges[i] == (challengeIds[i], ChallengeRow(authzs[i].0, Pending))
  {
    authzs, challenges := [], [];
    for n := 0 to |identifiers|
      invariant |authzs| == |challenges| == n
      invariant forall i :: 0 <= i < n ==> authzs[i] == (authzIds[i], AuthzRow(orderId, identifiers[i], Pending))
      invariant forall i :: 0 <= i < n ==> challenges[i] == (challengeIds[i], ChallengeRow(authzIds[i], Pending))
    {
      authzs := authzs + [(authzIds[n], AuthzRow(orderId, identifiers[n], Pending))];
      challenges := challenges + [(challengeIds[n], ChallengeRow(authzIds[n], Pending))];
    }
  }

  /** CreateACMEOrder: the order, one authorization per identifier and one
      challenge per authorization, in one transaction. */
  function OrderCreated(s: State, e: Event): State
    requires e.NewOrder? && FreshOrder(s, e)
  {
    var rows := map a | a in e.authzIds :: AuthzRow(e.orderId, e.identifiers[IndexOf(e.authzIds, a)], Pending);
    var tests := map c | c in e.challengeIds :: ChallengeRow(e.authzIds[IndexOf(e.challengeIds, c)], Pending);
    s.(orders := s.orders[e.orderId := OrderRow(Pending, e.identifiers, None)],
       authzs := s.authzs + rows,
       challenges := s.challenges + tests)
  }

  function WithPc(s: State, tid: nat, pc: Pc): State
    requires tid in s.threads && s.threads[tid].Validation?
  {
    s.(threads := s.threads[tid := s.threads[tid].(pc := pc)])
  }

  function WithThread(s: State, tid: nat, t: Thread): State {
    s.(threads := s.threads[tid := t])
  }

  /** UPDATE ... WHERE id: no row, no effect. */
  function WithOrderStatus(s: State, orderId: Id, status: Status): State {
    if orderId in s.orders then s.(orders := s.orders[orderId := s.orders[orderId].(status := status)]) else s
  }

  function WithAuthzValid(s: State, authzId: Id): State {
    if authzId in s.authzs then s.(authzs := s.authzs[authzId := s.authzs[authzId].(status := Valid)]) else s
  }

  function WithChallengeStatus(s: State, challengeId: Id, status: Status): State {
    if challengeId in s.challenges
    then s.(challenges := s.challenges[challengeId := s.challenges[challengeId].(status := status)]) else s
  }

  /** The next store call of a validation goroutine. */
  ghost function Advanced(s: State, tid: nat, stored: bool): State
    requires tid in s.threads && s.threads[tid].Validation?
  {
    var t := s.threads[tid];
    match t.pc
    case Checked(passed) =>
      var marked := if stored then WithChallengeStatus(s, t.challengeId, if passed then Valid else Invalid) else s;
      WithPc(marked, tid, if passed && stored then Marked else Done)
    case Marked =>
      if stored && t.authzId in s.authzs then WithPc(s, tid, HasAuthz(s.authzs[t.authzId].orderId))
      else WithPc(s, tid, Done)
    case HasAuthz(order) =>
      if stored then WithPc(WithAuthzValid(s, t.authzId), tid, WroteAuthz(order)) else WithPc(s, tid, Done)
    case WroteAuthz(order) =>
      WithPc(s, tid, if stored then Listed(order, OthersValid(s, order, t.authzId)) else Lost(order))
    case Listed(order, allValid) =>
      if !allValid then WithPc(s, tid, Done)
      else if stored then WithPc(WithOrderStatus(s, order, Ready), tid, Done)
      else WithPc(s, tid, Lost(order))
    case _ => s
  }

  ghost function Step(s: State, e: Event): State {
    match e
    case NewOrder(_, _, _, _) => if FreshOrder(s, e) then OrderCreated(s, e) else s
    case PostChallenge(c, tid) =>
      if c in s.challenges && s.challenges[c].status != Valid && s.challenges[c].status != Invalid && tid !in s.threads
      then WithThread(s, tid, Validation(c, s.challenges[c].authzId, Started)) else s
    case Check(tid, passed) =>
      if tid in s.threads && s.threads[tid].Validation? && s.threads[tid].pc == Started then
        var ok := s.autoApprove || passed;
        var next := WithPc(s, tid, Checked(ok));
        if ok then next.(validated := s.validated + {s.threads[tid].challengeId}) else next
      else s
    case Advance(tid, stored) =>
      if tid in s.threads && s.threads[tid].Validation? then Advanced(s, tid, stored) else s
    case PostFinalize(o, request, tid) =>
      if o in s.orders && s.orders[o].status == Ready && Covers(request, s.orders[o].identifiers) && tid !in s.threads
      then WithThread(s, tid, Finalizing(o, request)) else s
    case StoreProcessing(tid, stored) =>
      if tid in s.threads && s.threads[tid].Finalizing? then
        var o, request := s.threads[tid].orderId, s.threads[tid].request;
        if stored && o in s.orders then
          var row := s.orders[o].(status := Processing, csr := Some(request));
          WithThread(s.(orders := s.orders[o := row]), tid, Issuing(o, false))
        else WithThread(s, tid, Ended)
      else s
    case Issue(tid, outcome, stored) =>
      if tid in s.threads && s.threads[tid].Issuing? then
        var o, proxied := s.threads[tid].orderId, s.threads[tid].proxied;
        match outcome
        case Failed =>
          if proxied then s else WithThread(if stored then WithOrderStatus(s, o, Invalid) else s, tid, Ended)
        case AcceptedByCA =>
          if proxied then s
          else WithThread(if stored then WithOrderStatus(s, o, Processing) else s, tid, Issuing(o, true))
        case Issued => WithThread(if stored then WithOrderStatus(s, o, Valid) else s, tid, Ended)
      else s
  }

  ghost function Run(autoApprove: bool, events: seq<Event>): State {
    if |events| == 0 then State(autoApprove, map[], map[], map[], map[], {})
    else Step(Run(autoApprove, events[..|events| - 1]), events[|events| - 1])
  }

  // ----- safety -----

  ghost predicate Authorized(status: Status) {
    status == Ready || status == Processing || status == Valid
  }

  /** Some challenge of the authorization was validated or auto-approved. */
  ghost predicate Earned(s: State, authzId: Id) {
    exists c :: c in s.challenges && s.challenges[c].authzId == authzId && c in s.validated
  }

  ghost predicate GoodKeys(s: State) {
    && (forall a :: a in s.authzs ==> s.authzs[a].orderId in s.orders)
    && (forall c :: c in s.challenges ==> s.challenges[c].authzId in s.authzs)
  }

  ghost predicate GoodThread(s: State, t: Thread) {
    match t
    case Validation(c, a, pc) =>
      && c in s.challenges && a in s.authzs && s.challenges[c].authzId == a
      && (pc == Checked(true) || pc == Marked || pc.HasAuthz? ==> c in s.validated)
      && (pc.HasAuthz? || pc.WroteAuthz? || pc.Listed? || pc.Lost? ==> pc.order == s.authzs[a].orderId)
      && (pc.WroteAuthz? || pc.Listed? ==> s.authzs[a].status == Valid)
      && (pc.Listed? && pc.allValid ==> AllValid(s, pc.order))
    case Finalizing(o, request) => o in s.orders && AllValid(s, o) && Covers(request, s.orders[o].identifiers)
    case Issuing(o, _) => o in s.orders && AllValid(s, o) && HasCoveringCsr(s.orders[o])
    case Ended => true
  }

  ghost predicate HasCoveringCsr(row: OrderRow) {
    row.csr.Some? && Covers(row.csr.value, row.identifiers)
  }

  ghost predicate GoodOrder(s: State, o: Id)
    requires o in s.orders
  {
    && (Authorized(s.orders[o].status) ==> AllValid(s, o))
    && (s.orders[o].status == Processing || s.orders[o].status == Valid ==> HasCoveringCsr(s.orders[o]))
  }

  ghost predicate GoodAuthz(s: State, a: Id)
    requires a in s.authzs
  {
    s.authzs[a].status == Valid ==> Earned(s, a)
  }

  ghost predicate Safe(s: State) {
    && GoodKeys(s)
    && (forall o :: o in s.orders ==> GoodOrder(s, o))
    && (forall a :: a in s.authzs ==> GoodAuthz(s, a))
    && (forall tid :: tid in s.threads ==> GoodThread(s, s.threads[tid]))
  }

  /** t is a later state of the tables than s: rows stay, authorizations do not
      lose their validity, nothing is added below an order that is there, and
      certificate requests stay covering. */
  ghost predicate Later(s: State, t: State) {
    && s.validated <= t.validated
    && (forall o :: o in s.orders ==>
          && o in t.orders && t.orders[o].identifiers == s.orders[o].identifiers
          && (HasCoveringCsr(s.orders[o]) ==> HasCoveringCsr(t.orders[o])))
    && (forall a :: a in s.authzs ==>
          && a in t.authzs && t.authzs[a].orderId == s.authzs[a].orderId
          && (s.authzs[a].status == Valid ==> t.authzs[a].status == Valid))
    && (forall a :: a in t.authzs && a !in s.authzs ==> t.authzs[a].orderId !in s.orders)
    && (forall c :: c in s.challenges ==> c in t.challenges && t.challenges[c].authzId == s.challenges[c].authzId)
  }

  lemma AllValidKept(s: State, t: State, o: Id)
    requires GoodKeys(s) && Later(s, t) && o in s.orders && AllValid(s, o)
    ensures AllValid(t, o)
  {
  }

  lemma EarnedKept(s: State, t: State, a: Id)
    requires Later(s, t) && Earned(s, a)
    ensures Earned(t, a)
  {
    var c :| c in s.challenges && s.challenges[c].authzId == a && c in s.validated;
    assert c in t.challenges && t.challenges[c].authzId == a && c in t.validated;
  }

  lemma GoodThreadKept(s: State, t: State, th: Thread)
    requires GoodKeys(s) && Later(s, t) && GoodThread(s, th)
    ensures GoodThread(t, th)
  {
    hide Covers, HasCoveringCsr, AllValid;
    match th
    case Validation(c, a, pc) =>
      if pc.Listed? && pc.allValid {
        AllValidKept(s, t, pc.order);
      }
    case Finalizing(o, request) =>
      AllValidKept(s, t, o);
      CoversKept(s, t, o, request);
    case Issuing(o, _) =>
      AllValidKept(s, t, o);
    case Ended =>
  }

  lemma CoversKept(s: State, t: State, o: Id, request: Request)
    requires o in s.orders && o in t.orders && s.orders[o].identifiers == t.orders[o].identifiers
    requires Covers(request, s.orders[o].identifiers)
    ensures Covers(request, t.orders[o].identifiers)
  {
  }

  /** What is left to check of a step: the rows and threads it touches. */
  lemma SafeAfter(s: State, t: State)
    requires Safe(s) && Later(s, t) && GoodKeys(t)
    requires forall o :: o in t.orders && !(o in s.orders && t.orders[o] == s.orders[o]) ==> GoodOrder(t, o)
    requires forall a :: a in t.authzs && !(a in s.authzs && t.authzs[a] == s.authzs[a]) ==> GoodAuthz(t, a)
    requires forall tid :: tid in t.threads && !(tid in s.threads && t.threads[tid] == s.threads[tid])
               ==> GoodThread(t, t.threads[tid])
    ensures Safe(t)
  {
    hide Covers, HasCoveringCsr, AllValid, GoodThread, Earned, Later, GoodKeys;
    forall o | o in t.orders
      ensures GoodOrder(t, o)
    {
      if o in s.orders && t.orders[o] == s.orders[o] && AllValid(s, o) {
        AllValidKept(s, t, o);
      }
    }
    forall a | a in t.authzs
      ensures GoodAuthz(t, a)
    {
      if a in s.authzs && t.authzs[a] == s.authzs[a] && Earned(s, a) {
        EarnedKept(s, t, a);
      }
    }
    forall tid | tid in t.threads
      ensures GoodThread(t, t.threads[tid])
    {
      if tid in s.threads && t.threads[tid] == s.threads[tid] {
        GoodThreadKept(s, t, s.threads[tid]);
      }
    }
  }

  lemma LaterTransitive(s: State, t: State, u: State)
    requires Later(s, t) && Later(t, u)
    ensures Later(s, u)
  {
    hide HasCoveringCsr;
  }

  // One lemma per table write.

  lemma ThreadWrite(s: State, tid: nat, th: Thread)
    requires Safe(s) && GoodThread(s, th)
    ensures Safe(WithThread(s, tid, th)) && Later(s, WithThread(s, tid, th))
  {
    hide Covers, HasCoveringCsr, AllValid, Earned;
    var t := WithThread(s, tid, th);
    assert Later(s, t);
    GoodThreadKept(s, t, th);
    SafeAfter(s, t);
  }

  lemma ChallengeWrite(s: State, c: Id, status: Status)
    requires Safe(s)
    ensures Safe(WithChallengeStatus(s, c, status)) && Later(s, WithChallengeStatus(s, c, status))
  {
    hide Covers, HasCoveringCsr, AllValid, Earned, GoodThread, GoodOrder, GoodAuthz;
    SafeAfter(s, WithChallengeStatus(s, c, status));
  }

  lemma AuthzWriteLater(s: State, a: Id)
    requires GoodKeys(s)
    ensures Later(s, WithAuthzValid(s, a)) && GoodKeys(WithAuthzValid(s, a))
  {
    hide HasCoveringCsr;
  }

  lemma AuthzWrite(s: State, a: Id)
    requires Safe(s) && Earned(s, a)
    ensures Safe(WithAuthzValid(s, a)) && Later(s, WithAuthzValid(s, a))
  {
    hide Covers, HasCoveringCsr, AllValid, Earned, GoodThread, GoodOrder, Later, GoodKeys;
    var t := WithAuthzValid(s, a);
    AuthzWriteLater(s, a);
    EarnedKept(s, t, a);
    SafeAfter(s, t);
  }

  lemma OrderWrite(s: State, o: Id, row: OrderRow)
    requires Safe(s) && o in s.orders && row.identifiers == s.orders[o].identifiers
    requires Authorized(row.status) ==> AllValid(s, o)
    requires row.status == Processing || row.status == Valid || HasCoveringCsr(s.orders[o]) ==> HasCoveringCsr(row)
    ensures var t := s.(orders := s.orders[o := row]);
            Safe(t) && Later(s, t)
  {
    hide Covers, HasCoveringCsr, AllValid, Earned, GoodThread, GoodAuthz;
    var t := s.(orders := s.orders[o := row]);
    assert Later(s, t);
    if AllValid(s, o) {
      AllValidKept(s, t, o);
    }
    SafeAfter(s, t);
  }

  lemma ValidatedGrows(s: State, c: Id)
    requires Safe(s)
    ensures var t := s.(validated := s.validated + {c});
            Safe(t) && Later(s, t)
  {
    hide Covers, HasCoveringCsr, AllValid, Earned, GoodThread, GoodOrder, GoodAuthz;
    SafeAfter(s, s.(validated := s.validated + {c}));
  }

  lemma IndexOfDistinct(ids: seq<Id>, i: nat)
    requires Distinct(ids) && i < |ids|
    ensures IndexOf(ids, ids[i]) == i
  {
    var j := IndexOf(ids, ids[i]);
    assert ids[j] == ids[i];
  }

  /** A new order is pending; its i-th authorization and challenge belong to its
      i-th identifier and are pending; nothing else is new. */
  lemma NewOrderPairs(s: State, e: Event)
    requires e.NewOrder? && FreshOrder(s, e)
    ensures var t := OrderCreated(s, e);
            && t.orders == s.orders[e.orderId := OrderRow(Pending, e.identifiers, None)]
            && t.authzs.Keys == s.authzs.Keys + (set a | a in e.authzIds)
            && t.challenges.Keys == s.challenges.Keys + (set c | c in e.challengeIds)
            && forall i :: 0 <= i < |e.identifiers| ==>
                 && t.authzs[e.authzIds[i]] == AuthzRow(e.orderId, e.identifiers[i], Pending)
                 && t.challenges[e.challengeIds[i]] == ChallengeRow(e.authzIds[i], Pending)
  {
    hide IndexOf;
    forall i | 0 <= i < |e.identifiers|
      ensures IndexOf(e.authzIds, e.authzIds[i]) == i && IndexOf(e.challengeIds, e.challengeIds[i]) == i
    {
      IndexOfDistinct(e.authzIds, i);
      IndexOfDistinct(e.challengeIds, i);
    }
  }

  lemma NewOrderRows(s: State, e: Event)
    requires e.NewOrder? && FreshOrder(s, e)
    ensures var t := OrderCreated(s, e);
            && t.threads == s.threads && t.orders.Keys == s.orders.Keys + {e.orderId}
            && t.orders[e.orderId].status == Pending
            && (forall o :: o in s.orders ==> t.orders[o] == s.orders[o])
            && (forall a :: a in t.authzs <==> a in s.authzs || a in e.authzIds)
            && (forall a :: a in s.authzs ==> t.authzs[a] == s.authzs[a])
            && (forall a :: a in e.authzIds ==> t.authzs[a].status == Pending && t.authzs[a].orderId == e.orderId)
            && (forall c :: c in s.challenges ==> c in t.challenges && t.challenges[c] == s.challenges[c])
            && (forall c :: c in t.challenges && c !in s.challenges ==> t.challenges[c].authzId in e.authzIds)
            && t.validated == s.validated
  {
  }

  lemma NewOrderLater(s: State, e: Event)
    requires GoodKeys(s) && e.NewOrder? && FreshOrder(s, e)
    ensures Later(s, OrderCreated(s, e)) && GoodKeys(OrderCreated(s, e))
  {
    hide HasCoveringCsr, OrderCreated, Distinct;
    NewOrderRows(s, e);
  }

  lemma NewOrderKeepsSafe(s: State, e: Event)
    requires Safe(s) && e.NewOrder? && FreshOrder(s, e)
    ensures Safe(OrderCreated(s, e)) && Later(s, OrderCreated(s, e))
  {
    hide OrderCreated, FreshOrder, Covers, HasCoveringCsr, GoodThread, Earned, AllValid, Later, GoodKeys;
    NewOrderLater(s, e);
    NewOrderRows(s, e);
    SafeAfter(s, OrderCreated(s, e));
  }

  lemma PcWrite(s: State, tid: nat, pc: Pc)
    requires Safe(s) && tid in s.threads && s.threads[tid].Validation?
    requires GoodThread(s, s.threads[tid].(pc := pc))
    ensures Safe(WithPc(s, tid, pc)) && Later(s, WithPc(s, tid, pc))
  {
    hide Safe, Later, GoodThread;
    ThreadWrite(s, tid, s.threads[tid].(pc := pc));
  }

  /** A table write followed by the move of the thread. */
  lemma WriteThenPc(s: State, t: State, tid: nat, pc: Pc)
    requires Safe(t) && Later(s, t) && tid in t.threads && t.threads[tid].Validation?
    requires GoodThread(t, t.threads[tid].(pc := pc))
    ensures Safe(WithPc(t, tid, pc)) && Later(s, WithPc(t, tid, pc))
  {
    hide Safe, Later, GoodThread, WithPc;
    PcWrite(t, tid, pc);
    LaterTransitive(s, t, WithPc(t, tid, pc));
  }

  lemma OthersAndOwnValid(s: State, order: Id, own: Id)
    requires own in s.authzs && s.authzs[own].status == Valid && OthersValid(s, order, own)
    ensures AllValid(s, order)
  {
  }

  lemma AdvanceKeepsSafe(s: State, tid: nat, stored: bool)
    requires Safe(s) && tid in s.threads && s.threads[tid].Validation?
    ensures Safe(Advanced(s, tid, stored)) && Later(s, Advanced(s, tid, stored))
  {
    hide Covers, HasCoveringCsr, AllValid, OthersValid, Earned, Later, GoodOrder, GoodAuthz, GoodKeys;
    var th := s.threads[tid];
    assert GoodThread(s, th);
    LaterReflexive(s);
    match th.pc
    case Checked(passed) =>
      var status := if passed then Valid else Invalid;
      ChallengeWrite(s, th.challengeId, status);
      WriteThenPc(s, if stored then WithChallengeStatus(s, th.challengeId, status) else s, tid,
                  if passed && stored then Marked else Done);
    case Marked =>
      PcWrite(s, tid, if stored then HasAuthz(s.authzs[th.authzId].orderId) else Done);
    case HasAuthz(order) =>
      if stored {
        assert Earned(s, th.authzId) by { EarnedBy(s, th.challengeId); }
        AuthzWrite(s, th.authzId);
        WriteThenPc(s, WithAuthzValid(s, th.authzId), tid, WroteAuthz(order));
      } else {
        PcWrite(s, tid, Done);
      }
    case WroteAuthz(order) =>
      var allValid := OthersValid(s, order, th.authzId);
      if allValid {
        OthersAndOwnValid(s, order, th.authzId);
      }
      PcWrite(s, tid, if stored then Listed(order, allValid) else Lost(order));
    case Listed(order, allValid) =>
      if allValid && stored {
        assert order in s.orders by { OrderOfAuthz(s, th.authzId); }
        var row := s.orders[order].(status := Ready);
        if HasCoveringCsr(s.orders[order]) {
          SameCsr(s.orders[order], row);
        }
        OrderWrite(s, order, row);
        WriteThenPc(s, WithOrderStatus(s, order, Ready), tid, Done);
      } else {
        PcWrite(s, tid, if allValid then Lost(order) else Done);
      }
    case _ =>
  }

  lemma EarnedBy(s: State, c: Id)
    requires c in s.challenges && c in s.validated
    ensures Earned(s, s.challenges[c].authzId)
  {
  }

  lemma OrderOfAuthz(s: State, a: Id)
    requires GoodKeys(s) && a in s.authzs
    ensures s.authzs[a].orderId in s.orders
  {
  }

  lemma LaterReflexive(s: State)
    ensures Later(s, s)
  {
  }

  lemma CheckKeepsSafe(s: State, tid: nat, passed: bool)
    requires Safe(s)
    ensures var t := Step(s, Check(tid, passed));
            Safe(t) && Later(s, t)
  {
    hide Covers, HasCoveringCsr, AllValid, Earned, Later, GoodOrder, GoodAuthz, GoodKeys, Advanced;
    LaterReflexive(s);
    if tid in s.threads && s.threads[tid].Validation? && s.threads[tid].pc == Started {
      assert GoodThread(s, s.threads[tid]);
      var ok := s.autoApprove || passed;
      var c := s.threads[tid].challengeId;
      if ok {
        var t := s.(validated := s.validated + {c});
        ValidatedGrows(s, c);
        WriteThenPc(s, t, tid, Checked(true));
        assert Step(s, Check(tid, passed)) == WithPc(t, tid, Checked(true));
      } else {
        PcWrite(s, tid, Checked(false));
      }
    }
  }

  lemma StoreProcessingKeepsSafe(s: State, tid: nat, stored: bool)
    requires Safe(s)
    ensures var t := Step(s, StoreProcessing(tid, stored));
            Safe(t) && Later(s, t)
  {
    hide Covers, AllValid, Earned, Later, GoodOrder, GoodAuthz, GoodKeys, Advanced;
    LaterReflexive(s);
    if tid in s.threads && s.threads[tid].Finalizing? {
      var th := s.threads[tid];
      assert GoodThread(s, th);
      if stored {
        var row := s.orders[th.orderId].(status := Processing, csr := Some(th.request));
        var t := s.(orders := s.orders[th.orderId := row]);
        OrderWrite(s, th.orderId, row);
        assert AllValid(t, th.orderId) by { AllValidKeptFor(s, t, th.orderId); }
        ThreadWrite(t, tid, Issuing(th.orderId, false));
        LaterTransitive(s, t, WithThread(t, tid, Issuing(th.orderId, false)));
      } else {
        ThreadWrite(s, tid, Ended);
      }
    }
  }

  lemma AllValidKeptFor(s: State, t: State, o: Id)
    requires Safe(s) && Later(s, t) && o in s.orders && AllValid(s, o)
    ensures AllValid(t, o)
  {
    AllValidKept(s, t, o);
  }

  /** The three ways an issuing goroutine writes the order and moves on. */
  lemma IssueWrite(s: State, tid: nat, status: Status, stored: bool, th: Thread)
    requires Safe(s) && tid in s.threads && s.threads[tid].Issuing?
    requires status == Invalid || status == Processing || status == Valid
    requires th == Ended || th == Issuing(s.threads[tid].orderId, true)
    ensures var t := WithThread(if stored then WithOrderStatus(s, s.threads[tid].orderId, status) else s, tid, th);
            Safe(t) && Later(s, t)
  {
    hide Covers, HasCoveringCsr, AllValid, Earned, Later, GoodOrder, GoodAuthz, GoodKeys;
    LaterReflexive(s);
    var o := s.threads[tid].orderId;
    assert GoodThread(s, s.threads[tid]);
    var row := s.orders[o].(status := status);
    assert HasCoveringCsr(row) by { SameCsr(s.orders[o], row); }
    OrderWrite(s, o, row);
    var t := if stored then WithOrderStatus(s, o, status) else s;
    assert AllValid(t, o) by { AllValidKeptFor(s, t, o); }
    ThreadWrite(t, tid, th);
    LaterTransitive(s, t, WithThread(t, tid, th));
  }

  lemma SameCsr(row: OrderRow, row': OrderRow)
    requires HasCoveringCsr(row) && row'.csr == row.csr && row'.identifiers == row.identifiers
    ensures HasCoveringCsr(row')
  {
  }

  lemma IssueKeepsSafe(s: State, tid: nat, outcome: Outcome, stored: bool)
    requires Safe(s)
    ensures var t := Step(s, Issue(tid, outcome, stored));
            Safe(t) && Later(s, t)
  {
    hide Safe, Later, Advanced, WithThread, WithOrderStatus;
    LaterReflexive(s);
    if tid in s.threads && s.threads[tid].Issuing? {
      IssueWrite(s, tid, Invalid, stored, Ended);
      IssueWrite(s, tid, Processing, stored, Issuing(s.threads[tid].orderId, true));
      IssueWrite(s, tid, Valid, stored, Ended);
    }
  }

  lemma PostsKeepSafe(s: State, e: Event)
    requires Safe(s) && (e.PostChallenge? || e.PostFinalize?)
    ensures var t := Step(s, e);
            Safe(t) && Later(s, t)
  {
    hide Covers, HasCoveringCsr, AllValid, Earned, Later, GoodAuthz, Advanced;
    LaterReflexive(s);
    if e.PostFinalize? {
      if e.orderId in s.orders && s.orders[e.orderId].status == Ready
         && Covers(e.request, s.orders[e.orderId].identifiers) {
        assert GoodOrder(s, e.orderId);
        ThreadWrite(s, e.tid, Finalizing(e.orderId, e.request));
      }
    } else if e.challengeId in s.challenges {
      ThreadWrite(s, e.tid, Validation(e.challengeId, s.challenges[e.challengeId].authzId, Started));
    }
  }

  lemma StepKeepsSafe(s: State, e: Event)
    requires Safe(s)
    ensures Safe(Step(s, e)) && Later(s, Step(s, e))
  {
    hide Safe, Later, Advanced, OrderCreated, FreshOrder;
    LaterReflexive(s);
    match e
    case NewOrder(_, _, _, _) =>
      if FreshOrder(s, e) {
        NewOrderKeepsSafe(s, e);
      }
    case PostChallenge(_, _) => PostsKeepSafe(s, e);
    case Check(tid, passed) => CheckKeepsSafe(s, tid, passed);
    case Advance(tid, stored) =>
      if tid in s.threads && s.threads[tid].Validation? {
        AdvanceKeepsSafe(s, tid, stored);
      }
    case PostFinalize(_, _, _) => PostsKeepSafe(s, e);
    case StoreProcessing(tid, stored) => StoreProcessingKeepsSafe(s, tid, stored);
    case Issue(tid, outcome, stored) => IssueKeepsSafe(s, tid, outcome, stored);
  }

  /** Safety in all interleavings. */
  lemma {:induction false} RunIsSafe(autoApprove: bool, events: seq<Event>)
    ensures Safe(Run(autoApprove, events))
  {
    hide Step;
    if |events| == 0 {
    } else {
      hide Safe;
      RunIsSafe(autoApprove, events[..|events| - 1]);
      StepKeepsSafe(Run(autoApprove, events[..|events| - 1]), events[|events| - 1]);
    }
  }
}
