/** What holds in every interleaving of the ACME handlers and goroutines. */
module AcmeRuns {
  import opened Wrappers
  import opened Acme

  // ----- safety, told by events -----

  /** Event i passed, or auto-approved, the check of challenge c. */
  ghost predicate IsApproval(autoApprove: bool, events: seq<Event>, i: nat, c: Id)
    requires i < |events|
  {
    var s := Run(autoApprove, events[..i]);
    && events[i].Check? && events[i].tid in s.threads
    && s.threads[events[i].tid].Validation? && s.threads[events[i].tid].challengeId == c
    && s.threads[events[i].tid].pc == Started
    && (autoApprove || events[i].passed)
  }

  lemma StepKeepsConfig(s: State, e: Event)
    ensures Step(s, e).autoApprove == s.autoApprove
  {
    hide FreshOrder, Covers, OthersValid, OrderCreated, Advanced;
    if e.NewOrder? && FreshOrder(s, e) {
      ConfigOfNewOrder(s, e);
    }
    if e.Advance? && e.tid in s.threads && s.threads[e.tid].Validation? {
      ConfigOfAdvance(s, e.tid, e.stored);
    }
  }

  lemma ConfigOfNewOrder(s: State, e: Event)
    requires e.NewOrder? && FreshOrder(s, e)
    ensures OrderCreated(s, e).autoApprove == s.autoApprove
  {
  }

  lemma ConfigOfAdvance(s: State, tid: nat, stored: bool)
    requires tid in s.threads && s.threads[tid].Validation?
    ensures Advanced(s, tid, stored).autoApprove == s.autoApprove
  {
    hide OthersValid;
  }

  lemma {:induction false} AutoApproveFixed(autoApprove: bool, events: seq<Event>)
    ensures Run(autoApprove, events).autoApprove == autoApprove
  {
    hide Step;
    if |events| > 0 {
      AutoApproveFixed(autoApprove, events[..|events| - 1]);
      StepKeepsConfig(Run(autoApprove, events[..|events| - 1]), events[|events| - 1]);
    }
  }

  lemma ValidatedOfNewOrder(s: State, e: Event)
    requires e.NewOrder? && FreshOrder(s, e)
    ensures OrderCreated(s, e).validated == s.validated
  {
  }

  lemma ValidatedOfAdvance(s: State, tid: nat, stored: bool)
    requires tid in s.threads && s.threads[tid].Validation?
    ensures Advanced(s, tid, stored).validated == s.validated
  {
    hide OthersValid;
  }

  lemma NewlyValidated(s: State, e: Event, c: Id)
    requires c in Step(s, e).validated && c !in s.validated
    ensures && e.Check? && e.tid in s.threads && s.threads[e.tid].Validation? && s.threads[e.tid].challengeId == c
            && s.threads[e.tid].pc == Started && (s.autoApprove || e.passed)
  {
    hide FreshOrder, OrderCreated, Advanced, Covers;
    if e.NewOrder? && FreshOrder(s, e) {
      ValidatedOfNewOrder(s, e);
    }
    if e.Advance? && e.tid in s.threads && s.threads[e.tid].Validation? {
      ValidatedOfAdvance(s, e.tid, e.stored);
    }
  }

  lemma {:induction false} ValidatedByEvent(autoApprove: bool, events: seq<Event>, c: Id)
    requires c in Run(autoApprove, events).validated
    ensures exists i: nat :: i < |events| && IsApproval(autoApprove, events, i, c)
    decreases |events|
  {
    hide Step, IsApproval;
    var last := |events| - 1;
    var before := events[..last];
    if c in Run(autoApprove, before).validated {
      ValidatedByEvent(autoApprove, before, c);
      var i: nat :| i < |before| && IsApproval(autoApprove, before, i, c);
      ApprovalInPrefix(autoApprove, events, last, i, c);
    } else {
      AutoApproveFixed(autoApprove, before);
      NewlyValidated(Run(autoApprove, before), events[last], c);
      ApprovalNow(autoApprove, events, c);
    }
  }

  lemma ApprovalInPrefix(autoApprove: bool, events: seq<Event>, n: nat, i: nat, c: Id)
    requires i < n <= |events| && IsApproval(autoApprove, events[..n], i, c)
    ensures IsApproval(autoApprove, events, i, c)
  {
    hide Run;
    assert events[..n][..i] == events[..i];
  }

  lemma ApprovalNow(autoApprove: bool, events: seq<Event>, c: Id)
    requires |events| > 0
    requires var s, e := Run(autoApprove, events[..|events| - 1]), events[|events| - 1];
             && e.Check? && e.tid in s.threads && s.threads[e.tid].Validation? && s.threads[e.tid].challengeId == c
             && s.threads[e.tid].pc == Started && (autoApprove || e.passed)
    ensures IsApproval(autoApprove, events, |events| - 1, c)
  {
    hide Run;
  }

  /** Safety: in every interleaving an order that is ready, processing or valid
      has only valid authorizations, each of them after a check of one of its
      challenges that succeeded or was auto-approved, however many validation
      goroutines ran for it. */
  lemma AuthorizedOrdersWereValidated(autoApprove: bool, events: seq<Event>, o: Id, a: Id)
    requires var s := Run(autoApprove, events);
             && o in s.orders
             && (s.orders[o].status == Ready || s.orders[o].status == Processing || s.orders[o].status == Valid)
             && a in s.authzs && s.authzs[a].orderId == o
    ensures var s := Run(autoApprove, events);
            && s.authzs[a].status == Valid
            && exists i: nat, c ::
                 && i < |events| && c in s.challenges && s.challenges[c].authzId == a
                 && IsApproval(autoApprove, events, i, c)
  {
    hide Run, IsApproval, GoodThread;
    RunIsSafe(autoApprove, events);
    var s := Run(autoApprove, events);
    assert GoodOrder(s, o) && GoodAuthz(s, a);
    var c :| c in s.challenges && s.challenges[c].authzId == a && c in s.validated;
    ValidatedByEvent(autoApprove, events, c);
    var i: nat :| i < |events| && IsApproval(autoApprove, events, i, c);
  }

  /** Only requests with a name for every identifier of the order, up to the case
      of ASCII letters, are issued. */
  lemma IssuedOrdersHaveCoveringCsr(autoApprove: bool, events: seq<Event>, o: Id)
    requires var s := Run(autoApprove, events);
             o in s.orders && (s.orders[o].status == Processing || s.orders[o].status == Valid)
    ensures var row := Run(autoApprove, events).orders[o];
            && row.csr.Some?
            && var csr := row.csr.value;
               forall ident :: ident in row.identifiers ==>
                 exists name :: name in csr.dnsNames + (if csr.commonName == "" then [] else [csr.commonName])
                   && |name| == |ident| && forall k :: 0 <= k < |ident| ==>
                     || name[k] == ident[k]
                     || ('A' <= name[k] <= 'Z' && ident[k] as int == name[k] as int + 32)
                     || ('A' <= ident[k] <= 'Z' && name[k] as int == ident[k] as int + 32)
  {
    hide Run, AllValid, GoodThread, Covers;
    RunIsSafe(autoApprove, events);
    var row := Run(autoApprove, events).orders[o];
    assert GoodOrder(Run(autoApprove, events), o);
    CoversExactly(row.csr.value, row.identifiers);
  }

  // ----- no lost wake-up -----

  /** The goroutine will still look at the order, or was cut off on the way. */
  predicate Wakes(t: Thread, o: Id) {
    t.Validation? && (t.pc == WroteAuthz(o) || t.pc == Listed(o, true) || t.pc == Lost(o))
  }

  ghost predicate HasWaker(s: State, o: Id) {
    exists tid :: tid in s.threads && Wakes(s.threads[tid], o)
  }

  ghost predicate Awake(s: State) {
    forall o :: o in s.orders && s.orders[o].status == Pending && AllValid(s, o) ==> HasWaker(s, o)
  }

  /** Steps that write no authorization and disturb no waker. */
  lemma AwakeAfter(s: State, t: State)
    requires Awake(s) && t.authzs == s.authzs
    requires forall o :: o in t.orders && t.orders[o].status == Pending
               ==> o in s.orders && s.orders[o].status == Pending
    requires forall tid, o :: tid in s.threads && Wakes(s.threads[tid], o)
               && o in t.orders && t.orders[o].status == Pending
               ==> tid in t.threads && Wakes(t.threads[tid], o)
    ensures Awake(t)
  {
    forall o | o in t.orders && t.orders[o].status == Pending && AllValid(t, o)
      ensures HasWaker(t, o)
    {
      assert AllValid(s, o);
      var tid :| tid in s.threads && Wakes(s.threads[tid], o);
      assert Wakes(t.threads[tid], o);
    }
  }

  lemma NewOrderKeepsAwake(s: State, e: Event)
    requires Safe(s) && Awake(s) && e.NewOrder? && FreshOrder(s, e)
    ensures Awake(OrderCreated(s, e))
  {
    hide OrderCreated, Distinct, GoodThread, GoodAuthz, GoodOrder, Wakes;
    NewOrderRows(s, e);
    var t := OrderCreated(s, e);
    assert e.authzIds[0] in e.authzIds;
    assert !AllValid(t, e.orderId);
    forall o | o in t.orders && t.orders[o].status == Pending && AllValid(t, o)
      ensures HasWaker(t, o)
    {
      assert AllValid(s, o);
      var tid :| tid in s.threads && Wakes(s.threads[tid], o);
      assert Wakes(t.threads[tid], o);
    }
  }

  /** The write of an authorization leaves its own goroutine as the waker. */
  lemma AuthzWriteKeepsAwake(s: State, tid: nat)
    requires Safe(s) && Awake(s) && tid in s.threads && s.threads[tid].Validation? && s.threads[tid].pc.HasAuthz?
    ensures Awake(Advanced(s, tid, true))
  {
    hide GoodOrder, GoodAuthz, Covers, HasCoveringCsr, Earned;
    var th := s.threads[tid];
    assert GoodThread(s, th);
    var t := Advanced(s, tid, true);
    forall o | o in t.orders && t.orders[o].status == Pending && AllValid(t, o)
      ensures HasWaker(t, o)
    {
      if o == th.pc.order {
        assert Wakes(t.threads[tid], o);
      } else {
        assert AllValid(s, o) by {
          forall a | a in s.authzs && s.authzs[a].orderId == o
            ensures s.authzs[a].status == Valid
          {
            assert t.authzs[a].status == Valid;
          }
        }
        var w :| w in s.threads && Wakes(s.threads[w], o);
        assert w != tid;
        assert Wakes(t.threads[w], o);
      }
    }
  }

  /** A goroutine that lists while all are valid sees them all valid. */
  lemma ListingKeepsAwake(s: State, tid: nat, stored: bool)
    requires Awake(s) && tid in s.threads && s.threads[tid].Validation? && s.threads[tid].pc.WroteAuthz?
    ensures Awake(Advanced(s, tid, stored))
  {
    var th := s.threads[tid];
    var t := Advanced(s, tid, stored);
    forall o | o in t.orders && t.orders[o].status == Pending && AllValid(t, o)
      ensures HasWaker(t, o)
    {
      assert AllValid(s, o);
      var w :| w in s.threads && Wakes(s.threads[w], o);
      if w == tid {
        assert OthersValid(s, o, th.authzId);
      }
      assert Wakes(t.threads[w], o);
    }
  }

  lemma OrderReadyKeepsAwake(s: State, tid: nat, stored: bool)
    requires Awake(s) && tid in s.threads && s.threads[tid].Validation? && s.threads[tid].pc.Listed?
    ensures Awake(Advanced(s, tid, stored))
  {
    hide AllValid, OthersValid, Awake;
    AwakeAfter(s, Advanced(s, tid, stored));
  }

  /** The steps before the authorization write. */
  lemma EarlyStepKeepsAwake(s: State, tid: nat, stored: bool)
    requires Awake(s) && tid in s.threads && s.threads[tid].Validation?
    requires var pc := s.threads[tid].pc;
             pc.Checked? || pc.Marked? || (pc.HasAuthz? && !stored)
    ensures Awake(Advanced(s, tid, stored))
  {
    hide AllValid, OthersValid, Awake;
    AwakeAfter(s, Advanced(s, tid, stored));
  }

  lemma AdvanceKeepsAwake(s: State, tid: nat, stored: bool)
    requires Safe(s) && Awake(s) && tid in s.threads && s.threads[tid].Validation?
    ensures Awake(Advanced(s, tid, stored))
  {
    hide Safe, Awake, WithPc, OthersValid;
    match s.threads[tid].pc
    case HasAuthz(_) =>
      if stored {
        AuthzWriteKeepsAwake(s, tid);
      } else {
        EarlyStepKeepsAwake(s, tid, stored);
      }
    case WroteAuthz(_) => ListingKeepsAwake(s, tid, stored);
    case Listed(_, _) => OrderReadyKeepsAwake(s, tid, stored);
    case Checked(_) => EarlyStepKeepsAwake(s, tid, stored);
    case Marked => EarlyStepKeepsAwake(s, tid, stored);
    case _ =>
  }

  lemma PostKeepsAwake(s: State, e: Event)
    requires Awake(s) && (e.PostChallenge? || e.PostFinalize? || e.Check?)
    ensures Awake(Step(s, e))
  {
    hide Awake, AllValid, Covers, Advanced;
    AwakeAfter(s, Step(s, e));
  }

  /** A finalizing or issuing goroutine writes some status other than Pending
      to its order, or nothing, and moves on. */
  ghost predicate IssuanceStep(s: State, t: State, tid: nat) {
    && t.autoApprove == s.autoApprove && t.authzs == s.authzs && t.challenges == s.challenges
    && t.validated == s.validated
    && (forall o :: o in t.orders && t.orders[o].status == Pending ==> o in s.orders && s.orders[o].status == Pending)
    && (t == s ||
        (tid in s.threads && !s.threads[tid].Validation? &&
         exists th: Thread :: !th.Validation? && t.threads == s.threads[tid := th]))
  }

  lemma StoreProcessingShape(s: State, tid: nat, stored: bool)
    ensures IssuanceStep(s, Step(s, StoreProcessing(tid, stored)), tid)
  {
    hide Covers, Advanced;
    var t := Step(s, StoreProcessing(tid, stored));
    if tid in s.threads && s.threads[tid].Finalizing? {
      assert t.threads == s.threads[tid := t.threads[tid]];
      assert !t.threads[tid].Validation?;
    }
  }

  lemma IssueShape(s: State, tid: nat, outcome: Outcome, stored: bool)
    ensures IssuanceStep(s, Step(s, Issue(tid, outcome, stored)), tid)
  {
    hide Covers, Advanced;
    var t := Step(s, Issue(tid, outcome, stored));
    if tid in s.threads && s.threads[tid].Issuing? && t != s {
      assert t.threads == s.threads[tid := t.threads[tid]];
      assert !t.threads[tid].Validation?;
    }
  }

  lemma IssuanceKeepsAwake(s: State, t: State, tid: nat)
    requires Awake(s) && IssuanceStep(s, t, tid)
    ensures Awake(t)
  {
    hide Awake, AllValid;
    AwakeAfter(s, t);
  }

  lemma StepKeepsAwake(s: State, e: Event)
    requires Safe(s) && Awake(s)
    ensures Awake(Step(s, e))
  {
    hide Safe, Awake, Advanced, OrderCreated, FreshOrder, Covers, IssuanceStep;
    match e
    case NewOrder(_, _, _, _) =>
      if FreshOrder(s, e) {
        NewOrderKeepsAwake(s, e);
      }
    case Advance(tid, stored) =>
      if tid in s.threads && s.threads[tid].Validation? {
        AdvanceKeepsAwake(s, tid, stored);
      }
    case PostChallenge(_, _) => PostKeepsAwake(s, e);
    case PostFinalize(_, _, _) => PostKeepsAwake(s, e);
    case Check(_, _) => PostKeepsAwake(s, e);
    case StoreProcessing(tid, stored) =>
      StoreProcessingShape(s, tid, stored);
      IssuanceKeepsAwake(s, Step(s, e), tid);
    case Issue(tid, outcome, stored) =>
      IssueShape(s, tid, outcome, stored);
      IssuanceKeepsAwake(s, Step(s, e), tid);
  }

  lemma {:induction false} RunIsAwake(autoApprove: bool, events: seq<Event>)
    ensures Awake(Run(autoApprove, events))
  {
    hide Step, Safe;
    if |events| == 0 {
    } else {
      hide Awake;
      var before := events[..|events| - 1];
      RunIsSafe(autoApprove, before);
      RunIsAwake(autoApprove, before);
      StepKeepsAwake(Run(autoApprove, before), events[|events| - 1]);
    }
  }

  /** No lost wake-up: when all authorizations of an order are valid and no
      goroutine of the order is between its authorization write and its last
      step or was cut off there by a store error, the order is not pending. */
  lemma NoLostWakeup(autoApprove: bool, events: seq<Event>, o: Id)
    requires var s := Run(autoApprove, events);
             && o in s.orders && AllValid(s, o)
             && (forall tid :: tid in s.threads ==> !Wakes(s.threads[tid], o))
    ensures Run(autoApprove, events).orders[o].status != Pending
  {
    hide Run;
    RunIsAwake(autoApprove, events);
  }

  lemma ListedMakesReady(s: State, o: Id, tid: nat)
    requires o in s.orders && tid in s.threads && s.threads[tid].Validation? && s.threads[tid].pc == Listed(o, true)
    ensures var t := Step(s, Advance(tid, true));
            o in t.orders && t.orders[o].status == Ready
  {
    hide FreshOrder, OrderCreated, Covers, OthersValid;
  }

  lemma WroteThenLists(s: State, o: Id, tid: nat)
    requires o in s.orders && AllValid(s, o)
    requires tid in s.threads && s.threads[tid].Validation? && s.threads[tid].pc == WroteAuthz(o)
    ensures var t := Step(s, Advance(tid, true));
            o in t.orders && tid in t.threads && t.threads[tid].Validation? && t.threads[tid].pc == Listed(o, true)
  {
    hide FreshOrder, OrderCreated, Covers;
    assert OthersValid(s, o, s.threads[tid].authzId);
    hide OthersValid, AllValid;
  }

  /** And while it is pending, one goroutine alone makes it ready: its next two
      store calls, or the last of them. */
  lemma WakerCompletes(autoApprove: bool, events: seq<Event>, o: Id, tid: nat)
    requires var s := Run(autoApprove, events);
             && o in s.orders && AllValid(s, o)
             && tid in s.threads && Wakes(s.threads[tid], o) && !s.threads[tid].pc.Lost?
    ensures var more := if Run(autoApprove, events).threads[tid].pc.Listed? then [Advance(tid, true)]
                        else [Advance(tid, true), Advance(tid, true)];
            var t := Run(autoApprove, events + more);
            o in t.orders && t.orders[o].status == Ready
  {
    hide Run, Step, AllValid;
    var s, e := Run(autoApprove, events), Advance(tid, true);
    RunSnoc(autoApprove, events, e);
    if s.threads[tid].pc.Listed? {
      ListedMakesReady(s, o, tid);
    } else {
      WroteThenLists(s, o, tid);
      ListedMakesReady(Step(s, e), o, tid);
      RunSnoc(autoApprove, events + [e], e);
      assert events + [e] + [e] == events + [e, e];
    }
  }

  lemma RunSnoc(autoApprove: bool, events: seq<Event>, e: Event)
    ensures Run(autoApprove, events + [e]) == Step(Run(autoApprove, events), e)
  {
    hide Step;
    assert (events + [e])[..|events|] == events;
  }

  // ----- when the challenge rows agree with the order -----

  /** The table shows a valid challenge for every valid authorization. */
  ghost predicate RowsAgree(s: State) {
    forall a :: a in s.authzs && s.authzs[a].status == Valid ==> ShownValid(s, a)
  }

  ghost predicate ShownValid(s: State, a: Id) {
    exists c :: c in s.challenges && s.challenges[c].authzId == a && s.challenges[c].status == Valid
  }

  /** With auto-approval no goroutine ever writes Invalid. */
  ghost predicate AutoThread(s: State, t: Thread) {
    t.Validation? ==>
      && t.pc != Checked(false)
      && (t.pc.Marked? || t.pc.HasAuthz? ==>
            t.challengeId in s.challenges && s.challenges[t.challengeId].status == Valid)
  }

  ghost predicate AutoGood(s: State) {
    s.autoApprove && RowsAgree(s) && forall tid :: tid in s.threads ==> AutoThread(s, s.threads[tid])
  }

  /** No challenge row leaves Valid or changes its authorization. */
  ghost predicate ValidRowsStay(s: State, t: State) {
    forall c :: c in s.challenges ==>
      && c in t.challenges && t.challenges[c].authzId == s.challenges[c].authzId
      && (s.challenges[c].status == Valid ==> t.challenges[c].status == Valid)
  }

  lemma AutoGoodAfter(s: State, t: State)
    requires AutoGood(s) && t.autoApprove && ValidRowsStay(s, t)
    requires forall a :: a in t.authzs && t.authzs[a].status == Valid && !(a in s.authzs && s.authzs[a].status == Valid)
               ==> ShownValid(t, a)
    requires forall tid :: tid in t.threads && !(tid in s.threads && t.threads[tid] == s.threads[tid])
               ==> AutoThread(t, t.threads[tid])
    ensures AutoGood(t)
  {
    forall a | a in t.authzs && t.authzs[a].status == Valid
      ensures ShownValid(t, a)
    {
      if a in s.authzs && s.authzs[a].status == Valid {
        var c :| c in s.challenges && s.challenges[c].authzId == a && s.challenges[c].status == Valid;
        assert c in t.challenges && t.challenges[c].authzId == a && t.challenges[c].status == Valid;
      }
    }
  }

  lemma ChallengeWriteKeepsAutoGood(s: State, tid: nat, stored: bool)
    requires AutoGood(s) && tid in s.threads && s.threads[tid].Validation? && s.threads[tid].pc.Checked?
    requires s.threads[tid].challengeId in s.challenges
    ensures AutoGood(Advanced(s, tid, stored))
  {
    assert AutoThread(s, s.threads[tid]);
    hide OthersValid, RowsAgree, ShownValid;
    AutoGoodAfter(s, Advanced(s, tid, stored));
  }

  lemma AuthzWriteKeepsAutoGood(s: State, tid: nat)
    requires AutoGood(s) && tid in s.threads && s.threads[tid].Validation? && s.threads[tid].pc.HasAuthz?
    requires s.threads[tid].challengeId in s.challenges
    requires s.challenges[s.threads[tid].challengeId].authzId == s.threads[tid].authzId
    ensures AutoGood(Advanced(s, tid, true))
  {
    var th, t := s.threads[tid], Advanced(s, tid, true);
    assert AutoThread(s, th);
    assert ShownValid(t, th.authzId) by {
      assert t.challenges[th.challengeId].authzId == th.authzId && t.challenges[th.challengeId].status == Valid;
    }
    hide OthersValid, RowsAgree, ShownValid;
    AutoGoodAfter(s, t);
  }

  lemma OtherAdvanceKeepsAutoGood(s: State, tid: nat, stored: bool)
    requires AutoGood(s) && tid in s.threads && s.threads[tid].Validation?
    requires !s.threads[tid].pc.Checked? && !(s.threads[tid].pc.HasAuthz? && stored)
    ensures AutoGood(Advanced(s, tid, stored))
  {
    assert AutoThread(s, s.threads[tid]);
    hide OthersValid, RowsAgree, ShownValid;
    AutoGoodAfter(s, Advanced(s, tid, stored));
  }

  lemma AdvanceKeepsAutoGood(s: State, tid: nat, stored: bool)
    requires Safe(s) && AutoGood(s) && tid in s.threads && s.threads[tid].Validation?
    ensures AutoGood(Advanced(s, tid, stored))
  {
    hide GoodOrder, GoodAuthz, GoodKeys, AllValid, AutoGood, Advanced;
    var th := s.threads[tid];
    assert GoodThread(s, th);
    if th.pc.Checked? {
      ChallengeWriteKeepsAutoGood(s, tid, stored);
    } else if th.pc.HasAuthz? && stored {
      AuthzWriteKeepsAutoGood(s, tid);
    } else {
      OtherAdvanceKeepsAutoGood(s, tid, stored);
    }
  }

  lemma PostKeepsAutoGood(s: State, e: Event)
    requires AutoGood(s) && (e.PostChallenge? || e.PostFinalize? || e.Check?)
    ensures AutoGood(Step(s, e))
  {
    hide RowsAgree, Covers, ShownValid, Advanced;
    AutoGoodAfter(s, Step(s, e));
  }

  lemma IssuanceKeepsAutoGood(s: State, t: State, tid: nat)
    requires AutoGood(s) && IssuanceStep(s, t, tid)
    ensures AutoGood(t)
  {
    hide RowsAgree, ShownValid;
    AutoGoodAfter(s, t);
  }

  lemma NewOrderKeepsAutoGood(s: State, e: Event)
    requires AutoGood(s) && e.NewOrder? && FreshOrder(s, e)
    ensures AutoGood(OrderCreated(s, e))
  {
    hide RowsAgree, ShownValid, OrderCreated, FreshOrder;
    NewOrderRows(s, e);
    ConfigOfNewOrder(s, e);
    AutoGoodAfter(s, OrderCreated(s, e));
  }

  /** With auto-approval the rows agree in every interleaving. */
  lemma {:induction false} AutoApprovedRowsAgree(events: seq<Event>)
    ensures AutoGood(Run(true, events))
  {
    hide Step, Safe;
    if |events| > 0 {
      hide AutoGood;
      var before, e := events[..|events| - 1], events[|events| - 1];
      var s := Run(true, before);
      RunIsSafe(true, before);
      AutoApprovedRowsAgree(before);
      StepKeepsAutoGood(s, e);
    }
  }

  lemma StepKeepsAutoGood(s: State, e: Event)
    requires Safe(s) && AutoGood(s)
    ensures AutoGood(Step(s, e))
  {
    hide Safe, AutoGood, Advanced, OrderCreated, FreshOrder, IssuanceStep;
    if e.NewOrder? {
      if FreshOrder(s, e) {
        NewOrderKeepsAutoGood(s, e);
      }
    } else if e.Advance? {
      if e.tid in s.threads && s.threads[e.tid].Validation? {
        AdvanceKeepsAutoGood(s, e.tid, e.stored);
      }
    } else if e.StoreProcessing? {
      StoreProcessingShape(s, e.tid, e.stored);
      IssuanceKeepsAutoGood(s, Step(s, e), e.tid);
    } else if e.Issue? {
      IssueShape(s, e.tid, e.outcome, e.stored);
      IssuanceKeepsAutoGood(s, Step(s, e), e.tid);
    } else {
      PostKeepsAutoGood(s, e);
    }
  }

  /** Two goroutines for one challenge; the one that failed writes last. */
  function LateFailure(o: Id, n: string, a: Id, c: Id): seq<Event> {
    [NewOrder(o, [n], [a], [c]), PostChallenge(c, 0), PostChallenge(c, 1), Check(0, true), Check(1, false),
     Advance(0, true), Advance(0, true), Advance(0, true), Advance(0, true), Advance(0, true), Advance(1, true)]
  }

  /** The one-order states that this run goes through. */
  ghost function OneOrder(o: Id, n: string, a: Id, c: Id, order: Status, authz: Status, challenge: Status,
                          threads: map<nat, Thread>, validated: set<Id>): State {
    State(false, map[o := OrderRow(order, [n], None)], map[a := AuthzRow(o, n, authz)],
          map[c := ChallengeRow(a, challenge)], threads, validated)
  }

  lemma CreateOne(o: Id, n: string, a: Id, c: Id)
    ensures var s, e := State(false, map[], map[], map[], map[], {}), NewOrder(o, [n], [a], [c]);
            FreshOrder(s, e) && OrderCreated(s, e) == OneOrder(o, n, a, c, Pending, Pending, Pending, map[], {})
  {
    var s, e := State(false, map[], map[], map[], map[], {}), NewOrder(o, [n], [a], [c]);
    var t := OrderCreated(s, e);
    assert t.authzs.Keys == {a} && t.challenges.Keys == {c};
    assert t.authzs[a] == AuthzRow(o, n, Pending) && t.challenges[c] == ChallengeRow(a, Pending);
    assert t.authzs == map[a := AuthzRow(o, n, Pending)];
    assert t.challenges == map[c := ChallengeRow(a, Pending)];
    assert t.orders == map[o := OrderRow(Pending, [n], None)];
  }

  lemma StepCreate(o: Id, n: string, a: Id, c: Id)
    ensures Step(State(false, map[], map[], map[], map[], {}), NewOrder(o, [n], [a], [c])) ==
            OneOrder(o, n, a, c, Pending, Pending, Pending, map[], {})
  {
    hide OrderCreated, FreshOrder, OneOrder, Covers, Advanced;
    CreateOne(o, n, a, c);
  }

  lemma StepPosts(o: Id, n: string, a: Id, c: Id)
    ensures var t := Validation(c, a, Started);
            Step(Step(OneOrder(o, n, a, c, Pending, Pending, Pending, map[], {}),
                      PostChallenge(c, 0)), PostChallenge(c, 1)) ==
            OneOrder(o, n, a, c, Pending, Pending, Pending, map[0 := t, 1 := t], {})
  {
    hide Covers, OthersValid, FreshOrder;
  }

  lemma StepChecks(o: Id, n: string, a: Id, c: Id)
    ensures var t := Validation(c, a, Started);
            Step(Step(OneOrder(o, n, a, c, Pending, Pending, Pending, map[0 := t, 1 := t], {}),
                      Check(0, true)), Check(1, false)) ==
            OneOrder(o, n, a, c, Pending, Pending, Pending,
                     map[0 := t.(pc := Checked(true)), 1 := t.(pc := Checked(false))], {c})
  {
    hide Covers, OthersValid, FreshOrder;
  }

  lemma StepMark(o: Id, n: string, a: Id, c: Id, fail: Thread)
    ensures var t := Validation(c, a, Checked(true));
            Step(OneOrder(o, n, a, c, Pending, Pending, Pending, map[0 := t, 1 := fail], {c}), Advance(0, true)) ==
            OneOrder(o, n, a, c, Pending, Pending, Valid, map[0 := t.(pc := Marked), 1 := fail], {c})
  {
    hide Covers, OthersValid, FreshOrder;
  }

  lemma StepRead(o: Id, n: string, a: Id, c: Id, row: Status, fail: Thread)
    ensures var t := Validation(c, a, Marked);
            Step(OneOrder(o, n, a, c, Pending, Pending, row, map[0 := t, 1 := fail], {c}), Advance(0, true)) ==
            OneOrder(o, n, a, c, Pending, Pending, row, map[0 := t.(pc := HasAuthz(o)), 1 := fail], {c})
  {
    hide Covers, OthersValid, FreshOrder;
  }

  lemma StepWrite(o: Id, n: string, a: Id, c: Id, row: Status, fail: Thread)
    ensures var t := Validation(c, a, HasAuthz(o));
            Step(OneOrder(o, n, a, c, Pending, Pending, row, map[0 := t, 1 := fail], {c}), Advance(0, true)) ==
            OneOrder(o, n, a, c, Pending, Valid, row, map[0 := t.(pc := WroteAuthz(o)), 1 := fail], {c})
  {
    hide Covers, OthersValid, FreshOrder;
  }

  lemma StepList(o: Id, n: string, a: Id, c: Id, row: Status, fail: Thread)
    ensures var t := Validation(c, a, WroteAuthz(o));
            Step(OneOrder(o, n, a, c, Pending, Valid, row, map[0 := t, 1 := fail], {c}), Advance(0, true)) ==
            OneOrder(o, n, a, c, Pending, Valid, row, map[0 := t.(pc := Listed(o, true)), 1 := fail], {c})
  {
    hide Covers, FreshOrder;
  }

  lemma StepReady(o: Id, n: string, a: Id, c: Id, row: Status, fail: Thread)
    ensures var t := Validation(c, a, Listed(o, true));
            Step(OneOrder(o, n, a, c, Pending, Valid, row, map[0 := t, 1 := fail], {c}), Advance(0, true)) ==
            OneOrder(o, n, a, c, Ready, Valid, row, map[0 := t.(pc := Done), 1 := fail], {c})
  {
    hide Covers, OthersValid, FreshOrder;
  }

  lemma StepFail(o: Id, n: string, a: Id, c: Id, order: Status, authz: Status, pass: Thread)
    ensures var t := Validation(c, a, Checked(false));
            Step(OneOrder(o, n, a, c, order, authz, Valid, map[0 := pass, 1 := t], {c}), Advance(1, true)) ==
            OneOrder(o, n, a, c, order, authz, Invalid, map[0 := pass, 1 := t.(pc := Done)], {c})
  {
    hide Covers, OthersValid, FreshOrder;
  }

  /** Without auto-approval they need not: a goroutine that failed its check can
      overwrite the challenge row of an order that is ready. */
  lemma LateFailureDisagrees(o: Id, n: string, a: Id, c: Id)
    ensures var s := Run(false, LateFailure(o, n, a, c));
            && o in s.orders && s.orders[o].status == Ready
            && c in s.challenges && s.challenges[c].status == Invalid && !RowsAgree(s)
  {
    hide Run, Step;
    var e := LateFailure(o, n, a, c);
    StepCreate(o, n, a, c);
    FirstStep(e[0]);
    assert e[..1] == [e[0]];
    StepPosts(o, n, a, c);
    Two(e, 1, Run(false, e[..1]));
    StepChecks(o, n, a, c);
    Two(e, 3, Run(false, e[..3]));
    var fail := Validation(c, a, Checked(false));
    StepMark(o, n, a, c, fail);
    StepRead(o, n, a, c, Valid, fail);
    Two(e, 5, Run(false, e[..5]));
    StepWrite(o, n, a, c, Valid, fail);
    StepList(o, n, a, c, Valid, fail);
    Two(e, 7, Run(false, e[..7]));
    StepReady(o, n, a, c, Valid, fail);
    StepFail(o, n, a, c, Ready, Valid, Validation(c, a, Done));
    Two(e, 9, Run(false, e[..9]));
    assert e[..11] == e;
    assert !ShownValid(Run(false, e), a);
  }

  /** The same two goroutines; the one that failed writes after the other has
      marked the challenge and before it writes the authorization. */
  function EarlyFailure(o: Id, n: string, a: Id, c: Id): seq<Event> {
    [NewOrder(o, [n], [a], [c]), PostChallenge(c, 0), PostChallenge(c, 1), Check(0, true), Check(1, false),
     Advance(0, true), Advance(1, true), Advance(0, true), Advance(0, true), Advance(0, true), Advance(0, true)]
  }

  /** The failed write need not come last: an authorization can be made valid
      when no challenge row shows it any more. */
  lemma EarlyFailureDisagrees(o: Id, n: string, a: Id, c: Id)
    ensures var s := Run(false, EarlyFailure(o, n, a, c));
            && o in s.orders && s.orders[o].status == Ready
            && c in s.challenges && s.challenges[c].status == Invalid && !RowsAgree(s)
  {
    hide Run, Step;
    var e := EarlyFailure(o, n, a, c);
    StepCreate(o, n, a, c);
    FirstStep(e[0]);
    assert e[..1] == [e[0]];
    StepPosts(o, n, a, c);
    Two(e, 1, Run(false, e[..1]));
    StepChecks(o, n, a, c);
    Two(e, 3, Run(false, e[..3]));
    var fail := Validation(c, a, Done);
    StepMark(o, n, a, c, Validation(c, a, Checked(false)));
    StepFail(o, n, a, c, Pending, Pending, Validation(c, a, Marked));
    Two(e, 5, Run(false, e[..5]));
    StepRead(o, n, a, c, Invalid, fail);
    StepWrite(o, n, a, c, Invalid, fail);
    Two(e, 7, Run(false, e[..7]));
    StepList(o, n, a, c, Invalid, fail);
    StepReady(o, n, a, c, Invalid, fail);
    Two(e, 9, Run(false, e[..9]));
    assert e[..11] == e;
    assert !ShownValid(Run(false, e), a);
  }

  /** The rows agree in all interleavings exactly when challenges are
      auto-approved. */
  lemma RowsAgreeExactly(autoApprove: bool)
    ensures (forall events :: RowsAgree(Run(autoApprove, events))) <==> autoApprove
  {
    hide Run, RowsAgree;
    if autoApprove {
      forall events
        ensures RowsAgree(Run(true, events))
      {
        AutoApprovedRowsAgree(events);
      }
    } else {
      LateFailureDisagrees("order", "name", "authz", "challenge");
    }
  }

  lemma FirstStep(e: Event)
    ensures Run(false, [e]) == Step(State(false, map[], map[], map[], map[], {}), e)
  {
    hide Step;
    RunSnoc(false, [], e);
    assert [] + [e] == [e];
  }

  lemma Two(e: seq<Event>, i: nat, s: State)
    requires i + 2 <= |e| && Run(false, e[..i]) == s
    ensures Run(false, e[..i + 2]) == Step(Step(s, e[i]), e[i + 1])
  {
    hide Step;
    assert e[..i + 1] == e[..i] + [e[i]] && e[..i + 2] == e[..i + 1] + [e[i + 1]];
    RunSnoc(false, e[..i], e[i]);
    RunSnoc(false, e[..i + 1], e[i + 1]);
  }
}
