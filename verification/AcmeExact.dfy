/** Exactly when an order whose authorizations are all valid can still leave
    pending, and exactly which steps make the challenge rows disagree with the
    authorizations. */
module AcmeExact {
  import opened Wrappers
  import opened Acme
  import opened AcmeRuns

  // ----- orders that stay pending -----

  /** The goroutine belongs to the order and can still make it ready. */
  ghost predicate CanWake(s: State, t: Thread, o: Id) {
    && t.Validation? && t.authzId in s.authzs && s.authzs[t.authzId].orderId == o
    && (t.pc == Started || t.pc == Checked(true) || t.pc == Marked || t.pc.HasAuthz? || t.pc.WroteAuthz?
        || (t.pc.Listed? && t.pc.allValid))
  }

  ghost predicate SomeCanWake(s: State, o: Id) {
    exists tid :: tid in s.threads && CanWake(s, s.threads[tid], o)
  }

  /** No goroutine is started for the challenge any more. */
  ghost predicate Settled(s: State, c: Id) {
    c in s.challenges && (s.challenges[c].status == Valid || s.challenges[c].status == Invalid)
  }

  ghost predicate Solo(s: State) {
    forall c, c' :: c in s.challenges && c' in s.challenges && s.challenges[c].authzId == s.challenges[c'].authzId
      ==> c == c'
  }

  ghost predicate SettledAuthz(s: State, a: Id) {
    forall c :: c in s.challenges && s.challenges[c].authzId == a ==> Settled(s, c)
  }

  ghost predicate QuietThread(s: State, t: Thread) {
    match t
    case Validation(c, _, pc) => pc.Marked? || pc.HasAuthz? ==> Settled(s, c)
    case Finalizing(o, _) => o in s.orders && s.orders[o].status != Pending
    case Issuing(o, _) => o in s.orders && s.orders[o].status != Pending
    case Ended => true
  }

  /** An authorization has one challenge, which is settled once the authorization
      is valid, and no certificate is issued for a pending order. */
  ghost predicate Quiet(s: State) {
    && Solo(s)
    && (forall a :: a in s.authzs && s.authzs[a].status == Valid ==> SettledAuthz(s, a))
    && (forall tid :: tid in s.threads ==> QuietThread(s, s.threads[tid]))
  }

  /** Challenges stay settled and orders do not become pending again. */
  ghost predicate Onward(s: State, t: State) {
    && (forall c :: c in s.challenges ==> c in t.challenges && t.challenges[c].authzId == s.challenges[c].authzId)
    && (forall c :: Settled(s, c) ==> Settled(t, c))
    && (forall o :: o in s.orders && s.orders[o].status != Pending ==> o in t.orders && t.orders[o].status != Pending)
  }

  lemma QuietThreadKept(s: State, t: State, th: Thread)
    requires Onward(s, t) && QuietThread(s, th)
    ensures QuietThread(t, th)
  {
    hide Settled;
  }

  /** Steps that add no challenge: what is left to check. */
  lemma QuietAfter(s: State, t: State)
    requires Quiet(s) && Onward(s, t) && t.challenges.Keys == s.challenges.Keys
    requires forall a :: a in t.authzs && t.authzs[a].status == Valid && !(a in s.authzs && s.authzs[a].status == Valid)
               ==> SettledAuthz(s, a)
    requires forall tid :: tid in t.threads && !(tid in s.threads && t.threads[tid] == s.threads[tid])
               ==> QuietThread(t, t.threads[tid])
    ensures Quiet(t)
  {
    hide QuietThread, Settled;
    forall tid | tid in t.threads
      ensures QuietThread(t, t.threads[tid])
    {
      if tid in s.threads && t.threads[tid] == s.threads[tid] {
        QuietThreadKept(s, t, s.threads[tid]);
      }
    }
    forall a | a in t.authzs && t.authzs[a].status == Valid
      ensures SettledAuthz(t, a)
    {
      assert SettledAuthz(s, a);
    }
  }

  lemma ChallengeWriteKeepsQuiet(s: State, tid: nat, stored: bool)
    requires Quiet(s) && tid in s.threads && s.threads[tid].Validation? && s.threads[tid].pc.Checked?
    requires s.threads[tid].challengeId in s.challenges
    ensures Quiet(Advanced(s, tid, stored))
  {
    hide OthersValid, Quiet, SettledAuthz;
    QuietAfter(s, Advanced(s, tid, stored));
  }

  lemma AuthzWriteKeepsQuiet(s: State, tid: nat)
    requires Quiet(s) && tid in s.threads && s.threads[tid].Validation? && s.threads[tid].pc.HasAuthz?
    requires var th := s.threads[tid];
             && Settled(s, th.challengeId) && th.authzId in s.authzs
             && s.challenges[th.challengeId].authzId == th.authzId
    ensures Quiet(Advanced(s, tid, true))
  {
    hide OthersValid, QuietThread, Settled;
    var t := Advanced(s, tid, true);
    assert Onward(s, t) by { SameRows(s, t); }
    assert QuietThread(t, t.threads[tid]) by { LateThread(t, t.threads[tid]); }
    OnlyChallenge(s, s.threads[tid].challengeId);
    hide SettledAuthz, Solo;
    QuietAfter(s, t);
  }

  lemma OnlyChallenge(s: State, c: Id)
    requires Solo(s) && Settled(s, c)
    ensures SettledAuthz(s, s.challenges[c].authzId)
  {
  }

  lemma SameRows(s: State, t: State)
    requires t.orders == s.orders && t.challenges == s.challenges
    ensures Onward(s, t)
  {
  }

  lemma LateThread(s: State, th: Thread)
    requires th.Validation? && !th.pc.Marked? && !th.pc.HasAuthz?
    ensures QuietThread(s, th)
  {
  }

  lemma OtherAdvanceShape(s: State, tid: nat, stored: bool)
    requires tid in s.threads && s.threads[tid].Validation?
    requires !s.threads[tid].pc.Checked? && !(s.threads[tid].pc.HasAuthz? && stored)
    ensures var t := Advanced(s, tid, stored);
            && t.challenges == s.challenges && t.authzs == s.authzs && t.threads == s.threads[tid := t.threads[tid]]
            && (forall o :: o in s.orders ==>
                  o in t.orders && (t.orders[o] == s.orders[o] || t.orders[o].status == Ready))
  {
    hide OthersValid;
    if s.threads[tid].pc.Listed? {
      ListedShape(s, tid, stored);
    } else {
      assert Advanced(s, tid, stored).orders == s.orders;
    }
  }

  lemma ListedShape(s: State, tid: nat, stored: bool)
    requires tid in s.threads && s.threads[tid].Validation? && s.threads[tid].pc.Listed?
    ensures var t := Advanced(s, tid, stored);
            && t.challenges == s.challenges && t.authzs == s.authzs && t.threads == s.threads[tid := t.threads[tid]]
            && (t.orders == s.orders || t == WithPc(WithOrderStatus(s, s.threads[tid].pc.order, Ready), tid, Done))
  {
  }

  lemma OtherAdvancePc(s: State, tid: nat, stored: bool)
    requires tid in s.threads && s.threads[tid].Validation? && QuietThread(s, s.threads[tid])
    requires !s.threads[tid].pc.Checked? && !(s.threads[tid].pc.HasAuthz? && stored)
    ensures var th := Advanced(s, tid, stored).threads[tid];
            th.Validation? && (th.pc.Marked? || th.pc.HasAuthz? ==> Settled(s, th.challengeId))
  {
    hide OthersValid, Settled;
  }

  lemma OtherAdvanceKeepsQuiet(s: State, tid: nat, stored: bool)
    requires Quiet(s) && tid in s.threads && s.threads[tid].Validation?
    requires !s.threads[tid].pc.Checked? && !(s.threads[tid].pc.HasAuthz? && stored)
    requires QuietThread(s, s.threads[tid])
    ensures Quiet(Advanced(s, tid, stored))
  {
    hide Quiet, SettledAuthz, Advanced;
    OtherAdvanceShape(s, tid, stored);
    OtherAdvancePc(s, tid, stored);
    QuietAfter(s, Advanced(s, tid, stored));
  }

  lemma AdvanceKeepsQuiet(s: State, tid: nat, stored: bool)
    requires Safe(s) && Quiet(s) && tid in s.threads && s.threads[tid].Validation?
    ensures Quiet(Advanced(s, tid, stored))
  {
    hide GoodOrder, GoodAuthz, GoodKeys, OthersValid, AllValid, Earned, Advanced, Solo, SettledAuthz;
    var th := s.threads[tid];
    assert GoodThread(s, th) && QuietThread(s, th);
    hide Quiet, Safe;
    if th.pc.Checked? {
      ChallengeWriteKeepsQuiet(s, tid, stored);
    } else if th.pc.HasAuthz? && stored {
      AuthzWriteKeepsQuiet(s, tid);
    } else {
      OtherAdvanceKeepsQuiet(s, tid, stored);
    }
  }

  lemma NewOrderKeepsQuiet(s: State, e: Event)
    requires Safe(s) && Quiet(s) && e.NewOrder? && FreshOrder(s, e)
    ensures Quiet(OrderCreated(s, e))
  {
    hide OrderCreated, FreshOrder, Onward, QuietThread, Solo, SettledAuthz, Safe;
    var t := OrderCreated(s, e);
    NewOrderOnward(s, e);
    NewOrderSolo(s, e);
    NewOrderSettled(s, e);
    NewOrderRows(s, e);
    forall tid | tid in t.threads
      ensures QuietThread(t, t.threads[tid])
    {
      QuietThreadKept(s, t, s.threads[tid]);
    }
  }

  lemma NewOrderOnward(s: State, e: Event)
    requires e.NewOrder? && FreshOrder(s, e)
    ensures Onward(s, OrderCreated(s, e))
  {
    hide OrderCreated;
    NewOrderRows(s, e);
    assert forall o :: o in s.orders ==> o in OrderCreated(s, e).orders;
  }

  lemma NewOrderSolo(s: State, e: Event)
    requires Safe(s) && Solo(s) && e.NewOrder? && FreshOrder(s, e)
    ensures Solo(OrderCreated(s, e))
  {
    hide OrderCreated, GoodOrder, GoodAuthz, GoodThread, Distinct;
    var t := OrderCreated(s, e);
    NewOrderRows(s, e);
    NewOrderPairs(s, e);
    forall c, c' | c in t.challenges && c' in t.challenges && t.challenges[c].authzId == t.challenges[c'].authzId
      ensures c == c'
    {
      if c !in s.challenges && c' !in s.challenges {
        NewChallengesSolo(s, e, c, c');
      }
    }
  }

  lemma NewOrderSettled(s: State, e: Event)
    requires Safe(s) && e.NewOrder? && FreshOrder(s, e)
    requires forall a :: a in s.authzs && s.authzs[a].status == Valid ==> SettledAuthz(s, a)
    ensures var t := OrderCreated(s, e);
            forall a :: a in t.authzs && t.authzs[a].status == Valid ==> SettledAuthz(t, a)
  {
    hide OrderCreated, GoodOrder, GoodAuthz, GoodThread, Distinct;
    var t := OrderCreated(s, e);
    NewOrderRows(s, e);
    forall a, c | a in t.authzs && t.authzs[a].status == Valid && c in t.challenges && t.challenges[c].authzId == a
      ensures Settled(t, c)
    {
      assert SettledAuthz(s, a);
      assert c in s.challenges && Settled(s, c);
    }
  }

  lemma NewChallengesSolo(s: State, e: Event, c: Id, c': Id)
    requires e.NewOrder? && FreshOrder(s, e) && c in e.challengeIds && c' in e.challengeIds
    requires var t := OrderCreated(s, e);
             c in t.challenges && c' in t.challenges && t.challenges[c].authzId == t.challenges[c'].authzId
    ensures c == c'
  {
    hide OrderCreated;
    NewOrderPairs(s, e);
    var i :| 0 <= i < |e.challengeIds| && e.challengeIds[i] == c;
    var j :| 0 <= j < |e.challengeIds| && e.challengeIds[j] == c';
    assert e.authzIds[i] == e.authzIds[j];
  }

  lemma PostKeepsQuiet(s: State, e: Event)
    requires Quiet(s) && (e.PostChallenge? || e.PostFinalize? || e.Check?)
    ensures Quiet(Step(s, e))
  {
    hide Quiet, Covers, Advanced, Settled, SettledAuthz;
    SameRows(s, Step(s, e));
    QuietAfter(s, Step(s, e));
  }

  lemma StoreProcessingKeepsQuiet(s: State, tid: nat, stored: bool)
    requires Quiet(s)
    ensures Quiet(Step(s, StoreProcessing(tid, stored)))
  {
    hide Quiet, SettledAuthz, Step, QuietThread;
    StoreProcessingShape(s, tid, stored);
    StoreProcessingOnward(s, tid, stored);
    SameChallenges(s, Step(s, StoreProcessing(tid, stored)));
    QuietAfter(s, Step(s, StoreProcessing(tid, stored)));
  }

  lemma StoreProcessingOnward(s: State, tid: nat, stored: bool)
    ensures var t := Step(s, StoreProcessing(tid, stored));
            && t.challenges == s.challenges
            && (forall o :: o in s.orders && s.orders[o].status != Pending ==>
                  o in t.orders && t.orders[o].status != Pending)
            && (t == s || (tid in t.threads && QuietThread(t, t.threads[tid])))
  {
    hide Covers, Advanced, FreshOrder, OrderCreated, Settled;
  }

  lemma IssueOnward(s: State, tid: nat, outcome: Outcome, stored: bool)
    requires tid in s.threads ==> QuietThread(s, s.threads[tid])
    ensures var t := Step(s, Issue(tid, outcome, stored));
            && t.challenges == s.challenges
            && (forall o :: o in s.orders && s.orders[o].status != Pending ==>
                  o in t.orders && t.orders[o].status != Pending)
            && (tid in t.threads ==> tid in s.threads && QuietThread(t, t.threads[tid]))
  {
    hide Covers, Advanced, FreshOrder, OrderCreated, Settled;
    if tid in s.threads && !s.threads[tid].Issuing? {
      assert Step(s, Issue(tid, outcome, stored)) == s;
    }
  }

  lemma IssueKeepsQuiet(s: State, tid: nat, outcome: Outcome, stored: bool)
    requires Quiet(s)
    ensures Quiet(Step(s, Issue(tid, outcome, stored)))
  {
    hide Step, SettledAuthz, Solo, QuietThread, Settled;
    IssueShape(s, tid, outcome, stored);
    IssueOnward(s, tid, outcome, stored);
    SameChallenges(s, Step(s, Issue(tid, outcome, stored)));
    hide Quiet;
    QuietAfter(s, Step(s, Issue(tid, outcome, stored)));
  }

  lemma SameChallenges(s: State, t: State)
    requires t.challenges == s.challenges
    requires forall o :: o in s.orders && s.orders[o].status != Pending ==>
               o in t.orders && t.orders[o].status != Pending
    ensures Onward(s, t)
  {
  }

  lemma StepKeepsQuiet(s: State, e: Event)
    requires Safe(s) && Quiet(s)
    ensures Quiet(Step(s, e))
  {
    hide Safe, Quiet, Advanced, OrderCreated, FreshOrder;
    if e.NewOrder? {
      if FreshOrder(s, e) {
        NewOrderKeepsQuiet(s, e);
      }
    } else if e.Advance? {
      if e.tid in s.threads && s.threads[e.tid].Validation? {
        AdvanceKeepsQuiet(s, e.tid, e.stored);
      }
    } else if e.StoreProcessing? {
      StoreProcessingKeepsQuiet(s, e.tid, e.stored);
    } else if e.Issue? {
      IssueKeepsQuiet(s, e.tid, e.outcome, e.stored);
    } else {
      PostKeepsQuiet(s, e);
    }
  }

  lemma {:induction false} RunIsQuiet(autoApprove: bool, events: seq<Event>)
    ensures Quiet(Run(autoApprove, events))
  {
    hide Step, Safe;
    if |events| > 0 {
      hide Quiet;
      var before := events[..|events| - 1];
      RunIsSafe(autoApprove, before);
      RunIsQuiet(autoApprove, before);
      StepKeepsQuiet(Run(autoApprove, before), events[|events| - 1]);
    }
  }

  ghost predicate Stuck(s: State, o: Id) {
    o in s.orders && s.orders[o].status == Pending && AllValid(s, o) && !SomeCanWake(s, o)
  }

  /** A step on which the order's row and its goroutines stay as they are. */
  lemma StuckAfter(s: State, t: State, o: Id)
    requires Safe(s) && Later(s, t) && Stuck(s, o)
    requires o in t.orders && t.orders[o].status == Pending
    requires forall tid :: tid in t.threads && !(tid in s.threads && t.threads[tid] == s.threads[tid])
               ==> !CanWake(t, t.threads[tid], o)
    requires forall tid :: tid in s.threads && s.threads[tid].Validation? ==> s.threads[tid].authzId in s.authzs
    ensures Stuck(t, o)
  {
    hide GoodOrder, GoodAuthz, GoodThread;
    AllValidKept(s, t, o);
    forall tid | tid in t.threads
      ensures !CanWake(t, t.threads[tid], o)
    {
      if tid in s.threads && t.threads[tid] == s.threads[tid] {
        assert !CanWake(s, s.threads[tid], o);
      }
    }
  }

  lemma ThreadsHaveAuthz(s: State)
    requires Safe(s)
    ensures forall tid :: tid in s.threads && s.threads[tid].Validation? ==> s.threads[tid].authzId in s.authzs
  {
    hide GoodOrder, GoodAuthz, GoodKeys;
    forall tid | tid in s.threads && s.threads[tid].Validation?
      ensures s.threads[tid].authzId in s.authzs
    {
      assert GoodThread(s, s.threads[tid]);
    }
  }

  /** A goroutine that cannot wake the order does nothing to it and goes on not
      being able to. */
  lemma AdvanceLeavesOrder(s: State, tid: nat, stored: bool, o: Id)
    requires tid in s.threads && s.threads[tid].Validation? && GoodThread(s, s.threads[tid])
    requires o in s.orders && !CanWake(s, s.threads[tid], o)
    ensures var t := Advanced(s, tid, stored);
            && o in t.orders && t.orders[o] == s.orders[o]
            && t.threads == s.threads[tid := t.threads[tid]] && !CanWake(t, t.threads[tid], o)
  {
    hide OthersValid, AllValid;
  }

  lemma AdvanceKeepsStuck(s: State, tid: nat, stored: bool, o: Id)
    requires Safe(s) && Stuck(s, o) && tid in s.threads && s.threads[tid].Validation?
    ensures Stuck(Advanced(s, tid, stored), o)
  {
    hide GoodOrder, GoodAuthz, GoodThread, AllValid, Later, CanWake, Advanced;
    ThreadsHaveAuthz(s);
    AdvanceKeepsSafe(s, tid, stored);
    AdvanceLeavesOrder(s, tid, stored, o);
    StuckAfter(s, Advanced(s, tid, stored), o);
  }

  lemma StepKeepsStuck(s: State, e: Event, o: Id)
    requires Safe(s) && Quiet(s) && Stuck(s, o)
    ensures Stuck(Step(s, e), o)
  {
    if e.Advance? {
      hide Safe, Quiet, Stuck, Advanced;
      if e.tid in s.threads && s.threads[e.tid].Validation? {
        AdvanceKeepsStuck(s, e.tid, e.stored, o);
      }
    } else if e.NewOrder? {
      hide GoodThread, GoodOrder, GoodAuthz, Later, Quiet, OrderCreated, FreshOrder, AllValid, CanWake;
      if FreshOrder(s, e) {
        NewOrderKeepsSafe(s, e);
        NewOrderRows(s, e);
        ThreadsHaveAuthz(s);
        StuckOldOrder(s, e, o);
        StuckAfter(s, OrderCreated(s, e), o);
      }
    } else if e.StoreProcessing? || e.Issue? {
      IssuanceKeepsStuck(s, e, o);
    } else {
      PostKeepsStuck(s, e, o);
    }
  }

  lemma StuckOldOrder(s: State, e: Event, o: Id)
    requires e.NewOrder? && FreshOrder(s, e) && o in s.orders
    ensures o in OrderCreated(s, e).orders && OrderCreated(s, e).orders[o] == s.orders[o]
  {
    hide OrderCreated;
    NewOrderRows(s, e);
  }

  lemma PostKeepsStuck(s: State, e: Event, o: Id)
    requires Safe(s) && Quiet(s) && Stuck(s, o) && (e.PostChallenge? || e.PostFinalize? || e.Check?)
    ensures Stuck(Step(s, e), o)
  {
    hide GoodOrder, GoodAuthz, GoodThread, Later, Covers, Advanced, SomeCanWake, Solo, QuietThread;
    StepKeepsSafe(s, e);
    ThreadsHaveAuthz(s);
    if e.PostChallenge? && e.challengeId in s.challenges && s.authzs[s.challenges[e.challengeId].authzId].orderId == o {
      assert SettledAuthz(s, s.challenges[e.challengeId].authzId);
      assert Settled(s, e.challengeId);
    }
    if e.Check? && e.tid in s.threads {
      NoneCanWake(s, o, e.tid);
    }
    hide Safe, Quiet, AllValid, Settled, SettledAuthz;
    StuckAfter(s, Step(s, e), o);
  }

  lemma IssuanceLeavesOrder(s: State, e: Event, o: Id)
    requires (e.StoreProcessing? || e.Issue?) && o in s.orders && s.orders[o].status == Pending
    requires e.tid in s.threads ==> QuietThread(s, s.threads[e.tid])
    ensures o in Step(s, e).orders && Step(s, e).orders[o] == s.orders[o]
  {
    hide Covers, Advanced;
  }

  lemma IssuanceKeepsStuck(s: State, e: Event, o: Id)
    requires Safe(s) && Quiet(s) && Stuck(s, o) && (e.StoreProcessing? || e.Issue?)
    ensures Stuck(Step(s, e), o)
  {
    hide Safe, Later, SomeCanWake, Solo, SettledAuthz, AllValid, QuietThread, Step;
    StepKeepsSafe(s, e);
    ThreadsHaveAuthz(s);
    IssuanceLeavesOrder(s, e, o);
    if e.StoreProcessing? {
      StoreProcessingShape(s, e.tid, e.stored);
    } else {
      IssueShape(s, e.tid, e.outcome, e.stored);
    }
    hide Quiet;
    StuckAfter(s, Step(s, e), o);
  }

  lemma NoneCanWake(s: State, o: Id, tid: nat)
    requires !SomeCanWake(s, o) && tid in s.threads
    ensures !CanWake(s, s.threads[tid], o)
  {
  }

  lemma {:induction false} StuckForever(autoApprove: bool, events: seq<Event>, more: seq<Event>, o: Id)
    requires Stuck(Run(autoApprove, events), o)
    ensures Stuck(Run(autoApprove, events + more), o)
    decreases |more|
  {
    hide Run, Stuck;
    if |more| == 0 {
      assert events + more == events;
    } else {
      var init, e := more[..|more| - 1], more[|more| - 1];
      assert events + more == (events + init) + [e];
      StuckForever(autoApprove, events, init, o);
      RunIsSafe(autoApprove, events + init);
      RunIsQuiet(autoApprove, events + init);
      RunSnoc(autoApprove, events + init, e);
      StepKeepsStuck(Run(autoApprove, events + init), e, o);
    }
  }

  /** How many steps a goroutine is away from its last store call. */
  function StepsLeft(pc: Pc): nat {
    match pc
    case Started => 5
    case Checked(_) => 4
    case Marked => 3
    case HasAuthz(_) => 2
    case WroteAuthz(_) => 1
    case _ => 0
  }

  /** The next step of a goroutine whose check and store calls succeed. */
  function NextOf(tid: nat, pc: Pc): Event {
    if pc == Started then Check(tid, true) else Advance(tid, true)
  }

  lemma GoodStep(s: State, tid: nat, o: Id)
    requires Safe(s) && tid in s.threads && CanWake(s, s.threads[tid], o)
    requires !s.threads[tid].pc.WroteAuthz? && !s.threads[tid].pc.Listed?
    ensures var t := Step(s, NextOf(tid, s.threads[tid].pc));
            && tid in t.threads && CanWake(t, t.threads[tid], o)
            && StepsLeft(t.threads[tid].pc) < StepsLeft(s.threads[tid].pc)
  {
    hide GoodOrder, GoodAuthz, Earned, OthersValid, AllValid, Covers;
    assert GoodThread(s, s.threads[tid]);
  }

  /** One goroutine that can wake an order with valid authorizations does so when
      its check and its store calls succeed. */
  lemma {:induction false} WakeUp(autoApprove: bool, events: seq<Event>, o: Id, tid: nat) returns (more: seq<Event>)
    requires var s := Run(autoApprove, events);
             o in s.orders && AllValid(s, o) && tid in s.threads && CanWake(s, s.threads[tid], o)
    ensures var t := Run(autoApprove, events + more);
            o in t.orders && t.orders[o].status == Ready
    decreases StepsLeft(Run(autoApprove, events).threads[tid].pc)
  {
    hide Run, AllValid, Step, Safe, Later;
    RunIsSafe(autoApprove, events);
    var s := Run(autoApprove, events);
    var pc := s.threads[tid].pc;
    OwnOrder(s, tid, o);
    if pc.WroteAuthz? || pc.Listed? {
      WakerCompletes(autoApprove, events, o, tid);
      more := if pc.Listed? then [Advance(tid, true)] else [Advance(tid, true), Advance(tid, true)];
    } else {
      var e := NextOf(tid, pc);
      GoodStep(s, tid, o);
      StepKeepsSafe(s, e);
      RunSnoc(autoApprove, events, e);
      StillValid(s, Step(s, e), o);
      var rest := WakeUp(autoApprove, events + [e], o, tid);
      more := [e] + rest;
      assert events + more == (events + [e]) + rest;
    }
  }

  lemma OwnOrder(s: State, tid: nat, o: Id)
    requires Safe(s) && tid in s.threads && CanWake(s, s.threads[tid], o)
    ensures s.threads[tid].pc.WroteAuthz? || s.threads[tid].pc.Listed? ==> Wakes(s.threads[tid], o)
  {
    hide GoodOrder, GoodAuthz, GoodKeys;
    assert GoodThread(s, s.threads[tid]);
  }

  lemma StillValid(s: State, t: State, o: Id)
    requires Safe(s) && Later(s, t) && o in s.orders && AllValid(s, o)
    ensures o in t.orders && AllValid(t, o)
  {
    hide GoodThread, GoodOrder, GoodAuthz;
    AllValidKept(s, t, o);
  }

  /** A pending order whose authorizations are all valid stays pending in every
      continuation exactly when no goroutine of the order can still wake it; then
      a store error has cut one off after its authorization write. */
  lemma PendingForeverExactly(autoApprove: bool, events: seq<Event>, o: Id)
    requires var s := Run(autoApprove, events);
             o in s.orders && s.orders[o].status == Pending && AllValid(s, o)
    ensures (forall more :: var t := Run(autoApprove, events + more); o in t.orders && t.orders[o].status == Pending)
            <==> !SomeCanWake(Run(autoApprove, events), o)
    ensures var s := Run(autoApprove, events);
            !SomeCanWake(s, o) ==>
              exists tid :: tid in s.threads && s.threads[tid].Validation? && s.threads[tid].pc == Lost(o)
  {
    hide Run, AllValid;
    var s := Run(autoApprove, events);
    if SomeCanWake(s, o) {
      var tid :| tid in s.threads && CanWake(s, s.threads[tid], o);
      var more := WakeUp(autoApprove, events, o, tid);
      assert Run(autoApprove, events + more).orders[o].status == Ready;
    } else {
      forall more
        ensures Stuck(Run(autoApprove, events + more), o)
      {
        StuckForever(autoApprove, events, more, o);
      }
      RunIsAwake(autoApprove, events);
      var tid :| tid in s.threads && Wakes(s.threads[tid], o);
      RunIsSafe(autoApprove, events);
      LostIsLeft(s, tid, o);
    }
  }

  lemma LostIsLeft(s: State, tid: nat, o: Id)
    requires Safe(s) && !SomeCanWake(s, o) && tid in s.threads && Wakes(s.threads[tid], o)
    ensures s.threads[tid].pc == Lost(o)
  {
    hide GoodOrder, GoodAuthz, GoodKeys;
    assert GoodThread(s, s.threads[tid]);
    assert !CanWake(s, s.threads[tid], o);
  }

  /** One order, one goroutine that passes its check and whose listing of the
      authorizations fails, and one that failed its check. */
  function CutOff(o: Id, n: string, a: Id, c: Id): seq<Event> {
    [NewOrder(o, [n], [a], [c]), PostChallenge(c, 0), PostChallenge(c, 1), Check(0, true), Check(1, false),
     Advance(0, true), Advance(0, true), Advance(0, true), Advance(0, false)]
  }

  lemma StepCutOff(o: Id, n: string, a: Id, c: Id, fail: Thread)
    ensures var t := Validation(c, a, WroteAuthz(o));
            Step(OneOrder(o, n, a, c, Pending, Valid, Valid, map[0 := t, 1 := fail], {c}), Advance(0, false)) ==
            OneOrder(o, n, a, c, Pending, Valid, Valid, map[0 := t.(pc := Lost(o)), 1 := fail], {c})
  {
    hide Covers, OthersValid, FreshOrder;
  }

  /** The one authorization is valid and the order is pending for ever. */
  lemma CutOffStaysPending(o: Id, n: string, a: Id, c: Id, more: seq<Event>)
    ensures var s, t := Run(false, CutOff(o, n, a, c)), Run(false, CutOff(o, n, a, c) + more);
            && a in s.authzs && s.authzs[a] == AuthzRow(o, n, Valid)
            && o in t.orders && t.orders[o].status == Pending
  {
    hide Run, Step;
    var e := CutOff(o, n, a, c);
    StepCreate(o, n, a, c);
    FirstStep(e[0]);
    assert e[..1] == [e[0]];
    StepPosts(o, n, a, c);
    Two(e, 1, Run(false, e[..1]));
    StepChecks(o, n, a, c);
    Two(e, 3, Run(false, e[..3]));
    var fail := Validation(c, a, Checked(false));
    StepMark(o, n, a, c, fail);
    StepRead(o, n, a, c, Valid, fail);
    Two(e, 5, Run(false, e[..5]));
    StepWrite(o, n, a, c, Valid, fail);
    StepCutOff(o, n, a, c, fail);
    Two(e, 7, Run(false, e[..7]));
    assert e[..9] == e;
    StuckForever(false, e, more, o);
  }

  // ----- challenge rows -----

  /** A goroutine that failed its check overwrites the only row that shows a
      valid authorization as valid. */
  ghost predicate Hides(s: State, e: Event) {
    && e.Advance? && e.stored && e.tid in s.threads && s.threads[e.tid].Validation?
    && s.threads[e.tid].pc == Checked(false)
    && var c := s.threads[e.tid].challengeId;
       && c in s.challenges && s.challenges[c].status == Valid
       && s.challenges[c].authzId in s.authzs && s.authzs[s.challenges[c].authzId].status == Valid
       && forall c' :: c' in s.challenges && c' != c && s.challenges[c'].authzId == s.challenges[c].authzId
            ==> s.challenges[c'].status != Valid
  }

  /** An authorization is made valid after its row was overwritten. */
  ghost predicate MakesUnshown(s: State, e: Event) {
    && e.Advance? && e.stored && e.tid in s.threads && s.threads[e.tid].Validation?
    && s.threads[e.tid].pc.HasAuthz? && s.threads[e.tid].authzId in s.authzs
    && !ShownValid(s, s.threads[e.tid].authzId)
  }

  /** No row that is there stops showing an authorization. */
  lemma AgreeAfter(s: State, t: State)
    requires RowsAgree(s) && ValidRowsStay(s, t)
    requires forall a :: a in t.authzs && t.authzs[a].status == Valid && !(a in s.authzs && s.authzs[a].status == Valid)
               ==> ShownValid(s, a)
    ensures RowsAgree(t)
  {
    forall a | a in t.authzs && t.authzs[a].status == Valid
      ensures ShownValid(t, a)
    {
      assert ShownValid(s, a);
      var c :| c in s.challenges && s.challenges[c].authzId == a && s.challenges[c].status == Valid;
      assert c in t.challenges && t.challenges[c].authzId == a && t.challenges[c].status == Valid;
    }
  }

  lemma FailedWriteAgrees(s: State, tid: nat)
    requires RowsAgree(s) && tid in s.threads && s.threads[tid].Validation? && s.threads[tid].pc == Checked(false)
    ensures RowsAgree(Advanced(s, tid, true)) <==> !Hides(s, Advance(tid, true))
  {
    hide OthersValid;
    var t, c, e := Advanced(s, tid, true), s.threads[tid].challengeId, Advance(tid, true);
    if c in s.challenges {
      var own := s.challenges[c].authzId;
      forall a | a in t.authzs && t.authzs[a].status == Valid && !(Hides(s, e) && a == own)
        ensures ShownValid(t, a)
      {
        assert ShownValid(s, a);
        if a == own && s.challenges[c].status == Valid {
          var other :| other in s.challenges && other != c && s.challenges[other].authzId == own
                       && s.challenges[other].status == Valid;
          assert t.challenges[other] == s.challenges[other];
        } else {
          var shown :| shown in s.challenges && s.challenges[shown].authzId == a && s.challenges[shown].status == Valid;
          assert t.challenges[shown] == s.challenges[shown];
        }
      }
      if Hides(s, e) {
        assert own in t.authzs && t.authzs[own].status == Valid;
        assert !ShownValid(t, own);
      }
    }
  }

  lemma AuthzWriteAgrees(s: State, tid: nat)
    requires RowsAgree(s) && tid in s.threads && s.threads[tid].Validation? && s.threads[tid].pc.HasAuthz?
    ensures RowsAgree(Advanced(s, tid, true)) <==> !MakesUnshown(s, Advance(tid, true))
  {
    hide OthersValid;
    var t, a := Advanced(s, tid, true), s.threads[tid].authzId;
    assert t.challenges == s.challenges;
    if MakesUnshown(s, Advance(tid, true)) {
      assert a in t.authzs && t.authzs[a].status == Valid && !ShownValid(t, a);
    } else {
      AgreeAfter(s, t);
    }
  }

  lemma OtherAdvanceAgrees(s: State, tid: nat, stored: bool)
    requires RowsAgree(s) && tid in s.threads && s.threads[tid].Validation?
    requires stored ==> s.threads[tid].pc != Checked(false) && !s.threads[tid].pc.HasAuthz?
    ensures RowsAgree(Advanced(s, tid, stored))
  {
    hide RowsAgree, ShownValid, Advanced;
    if s.threads[tid].pc.Checked? {
      PassedWriteShape(s, tid, stored);
    } else {
      OtherAdvanceShape(s, tid, stored);
    }
    AgreeAfter(s, Advanced(s, tid, stored));
  }

  lemma PassedWriteShape(s: State, tid: nat, stored: bool)
    requires tid in s.threads && s.threads[tid].Validation? && s.threads[tid].pc.Checked?
    requires stored ==> s.threads[tid].pc.passed
    ensures Advanced(s, tid, stored).authzs == s.authzs && ValidRowsStay(s, Advanced(s, tid, stored))
  {
    hide OthersValid;
  }

  lemma OtherStepAgrees(s: State, e: Event)
    requires RowsAgree(s) && !e.Advance? && !e.NewOrder?
    ensures RowsAgree(Step(s, e))
  {
    hide RowsAgree, ShownValid, Step;
    if e.StoreProcessing? {
      StoreProcessingShape(s, e.tid, e.stored);
    } else if e.Issue? {
      IssueShape(s, e.tid, e.outcome, e.stored);
    } else {
      PostLeavesRows(s, e);
    }
    AgreeAfter(s, Step(s, e));
  }

  lemma PostLeavesRows(s: State, e: Event)
    requires e.PostChallenge? || e.PostFinalize? || e.Check?
    ensures Step(s, e).orders == s.orders && Step(s, e).authzs == s.authzs && Step(s, e).challenges == s.challenges
  {
    hide Covers, Advanced, FreshOrder, OrderCreated;
  }

  lemma NewOrderAgrees(s: State, e: Event)
    requires RowsAgree(s) && e.NewOrder? && FreshOrder(s, e)
    ensures RowsAgree(OrderCreated(s, e))
  {
    hide RowsAgree, ShownValid, OrderCreated, FreshOrder;
    NewOrderRows(s, e);
    AgreeAfter(s, OrderCreated(s, e));
  }

  /** From a state whose rows agree, the two steps above are the only ones that
      make them disagree. */
  lemma StepAgreesExactly(s: State, e: Event)
    requires RowsAgree(s)
    ensures RowsAgree(Step(s, e)) <==> !Hides(s, e) && !MakesUnshown(s, e)
  {
    hide RowsAgree, ShownValid, Advanced, OrderCreated, FreshOrder, Covers;
    if e.NewOrder? {
      if FreshOrder(s, e) {
        NewOrderAgrees(s, e);
      }
    } else if !e.Advance? {
      OtherStepAgrees(s, e);
    } else if e.tid in s.threads && s.threads[e.tid].Validation? {
      if e.stored && s.threads[e.tid].pc == Checked(false) {
        FailedWriteAgrees(s, e.tid);
      } else if e.stored && s.threads[e.tid].pc.HasAuthz? {
        AuthzWriteAgrees(s, e.tid);
      } else {
        OtherAdvanceAgrees(s, e.tid, e.stored);
      }
    }
  }

  /** Along one interleaving the rows agree throughout exactly when it has
      neither of those steps. */
  lemma {:induction false} RunAgreesExactly(autoApprove: bool, events: seq<Event>)
    ensures (forall i: nat :: i <= |events| ==> RowsAgree(Run(autoApprove, events[..i])))
            <==> (forall i: nat :: i < |events| ==>
                    !Hides(Run(autoApprove, events[..i]), events[i]) &&
                    !MakesUnshown(Run(autoApprove, events[..i]), events[i]))
    decreases |events|
  {
    hide Run, Step, RowsAgree, Hides, MakesUnshown;
    if |events| == 0 {
      EmptyAgrees(autoApprove);
      assert events[..0] == [];
    } else {
      var n := |events| - 1;
      var before, e := events[..n], events[n];
      RunAgreesExactly(autoApprove, before);
      assert forall i: nat :: i <= n ==> before[..i] == events[..i];
      assert before + [e] == events && events[..n + 1] == events;
      RunSnoc(autoApprove, before, e);
      if RowsAgree(Run(autoApprove, before)) {
        StepAgreesExactly(Run(autoApprove, before), e);
      }
      assert before[..n] == events[..n] == before;
    }
  }

  lemma EmptyAgrees(autoApprove: bool)
    ensures RowsAgree(Run(autoApprove, []))
  {
  }
}
