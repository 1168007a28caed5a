/** Exactly which pending orders can still leave pending, from any reachable
    state. */
module AcmeLeaving {
  import opened Wrappers
  import opened Acme
  import opened AcmeRuns
  import opened AcmeExact

  /** The goroutine is on its way to writing the authorization. */
  predicate WillWrite(t: Thread, a: Id) {
    t.Validation? && t.authzId == a
    && (t.pc == Started || t.pc == Checked(true) || t.pc == Marked || t.pc.HasAuthz?)
  }

  ghost predicate HasWriter(s: State, a: Id) {
    exists tid :: tid in s.threads && WillWrite(s.threads[tid], a)
  }

  /** The authorization can still become valid: a goroutine can be started for
      one of its challenges, or one is on its way. */
  ghost predicate CanBeValid(s: State, a: Id) {
    !SettledAuthz(s, a) || HasWriter(s, a)
  }

  ghost predicate EveryCanBeValid(s: State, o: Id) {
    forall a :: a in s.authzs && s.authzs[a].orderId == o && s.authzs[a].status != Valid ==> CanBeValid(s, a)
  }

  ghost predicate CanLeave(s: State, o: Id) {
    EveryCanBeValid(s, o) && (AllValid(s, o) ==> SomeCanWake(s, o))
  }

  // ----- orders with a dead authorization -----

  /** An authorization that is not valid and cannot become valid keeps its
      pending order pending. */
  ghost predicate Blocked(s: State, o: Id, a: Id) {
    && o in s.orders && s.orders[o].status == Pending
    && a in s.authzs && s.authzs[a].orderId == o && s.authzs[a].status != Valid
    && SettledAuthz(s, a) && !HasWriter(s, a)
  }

  /** What is left to check of a step: the authorization, its challenges, the
      order and the threads it touches. */
  lemma BlockedAfter(s: State, t: State, o: Id, a: Id)
    requires Blocked(s, o, a)
    requires o in t.orders && t.orders[o] == s.orders[o] && a in t.authzs && t.authzs[a] == s.authzs[a]
    requires forall c :: c in t.challenges && t.challenges[c].authzId == a ==>
               c in s.challenges && s.challenges[c].authzId == a
    requires forall c :: Settled(s, c) ==> Settled(t, c)
    requires forall tid :: tid in t.threads && !(tid in s.threads && t.threads[tid] == s.threads[tid])
               ==> !WillWrite(t.threads[tid], a)
    ensures Blocked(t, o, a)
  {
    hide Settled, WillWrite;
  }

  /** A goroutine leaves an authorization alone unless it is on its way to write
      it, and an order with another authorization that is not valid. */
  lemma AdvanceLeavesBlocked(s: State, tid: nat, stored: bool, o: Id, a: Id)
    requires tid in s.threads && s.threads[tid].Validation? && GoodThread(s, s.threads[tid])
    requires o in s.orders && a in s.authzs && s.authzs[a].orderId == o && s.authzs[a].status != Valid
    requires !WillWrite(s.threads[tid], a)
    ensures var t := Advanced(s, tid, stored);
            && o in t.orders && t.orders[o] == s.orders[o] && a in t.authzs && t.authzs[a] == s.authzs[a]
            && t.threads == s.threads[tid := t.threads[tid]] && !WillWrite(t.threads[tid], a)
  {
    hide OthersValid;
  }

  lemma AdvanceChallenges(s: State, tid: nat, stored: bool)
    requires tid in s.threads && s.threads[tid].Validation?
    ensures var t := Advanced(s, tid, stored);
            && t.challenges.Keys == s.challenges.Keys
            && (forall c :: c in s.challenges ==> t.challenges[c].authzId == s.challenges[c].authzId)
            && (forall c :: Settled(s, c) ==> Settled(t, c))
  {
    hide OthersValid;
  }

  lemma AdvanceKeepsBlocked(s: State, tid: nat, stored: bool, o: Id, a: Id)
    requires Safe(s) && Blocked(s, o, a) && tid in s.threads && s.threads[tid].Validation?
    ensures Blocked(Advanced(s, tid, stored), o, a)
  {
    hide GoodOrder, GoodAuthz, GoodThread, GoodKeys, Advanced, WillWrite, SettledAuthz, Settled;
    assert GoodThread(s, s.threads[tid]) && !WillWrite(s.threads[tid], a);
    AdvanceLeavesBlocked(s, tid, stored, o, a);
    AdvanceChallenges(s, tid, stored);
    hide Safe, Blocked;
    BlockedAfter(s, Advanced(s, tid, stored), o, a);
  }

  lemma NewOrderKeepsBlocked(s: State, e: Event, o: Id, a: Id)
    requires GoodKeys(s) && Blocked(s, o, a) && e.NewOrder? && FreshOrder(s, e)
    ensures Blocked(OrderCreated(s, e), o, a)
  {
    hide OrderCreated, Distinct, WillWrite, HasWriter, SettledAuthz;
    NewOrderRows(s, e);
    BlockedAfter(s, OrderCreated(s, e), o, a);
  }

  lemma PostKeepsBlocked(s: State, e: Event, o: Id, a: Id)
    requires Blocked(s, o, a) && (e.PostChallenge? || e.PostFinalize? || e.Check?)
    ensures Blocked(Step(s, e), o, a)
  {
    hide Covers, Advanced, FreshOrder, OrderCreated;
    var t := Step(s, e);
    assert t.orders == s.orders && t.authzs == s.authzs && t.challenges == s.challenges;
    if e.PostChallenge? && e.challengeId in s.challenges && s.challenges[e.challengeId].authzId == a {
      assert Settled(s, e.challengeId);
    }
    if e.Check? && e.tid in s.threads {
      assert !WillWrite(s.threads[e.tid], a);
    }
    hide Step;
    BlockedAfter(s, t, o, a);
  }

  lemma IssuanceKeepsBlocked(s: State, e: Event, o: Id, a: Id)
    requires Quiet(s) && Blocked(s, o, a) && (e.StoreProcessing? || e.Issue?)
    ensures Blocked(Step(s, e), o, a)
  {
    hide Step, Solo, SettledAuthz, QuietThread, HasWriter;
    IssuanceLeavesOrder(s, e, o);
    if e.StoreProcessing? {
      StoreProcessingShape(s, e.tid, e.stored);
    } else {
      IssueShape(s, e.tid, e.outcome, e.stored);
    }
    hide Quiet;
    BlockedAfter(s, Step(s, e), o, a);
  }

  lemma StepKeepsBlocked(s: State, e: Event, o: Id, a: Id)
    requires Safe(s) && Quiet(s) && Blocked(s, o, a)
    ensures Blocked(Step(s, e), o, a)
  {
    hide Safe, Quiet, Blocked, Advanced, OrderCreated, FreshOrder;
    if e.NewOrder? {
      if FreshOrder(s, e) {
        KeysAreGood(s);
        NewOrderKeepsBlocked(s, e, o, a);
      }
    } else if e.Advance? {
      if e.tid in s.threads && s.threads[e.tid].Validation? {
        AdvanceKeepsBlocked(s, e.tid, e.stored, o, a);
      }
    } else if e.StoreProcessing? || e.Issue? {
      IssuanceKeepsBlocked(s, e, o, a);
    } else {
      PostKeepsBlocked(s, e, o, a);
    }
  }

  lemma KeysAreGood(s: State)
    requires Safe(s)
    ensures GoodKeys(s)
  {
  }

  lemma {:induction false} BlockedForever(autoApprove: bool, events: seq<Event>, more: seq<Event>, o: Id, a: Id)
    requires Blocked(Run(autoApprove, events), o, a)
    ensures Blocked(Run(autoApprove, events + more), o, a)
    decreases |more|
  {
    hide Run, Blocked;
    if |more| == 0 {
      assert events + more == events;
    } else {
      var init, e := more[..|more| - 1], more[|more| - 1];
      assert events + more == (events + init) + [e];
      BlockedForever(autoApprove, events, init, o, a);
      RunIsSafe(autoApprove, events + init);
      RunIsQuiet(autoApprove, events + init);
      RunSnoc(autoApprove, events + init, e);
      StepKeepsBlocked(Run(autoApprove, events + init), e, o, a);
    }
  }

  // ----- driving an order out of pending -----

  /** t differs from s in the status of authorization a at most, as far as the
      order's authorizations and their prospects go. */
  ghost predicate Drives(s: State, t: State, a: Id) {
    && (forall o :: o in s.orders ==> o in t.orders)
    && t.authzs.Keys == s.authzs.Keys
    && (forall b :: b in s.authzs ==> t.authzs[b].orderId == s.authzs[b].orderId)
    && (forall b :: b in s.authzs && b != a ==> t.authzs[b] == s.authzs[b])
    && (forall b :: b in s.authzs && b != a && CanBeValid(s, b) ==> CanBeValid(t, b))
  }

  lemma DrivesAfter(s: State, t: State, a: Id, tid: nat)
    requires forall o :: o in s.orders ==> o in t.orders
    requires t.authzs.Keys == s.authzs.Keys
    requires forall b :: b in s.authzs ==>
               t.authzs[b].orderId == s.authzs[b].orderId && (b != a ==> t.authzs[b] == s.authzs[b])
    requires forall c :: c in s.challenges && s.challenges[c].authzId != a
               ==> c in t.challenges && t.challenges[c] == s.challenges[c]
    requires forall i :: i in s.threads && i != tid ==> i in t.threads && t.threads[i] == s.threads[i]
    requires tid in s.threads ==> forall b :: b != a ==> !WillWrite(s.threads[tid], b)
    ensures Drives(s, t, a)
  {
    hide WillWrite;
    forall b | b in s.authzs && b != a && CanBeValid(s, b)
      ensures CanBeValid(t, b)
    {
      if HasWriter(s, b) {
        var i :| i in s.threads && WillWrite(s.threads[i], b);
        assert i in t.threads && WillWrite(t.threads[i], b);
      } else {
        var c :| c in s.challenges && s.challenges[c].authzId == b && !Settled(s, c);
        assert c in t.challenges && t.challenges[c].authzId == b && !Settled(t, c);
      }
    }
  }

  lemma DrivesTransitive(s: State, t: State, u: State, a: Id)
    requires Drives(s, t, a) && Drives(t, u, a)
    ensures Drives(s, u, a)
  {
    hide CanBeValid;
  }

  lemma CheckDrives(s: State, tid: nat, a: Id)
    requires tid in s.threads && WillWrite(s.threads[tid], a) && s.threads[tid].pc == Started
    ensures var t := Step(s, Check(tid, true));
            && Drives(s, t, a) && tid in t.threads && WillWrite(t.threads[tid], a)
            && StepsLeft(t.threads[tid].pc) < StepsLeft(s.threads[tid].pc)
  {
    hide Covers, Advanced, FreshOrder, OrderCreated, Drives;
    DrivesAfter(s, Step(s, Check(tid, true)), a, tid);
  }

  lemma AdvanceDrives(s: State, tid: nat, a: Id)
    requires tid in s.threads && WillWrite(s.threads[tid], a) && s.threads[tid].pc != Started
    requires GoodThread(s, s.threads[tid])
    ensures var t := Advanced(s, tid, true);
            && Drives(s, t, a) && tid in t.threads && t.threads[tid].Validation? && t.threads[tid].authzId == a
            && (if s.threads[tid].pc.HasAuthz? then t.threads[tid].pc == WroteAuthz(s.authzs[a].orderId)
                                                    && t.authzs[a].status == Valid
                else WillWrite(t.threads[tid], a) && StepsLeft(t.threads[tid].pc) < StepsLeft(s.threads[tid].pc))
  {
    hide OthersValid, Drives, AllValid;
    DrivesAfter(s, Advanced(s, tid, true), a, tid);
  }

  /** A goroutine on its way gets its authorization valid when its check and its
      store calls succeed, and then stands ready to wake the order. */
  lemma {:induction false} DriveWriter(autoApprove: bool, events: seq<Event>, a: Id, tid: nat)
    returns (more: seq<Event>)
    requires var s := Run(autoApprove, events);
             a in s.authzs && tid in s.threads && WillWrite(s.threads[tid], a)
    ensures var s, t := Run(autoApprove, events), Run(autoApprove, events + more);
            && Drives(s, t, a) && t.authzs[a].status == Valid
            && tid in t.threads && CanWake(t, t.threads[tid], s.authzs[a].orderId)
    decreases StepsLeft(Run(autoApprove, events).threads[tid].pc)
  {
    hide Run, Step, Safe, Drives, GoodThread, Advanced;
    RunIsSafe(autoApprove, events);
    var s := Run(autoApprove, events);
    var pc := s.threads[tid].pc;
    var e := NextOf(tid, pc);
    RunSnoc(autoApprove, events, e);
    var t := Step(s, e);
    if pc == Started {
      CheckDrives(s, tid, a);
    } else {
      ThreadIsGood(s, tid);
      StepIsAdvance(s, tid);
      AdvanceDrives(s, tid, a);
    }
    DrivenAuthz(s, t, a);
    if pc.HasAuthz? {
      more := [e];
    } else {
      var rest := DriveWriter(autoApprove, events + [e], a, tid);
      more := [e] + rest;
      assert events + more == (events + [e]) + rest;
      DrivesTransitive(s, t, Run(autoApprove, events + more), a);
    }
  }

  lemma DrivenAuthz(s: State, t: State, a: Id)
    requires Drives(s, t, a) && a in s.authzs
    ensures a in t.authzs && t.authzs[a].orderId == s.authzs[a].orderId
  {
    hide CanBeValid;
  }

  lemma ThreadIsGood(s: State, tid: nat)
    requires Safe(s) && tid in s.threads
    ensures GoodThread(s, s.threads[tid])
  {
    hide GoodThread, GoodOrder, GoodAuthz, GoodKeys;
  }

  lemma StepIsAdvance(s: State, tid: nat)
    requires tid in s.threads && s.threads[tid].Validation?
    ensures Step(s, Advance(tid, true)) == Advanced(s, tid, true)
  {
    hide Advanced, FreshOrder, OrderCreated, Covers;
  }

  lemma UnusedThread(threads: map<nat, Thread>) returns (tid: nat)
    ensures tid !in threads
  {
    var keys := threads.Keys;
    tid := 0;
    while keys != {}
      invariant keys <= threads.Keys
      invariant forall i :: i in threads && i !in keys ==> i < tid
      decreases |keys|
    {
      var i :| i in keys;
      keys := keys - {i};
      if tid <= i {
        tid := i + 1;
      }
    }
  }

  /** A new goroutine for a challenge that is not settled. */
  lemma PostDrives(s: State, c: Id, tid: nat)
    requires c in s.challenges && !Settled(s, c) && tid !in s.threads
    ensures var t := Step(s, PostChallenge(c, tid));
            && Drives(s, t, s.challenges[c].authzId)
            && tid in t.threads && WillWrite(t.threads[tid], s.challenges[c].authzId)
  {
    hide Covers, Advanced, FreshOrder, OrderCreated, Drives;
    DrivesAfter(s, Step(s, PostChallenge(c, tid)), s.challenges[c].authzId, tid);
  }

  /** Every authorization that can become valid does in some continuation. */
  lemma MakeValid(autoApprove: bool, events: seq<Event>, a: Id) returns (more: seq<Event>)
    requires var s := Run(autoApprove, events);
             a in s.authzs && CanBeValid(s, a)
    ensures var s, t := Run(autoApprove, events), Run(autoApprove, events + more);
            && Drives(s, t, a) && a in t.authzs && t.authzs[a].status == Valid
            && SomeCanWake(t, s.authzs[a].orderId)
  {
    hide Run, Step, Drives, CanWake, WillWrite;
    var s := Run(autoApprove, events);
    if HasWriter(s, a) {
      var tid :| tid in s.threads && WillWrite(s.threads[tid], a);
      more := DriveWriter(autoApprove, events, a, tid);
    } else {
      var c :| c in s.challenges && s.challenges[c].authzId == a && !Settled(s, c);
      var tid := UnusedThread(s.threads);
      var e := PostChallenge(c, tid);
      RunSnoc(autoApprove, events, e);
      PostDrives(s, c, tid);
      DrivenAuthz(s, Step(s, e), a);
      var rest := DriveWriter(autoApprove, events + [e], a, tid);
      more := [e] + rest;
      assert events + more == (events + [e]) + rest;
      DrivesTransitive(s, Step(s, e), Run(autoApprove, events + more), a);
    }
    DrivenAuthz(s, Run(autoApprove, events + more), a);
  }

  ghost function NotValid(s: State, o: Id): set<Id> {
    set a | a in s.authzs && s.authzs[a].orderId == o && s.authzs[a].status != Valid
  }

  lemma FewerNotValid(s: State, t: State, o: Id, a: Id)
    requires Drives(s, t, a) && o in s.orders && EveryCanBeValid(s, o)
    requires a in NotValid(s, o) && a in t.authzs && t.authzs[a].status == Valid
    ensures o in t.orders && EveryCanBeValid(t, o) && NotValid(t, o) == NotValid(s, o) - {a}
  {
    hide CanBeValid;
  }

  /** From any state in which it can leave, an order leaves pending in some
      continuation. */
  lemma {:induction false} Leave(autoApprove: bool, events: seq<Event>, o: Id) returns (more: seq<Event>)
    requires o in Run(autoApprove, events).orders && CanLeave(Run(autoApprove, events), o)
    ensures var t := Run(autoApprove, events + more);
            o in t.orders && t.orders[o].status == Ready
    decreases NotValid(Run(autoApprove, events), o)
  {
    hide Run, Drives, CanBeValid, CanWake;
    var s := Run(autoApprove, events);
    if AllValid(s, o) {
      var tid :| tid in s.threads && CanWake(s, s.threads[tid], o);
      more := WakeUp(autoApprove, events, o, tid);
    } else {
      var a :| a in s.authzs && s.authzs[a].orderId == o && s.authzs[a].status != Valid;
      var first := MakeValid(autoApprove, events, a);
      FewerNotValid(s, Run(autoApprove, events + first), o, a);
      assert a in NotValid(s, o);
      var rest := Leave(autoApprove, events + first, o);
      more := first + rest;
      assert events + more == (events + first) + rest;
    }
  }

  /** Any reachable pending order stays pending in every continuation exactly when
      it has an authorization that is not valid and cannot become valid, or all
      are valid and no goroutine can wake it. */
  lemma LeavesPendingExactly(autoApprove: bool, events: seq<Event>, o: Id)
    requires var s := Run(autoApprove, events);
             o in s.orders && s.orders[o].status == Pending
    ensures (forall more :: var t := Run(autoApprove, events + more); o in t.orders && t.orders[o].status == Pending)
            <==> !CanLeave(Run(autoApprove, events), o)
  {
    hide Run, AllValid, SomeCanWake, CanBeValid;
    var s := Run(autoApprove, events);
    if CanLeave(s, o) {
      var more := Leave(autoApprove, events, o);
      assert Run(autoApprove, events + more).orders[o].status == Ready;
    } else if EveryCanBeValid(s, o) {
      PendingForeverExactly(autoApprove, events, o);
    } else {
      var a :| a in s.authzs && s.authzs[a].orderId == o && s.authzs[a].status != Valid && !CanBeValid(s, a);
      assert Blocked(s, o, a) by { DeadBlocks(s, o, a); }
      forall more
        ensures Blocked(Run(autoApprove, events + more), o, a)
      {
        BlockedForever(autoApprove, events, more, o, a);
      }
    }
  }

  lemma DeadBlocks(s: State, o: Id, a: Id)
    requires o in s.orders && s.orders[o].status == Pending
    requires a in s.authzs && s.authzs[a].orderId == o && s.authzs[a].status != Valid && !CanBeValid(s, a)
    ensures Blocked(s, o, a)
  {
  }

  /** One order whose only check fails. */
  function FailedCheck(o: Id, n: string, a: Id, c: Id): seq<Event> {
    [NewOrder(o, [n], [a], [c]), PostChallenge(c, 0), Check(0, false), Advance(0, true)]
  }

  lemma StepFailedCheck(o: Id, n: string, a: Id, c: Id)
    ensures var t := Validation(c, a, Started);
            && Step(OneOrder(o, n, a, c, Pending, Pending, Pending, map[], {}), PostChallenge(c, 0)) ==
               OneOrder(o, n, a, c, Pending, Pending, Pending, map[0 := t], {})
            && Step(OneOrder(o, n, a, c, Pending, Pending, Pending, map[0 := t], {}), Check(0, false)) ==
               OneOrder(o, n, a, c, Pending, Pending, Pending, map[0 := t.(pc := Checked(false))], {})
  {
    hide Covers, OthersValid, FreshOrder;
  }

  lemma StepFailedWrite(o: Id, n: string, a: Id, c: Id)
    ensures var t := Validation(c, a, Checked(false));
            Step(OneOrder(o, n, a, c, Pending, Pending, Pending, map[0 := t], {}), Advance(0, true)) ==
            OneOrder(o, n, a, c, Pending, Pending, Invalid, map[0 := t.(pc := Done)], {})
  {
    hide Covers, OthersValid, FreshOrder;
  }

  /** One failed check is enough: the challenge is settled, the authorization and
      the order are pending for ever. */
  lemma FailedCheckStaysPending(o: Id, n: string, a: Id, c: Id, more: seq<Event>)
    ensures var t := Run(false, FailedCheck(o, n, a, c) + more);
            && o in t.orders && t.orders[o].status == Pending
            && a in t.authzs && t.authzs[a].status != Valid
  {
    hide Run, Step;
    var e := FailedCheck(o, n, a, c);
    StepCreate(o, n, a, c);
    FirstStep(e[0]);
    assert e[..1] == [e[0]];
    StepFailedCheck(o, n, a, c);
    Two(e, 1, Run(false, e[..1]));
    StepFailedWrite(o, n, a, c);
    assert e[..4] == e && e[..3] + [e[3]] == e;
    RunSnoc(false, e[..3], e[3]);
    assert Blocked(Run(false, e), o, a);
    BlockedForever(false, e, more, o, a);
  }
}
