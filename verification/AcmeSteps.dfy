/** What each step of the ACME protocol writes to an order, and where the status
    of an order in a run comes from. */
module AcmeSteps {
  import opened Wrappers
  import opened Acme
  import opened AcmeRuns

  // ----- who writes which status -----

  ghost predicate MakesReady(s: State, e: Event, o: Id) {
    && e.Advance? && e.stored && e.tid in s.threads && s.threads[e.tid].Validation?
    && s.threads[e.tid].pc == Listed(o, true)
  }

  ghost predicate MakesProcessing(s: State, e: Event, o: Id) {
    || (e.StoreProcessing? && e.stored && e.tid in s.threads
        && s.threads[e.tid].Finalizing? && s.threads[e.tid].orderId == o)
    || (e.Issue? && e.outcome == AcceptedByCA && e.stored && e.tid in s.threads
        && s.threads[e.tid] == Issuing(o, false))
  }

  ghost predicate MakesInvalid(s: State, e: Event, o: Id) {
    e.Issue? && e.outcome == Failed && e.stored && e.tid in s.threads && s.threads[e.tid] == Issuing(o, false)
  }

  ghost predicate MakesValid(s: State, e: Event, o: Id) {
    && e.Issue? && e.outcome == Issued && e.stored && e.tid in s.threads
    && s.threads[e.tid].Issuing? && s.threads[e.tid].orderId == o
  }

  lemma AdvanceStatus(s: State, e: Event, o: Id)
    requires o in s.orders && e.Advance? && e.tid in s.threads && s.threads[e.tid].Validation?
    ensures var t := Advanced(s, e.tid, e.stored);
            && o in t.orders && t.orders[o].csr == s.orders[o].csr
            && t.orders[o].status == if MakesReady(s, e, o) then Ready else s.orders[o].status
  {
    hide OthersValid;
  }

  lemma StoreProcessingStatus(s: State, e: Event, o: Id)
    requires o in s.orders && e.StoreProcessing?
    ensures var t := Step(s, e);
            && o in t.orders
            && t.orders[o].status == (if MakesProcessing(s, e, o) then Processing else s.orders[o].status)
            && t.orders[o].csr == (if MakesProcessing(s, e, o) then Some(s.threads[e.tid].request) else s.orders[o].csr)
  {
    hide Covers, Advanced, FreshOrder, OrderCreated;
  }

  /** The step of an issuing goroutine, outcome by outcome. */
  lemma IssueStep(s: State, e: Event)
    requires e.Issue? && e.tid in s.threads && s.threads[e.tid].Issuing?
    ensures var o, proxied := s.threads[e.tid].orderId, s.threads[e.tid].proxied;
            && (e.outcome == Issued ==>
                  Step(s, e) == WithThread(if e.stored then WithOrderStatus(s, o, Valid) else s, e.tid, Ended))
            && (e.outcome != Issued && proxied ==> Step(s, e) == s)
            && (e.outcome == Failed && !proxied ==>
                  Step(s, e) == WithThread(if e.stored then WithOrderStatus(s, o, Invalid) else s, e.tid, Ended))
            && (e.outcome == AcceptedByCA && !proxied ==>
                  Step(s, e) ==
                  WithThread(if e.stored then WithOrderStatus(s, o, Processing) else s, e.tid, Issuing(o, true)))
  {
    hide Covers, Advanced, FreshOrder, OrderCreated, WithThread, WithOrderStatus;
  }

  lemma NoIssueStep(s: State, e: Event)
    requires e.Issue? && !(e.tid in s.threads && s.threads[e.tid].Issuing?)
    ensures Step(s, e) == s
  {
    hide Covers, Advanced, FreshOrder, OrderCreated, WithThread, WithOrderStatus;
  }

  lemma IssueStatus(s: State, e: Event, o: Id)
    requires o in s.orders && e.Issue?
    ensures var t := Step(s, e);
            && o in t.orders && t.orders[o].csr == s.orders[o].csr
            && t.orders[o].status == (if MakesValid(s, e, o) then Valid
                                      else if MakesInvalid(s, e, o) then Invalid
                                      else if MakesProcessing(s, e, o) then Processing
                                      else s.orders[o].status)
  {
    hide Step;
    if e.tid in s.threads && s.threads[e.tid].Issuing? {
      IssueStep(s, e);
    } else {
      NoIssueStep(s, e);
    }
  }

  lemma OtherStatus(s: State, e: Event, o: Id)
    requires o in s.orders && (e.PostChallenge? || e.PostFinalize? || e.Check?)
    ensures Step(s, e).orders == s.orders
  {
    hide Covers, Advanced, FreshOrder, OrderCreated;
  }

  /** The status of an order after any step: each of the four statuses has its own
      writers, and every other step leaves the order as it is. */
  lemma StatusAfter(s: State, e: Event, o: Id)
    requires o in s.orders
    ensures var t := Step(s, e);
            && o in t.orders
            && t.orders[o].status == (if MakesReady(s, e, o) then Ready
                                      else if MakesProcessing(s, e, o) then Processing
                                      else if MakesInvalid(s, e, o) then Invalid
                                      else if MakesValid(s, e, o) then Valid
                                      else s.orders[o].status)
  {
    hide Step, Advanced, FreshOrder, OrderCreated;
    if e.NewOrder? {
      NewOrderStatus(s, e, o);
    } else if e.Advance? {
      AdvanceOrNothing(s, e);
      if e.tid in s.threads && s.threads[e.tid].Validation? {
        AdvanceStatus(s, e, o);
      }
    } else if e.StoreProcessing? {
      StoreProcessingStatus(s, e, o);
    } else if e.Issue? {
      IssueStatus(s, e, o);
    } else {
      OtherStatus(s, e, o);
    }
  }

  lemma AdvanceOrNothing(s: State, e: Event)
    requires e.Advance?
    ensures Step(s, e) ==
            if e.tid in s.threads && s.threads[e.tid].Validation? then Advanced(s, e.tid, e.stored) else s
  {
    hide Advanced, FreshOrder, OrderCreated, Covers;
  }

  lemma NewOrderStatus(s: State, e: Event, o: Id)
    requires o in s.orders && e.NewOrder?
    ensures o in Step(s, e).orders && Step(s, e).orders[o] == s.orders[o]
  {
    hide OrderCreated, FreshOrder, Advanced, Covers;
    if FreshOrder(s, e) {
      NewOrderRows(s, e);
    }
  }

  // ----- the gates of the two handlers that start goroutines -----

  /** A finalization starts exactly on a ready order whose identifiers the request
      covers; anything else changes nothing. */
  lemma FinalizesExactly(s: State, o: Id, request: Request, tid: nat)
    requires tid !in s.threads
    ensures Step(s, PostFinalize(o, request, tid)) ==
            if o in s.orders && s.orders[o].status == Ready && Covers(request, s.orders[o].identifiers)
            then s.(threads := s.threads[tid := Finalizing(o, request)]) else s
  {
    hide Covers, Advanced, FreshOrder, OrderCreated;
  }

  /** A validation starts exactly on a challenge that is neither valid nor
      invalid. */
  lemma ValidationStartsExactly(s: State, c: Id, tid: nat)
    requires tid !in s.threads
    ensures Step(s, PostChallenge(c, tid)) ==
            if c in s.challenges && s.challenges[c].status != Valid && s.challenges[c].status != Invalid
            then s.(threads := s.threads[tid := Validation(c, s.challenges[c].authzId, Started)]) else s
  {
    hide Covers, Advanced, FreshOrder, OrderCreated;
  }

  // ----- whole runs -----

  /** An order is valid only after a certificate was issued for it by a goroutine of
      the order, and the result was stored. */
  lemma {:induction false} ValidOrdersWereIssued(autoApprove: bool, events: seq<Event>, o: Id)
    requires o in Run(autoApprove, events).orders && Run(autoApprove, events).orders[o].status == Valid
    ensures exists i: nat :: i < |events| &&
              var s, e := Run(autoApprove, events[..i]), events[i];
              && e.Issue? && e.outcome == Issued && e.stored
              && e.tid in s.threads && s.threads[e.tid].Issuing? && s.threads[e.tid].orderId == o
    decreases |events|
  {
    hide Run, Step, MakesReady, MakesProcessing, MakesInvalid;
    assert |events| > 0 by { NotEmpty(autoApprove, events, o); }
    var n := |events| - 1;
    var before, e := events[..n], events[n];
    assert events == before + [e];
    RunSnoc(autoApprove, before, e);
    var s := Run(autoApprove, before);
    if o in s.orders {
      StatusAfter(s, e, o);
      if MakesValid(s, e, o) {
        assert events[..n] == before;
      } else {
        ValidOrdersWereIssued(autoApprove, before, o);
        var i: nat :| i < |before| && MakesValid(Run(autoApprove, before[..i]), before[i], o);
        assert before[..i] == events[..i] && before[i] == events[i];
        assert MakesValid(Run(autoApprove, events[..i]), events[i], o);
      }
    } else {
      NewOrdersArePending(s, e, o);
    }
  }

  /** And invalid only after its issuance failed before the CA had accepted it. */
  lemma {:induction false} InvalidOrdersFailed(autoApprove: bool, events: seq<Event>, o: Id)
    requires o in Run(autoApprove, events).orders && Run(autoApprove, events).orders[o].status == Invalid
    ensures exists i: nat :: i < |events| &&
              var s, e := Run(autoApprove, events[..i]), events[i];
              && e.Issue? && e.outcome == Failed && e.stored
              && e.tid in s.threads && s.threads[e.tid] == Issuing(o, false)
    decreases |events|
  {
    hide Run, Step, MakesReady, MakesProcessing, MakesValid;
    assert |events| > 0 by { NotEmpty(autoApprove, events, o); }
    var n := |events| - 1;
    var before, e := events[..n], events[n];
    assert events == before + [e];
    RunSnoc(autoApprove, before, e);
    var s := Run(autoApprove, before);
    if o in s.orders {
      StatusAfter(s, e, o);
      if MakesInvalid(s, e, o) {
        assert events[..n] == before;
      } else {
        InvalidOrdersFailed(autoApprove, before, o);
        var i: nat :| i < |before| && MakesInvalid(Run(autoApprove, before[..i]), before[i], o);
        assert before[..i] == events[..i] && before[i] == events[i];
        assert MakesInvalid(Run(autoApprove, events[..i]), events[i], o);
      }
    } else {
      NewOrdersArePending(s, e, o);
    }
  }

  /** What the three outcomes of an issuance leave behind when they are stored. */
  lemma IssuanceOutcomes(s: State, o: Id, tid: nat, proxied: bool)
    requires o in s.orders && tid in s.threads && s.threads[tid] == Issuing(o, proxied)
    ensures var t := Step(s, Issue(tid, Issued, true));
            o in t.orders && t.orders[o].status == Valid
    ensures !proxied ==>
              var t := Step(s, Issue(tid, Failed, true));
              o in t.orders && t.orders[o].status == Invalid
    ensures !proxied ==>
              var t := Step(s, Issue(tid, AcceptedByCA, true));
              o in t.orders && t.orders[o].status == Processing && t.threads[tid] == Issuing(o, true)
  {
    hide Step;
    IssueStep(s, Issue(tid, Issued, true));
    IssueStep(s, Issue(tid, Failed, true));
    IssueStep(s, Issue(tid, AcceptedByCA, true));
  }

  lemma NotEmpty(autoApprove: bool, events: seq<Event>, o: Id)
    requires o in Run(autoApprove, events).orders
    ensures |events| > 0
  {
  }

  lemma NewOrdersArePending(s: State, e: Event, o: Id)
    requires o !in s.orders && o in Step(s, e).orders
    ensures Step(s, e).orders[o].status == Pending
  {
    hide OrderCreated, FreshOrder, Covers, Advanced;
    if e.NewOrder? && FreshOrder(s, e) {
      NewOrderRows(s, e);
    }
    if e.Advance? && e.tid in s.threads && s.threads[e.tid].Validation? {
      AdvanceAddsNoOrder(s, e.tid, e.stored);
    }
  }

  lemma AdvanceAddsNoOrder(s: State, tid: nat, stored: bool)
    requires tid in s.threads && s.threads[tid].Validation?
    ensures Advanced(s, tid, stored).orders.Keys == s.orders.Keys
  {
    hide OthersValid;
  }
}
