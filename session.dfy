/** The session protocol of the pie-menu server, as values: the two counters of the
    server, the signals it has emitted so far, and one function per entry point.
    The `Server` class is proved against these functions. */
module Session {
  import opened MenuTree

  /** A signal sent to clients: the user picked `item` in session `id`, or dismissed it. */
  datatype Event = OnSelect(id: int, item: string) | OnCancel(id: int)

  /** `currentID` is the id of the menu on screen (0: none), `nextID` the id the next
      successful request receives, `signals` every signal emitted so far, oldest first. */
  datatype SessionState = SessionState(currentID: int, nextID: int, signals: seq<Event>)

  /** The result of a request: the new state and the value returned to the client. */
  datatype Reply = Reply(state: SessionState, id: int)

  /** The invariant the server keeps: ids are handed out from 1 upwards; every signal
      carries an id that was already handed out (or 0); the menu on screen has not been
      reported yet; and no session is reported twice. */
  ghost predicate Invariant(s: SessionState)
  {
    && 0 <= s.currentID < s.nextID
    && (forall k :: 0 <= k < |s.signals| ==> 0 <= s.signals[k].id < s.nextID)
    && (s.currentID > 0 ==> forall k :: 0 <= k < |s.signals| ==> s.signals[k].id != s.currentID)
    && (forall i, j :: 0 <= i < j < |s.signals| && s.signals[i].id > 0 ==> s.signals[i].id != s.signals[j].id)
  }

  /** The state right after construction: no menu shown, the first id will be 1. */
  function Initial(): (s: SessionState)
    ensures Invariant(s)
    ensures s.currentID == 0 && s.nextID == 1 && s.signals == []
  {
    SessionState(0, 1, [])
  }

  /** A request to show a menu. `parsed` is what decoding the description produced
      (`None` when it is not valid JSON); `shown` is whether the menu widget agreed to
      display the decoded menu (it is consulted only when the server is idle and the
      description decoded). */
  function ShowMenu(s: SessionState, parsed: Option<MenuNode>, shown: bool): (r: Reply)
    ensures s.currentID > 0 ==> r == Reply(s, -1)
    ensures parsed.None? ==> r == Reply(s, -1)
    ensures !shown ==> r == Reply(s, -1)
    ensures s.currentID <= 0 && parsed.Some? && shown ==>
              r.id == s.nextID && r.state.currentID == r.id && r.state.nextID == s.nextID + 1 &&
              r.state.signals == s.signals
    ensures Invariant(s) ==> Invariant(r.state) && (r.id == -1 || r.id >= 1)
  {
    if s.currentID > 0 then Reply(s, -1)
    else if parsed.None? then Reply(s, -1)
    else if !shown then Reply(s, -1)
    else Reply(s.(currentID := s.nextID, nextID := s.nextID + 1), s.nextID)
  }

  /** The user picked `item`: report it under the current id, then return to idle. */
  function Select(s: SessionState, item: string): (t: SessionState)
    ensures t.signals == s.signals + [OnSelect(s.currentID, item)]
    ensures t.currentID == 0 && t.nextID == s.nextID
    ensures Invariant(s) ==> Invariant(t)
  {
    SessionState(0, s.nextID, s.signals + [OnSelect(s.currentID, item)])
  }

  /** The user dismissed the menu: report it under the current id, then return to idle. */
  function Cancel(s: SessionState): (t: SessionState)
    ensures t.signals == s.signals + [OnCancel(s.currentID)]
    ensures t.currentID == 0 && t.nextID == s.nextID
    ensures Invariant(s) ==> Invariant(t)
  {
    SessionState(0, s.nextID, s.signals + [OnCancel(s.currentID)])
  }

  /** One entry point invoked on the server. */
  datatype Call = Show(parsed: Option<MenuNode>, shown: bool) | SelectItem(item: string) | CancelMenu

  /** The state after a sequence of calls and the values the `Show` calls returned, in order. */
  datatype Trace = Trace(final: SessionState, replies: seq<int>)

  function Run(s: SessionState, calls: seq<Call>): (r: Trace)
    decreases |calls|
  {
    if calls == [] then Trace(s, [])
    else
      match calls[0]
      case Show(parsed, shown) =>
        var reply := ShowMenu(s, parsed, shown);
        var rest := Run(reply.state, calls[1..]);
        Trace(rest.final, [reply.id] + rest.replies)
      case SelectItem(item) => Run(Select(s, item), calls[1..])
      case CancelMenu => Run(Cancel(s), calls[1..])
  }

  /** A session that completes leaves the server ready: right after either callback, a
      request whose menu decodes and is accepted by the widget gets the next id. */
  lemma ReadyAfterOutcome(s: SessionState, item: string, m: MenuNode)
    requires Invariant(s)
    ensures ShowMenu(Select(s, item), Some(m), true).id == s.nextID
    ensures ShowMenu(Cancel(s), Some(m), true).id == s.nextID
  {
  }

  /** The outcome of a session is reported with the id its request returned, even when
      requests refused as busy arrive in between. */
  lemma OutcomeCarriesRequestId(s: SessionState, m: MenuNode, item: string, busy: seq<Call>)
    requires Invariant(s) && s.currentID == 0
    requires forall k :: 0 <= k < |busy| ==> busy[k].Show?
    ensures var shown := ShowMenu(s, Some(m), true);
            var during := Run(shown.state, busy);
            during.final == shown.state &&
            Select(during.final, item).signals == s.signals + [OnSelect(shown.id, item)] &&
            Cancel(during.final).signals == s.signals + [OnCancel(shown.id)]
  {
    BusyRequestsChangeNothing(ShowMenu(s, Some(m), true).state, busy);
  }

  /** While a menu is shown, every request is refused with -1 and changes nothing. */
  lemma {:induction false} BusyRequestsChangeNothing(s: SessionState, busy: seq<Call>)
    requires s.currentID > 0
    requires forall k :: 0 <= k < |busy| ==> busy[k].Show?
    ensures Run(s, busy).final == s
    ensures forall k :: 0 <= k < |Run(s, busy).replies| ==> Run(s, busy).replies[k] == -1
    ensures |Run(s, busy).replies| == |busy|
    decreases |busy|
  {
    if busy != [] {
      BusyRequestsChangeNothing(s, busy[1..]);
    }
  }

  /** Over any sequence of calls the invariant holds throughout, `nextID` never decreases
      and the signal log only grows: signals already emitted are never changed. */
  lemma {:induction false} RunKeepsInvariant(s: SessionState, calls: seq<Call>)
    requires Invariant(s)
    ensures var r := Run(s, calls);
            && Invariant(r.final)
            && s.nextID <= r.final.nextID
            && |r.final.signals| >= |s.signals| && r.final.signals[..|s.signals|] == s.signals
    decreases |calls|
  {
    if calls != [] {
      var t := match calls[0]
        case Show(parsed, shown) => ShowMenu(s, parsed, shown).state
        case SelectItem(item) => Select(s, item)
        case CancelMenu => Cancel(s);
      assert Run(s, calls).final == Run(t, calls[1..]).final;
      RunKeepsInvariant(t, calls[1..]);
      assert t.signals[..|s.signals|] == s.signals;
    }
  }

  /** The replies of a run are ids in `[lo, hi)` or -1, and its ids increase. */
  ghost predicate IncreasingIds(ids: seq<int>, lo: int, hi: int)
  {
    && (forall k :: 0 <= k < |ids| ==> ids[k] == -1 || lo <= ids[k] < hi)
    && (forall i, j :: 0 <= i < j < |ids| && ids[i] != -1 && ids[j] != -1 ==> ids[i] < ids[j])
  }

  /** A reply below every later reply keeps the sequence increasing. */
  lemma PrependReply(id: int, ids: seq<int>, lo: int, mid: int, hi: int)
    requires IncreasingIds(ids, mid, hi)
    requires id == -1 || lo <= id < mid
    requires lo <= mid <= hi
    ensures IncreasingIds([id] + ids, lo, hi)
  {
  }

  /** Every successful request returns an id that is at least `nextID` at the start of the
      run (so positive), below `nextID` at its end, and larger than every id returned
      before it in the run, so ids are never reused. */
  lemma {:induction false} RunAllocatesIncreasingIds(s: SessionState, calls: seq<Call>)
    requires s.nextID >= 1
    ensures s.nextID <= Run(s, calls).final.nextID
    ensures IncreasingIds(Run(s, calls).replies, s.nextID, Run(s, calls).final.nextID)
    decreases |calls|
  {
    if calls != [] {
      match calls[0]
      case Show(parsed, shown) =>
        var reply := ShowMenu(s, parsed, shown);
        var rest := Run(reply.state, calls[1..]);
        RunAllocatesIncreasingIds(reply.state, calls[1..]);
        assert Run(s, calls) == Trace(rest.final, [reply.id] + rest.replies);
        PrependReply(reply.id, rest.replies, s.nextID, reply.state.nextID, rest.final.nextID);
      case SelectItem(item) =>
        RunAllocatesIncreasingIds(Select(s, item), calls[1..]);
        assert Run(s, calls) == Run(Select(s, item), calls[1..]);
      case CancelMenu =>
        RunAllocatesIncreasingIds(Cancel(s), calls[1..]);
        assert Run(s, calls) == Run(Cancel(s), calls[1..]);
    }
  }

  /** Every signal emitted during a sequence of calls carries the id of the session that was
      current when the run began, an id returned by a request of the run, or 0 (a callback
      that arrives while no menu is shown). */
  lemma {:induction false} RunSignalsCorrelate(s: SessionState, calls: seq<Call>)
    requires Invariant(s)
    ensures var r := Run(s, calls);
            |r.final.signals| >= |s.signals| &&
            forall k :: |s.signals| <= k < |r.final.signals| ==>
              r.final.signals[k].id == 0 || r.final.signals[k].id == s.currentID || r.final.signals[k].id in r.replies
    decreases |calls|
  {
    if calls != [] {
      match calls[0]
      case Show(parsed, shown) =>
        var reply := ShowMenu(s, parsed, shown);
        RunSignalsCorrelate(reply.state, calls[1..]);
      case SelectItem(item) =>
        RunKeepsInvariant(Select(s, item), calls[1..]);
        RunSignalsCorrelate(Select(s, item), calls[1..]);
      case CancelMenu =>
        RunKeepsInvariant(Cancel(s), calls[1..]);
        RunSignalsCorrelate(Cancel(s), calls[1..]);
    }
  }

  /** No session is reported twice: in any reachable log, two signals with a positive id
      never share it. */
  lemma AtMostOneOutcomePerSession(calls: seq<Call>, i: nat, j: nat)
    requires var log := Run(Initial(), calls).final.signals; i < j < |log| && log[i].id > 0
    ensures Run(Initial(), calls).final.signals[i].id != Run(Initial(), calls).final.signals[j].id
  {
    RunKeepsInvariant(Initial(), calls);
  }

  /** As written, the callbacks have no idle check: a callback arriving while no menu is
      shown still emits a signal, with id 0, and leaves the counters alone. */
  lemma StrayCallbackReportsZero(s: SessionState, item: string)
    requires s.currentID == 0
    ensures Cancel(s) == s.(signals := s.signals + [OnCancel(0)])
    ensures Select(s, item) == s.(signals := s.signals + [OnSelect(0, item)])
  {
  }

  /** Example: show a menu (id 1), the user picks "A" (OnSelect(1, "A")), the next menu gets
      id 2; a request made while that second menu is on screen is refused. */
  lemma ExampleSession(root: MenuNode, other: MenuNode)
    ensures var first := ShowMenu(Initial(), Some(root), true);
            var picked := Select(first.state, "A");
            var second := ShowMenu(picked, Some(other), true);
            var busy := ShowMenu(second.state, Some(root), true);
            first.id == 1 && picked.signals == [OnSelect(1, "A")] && second.id == 2 &&
            busy.id == -1 && busy.state == second.state
  {
  }
}
