/**
  Every value that has to be read is read: in a run that drops nothing and in which the
  target can read what it is asked for, all waiting rows are fresh once the traffic is over.
 */
module Completion {
  import opened Basics
  import opened Values
  import opened RecoveryModel
  import opened IdaNode
  import opened Target
  import opened ProtocolModel
  import opened Attendance
  import opened Pursuit
  import A = EntryArguments
  import AR = ArgumentRows
  import P = Protocol
  import RR = RecoveryRows

  // ---------------------------------------------------------------- requests of the current context

  /**
    A request of the node's context is what the node waits for, if it still waits under
    this id; and the slots of a context are asked for only after its registers.
   */
  ghost predicate RequestExact(node: Node, q: Request)
  {
    q.pcSeq == Current(node) ==>
      && (q.RegRequest? <==> q.id == FirstId(node, q.id))
      && (Owed(node, q.id).Some? ==> Owed(node, q.id) == Some(q))
      && (q.MemRequest? ==> Owed(node, FirstId(node, q.id)).None?)
  }

  /** The target can read everything that the request of the node's context asks for. */
  ghost predicate Reads(node: Node, stop: Stop, q: Request)
  {
    match q
    case RegRequest(_, id, _, registers) =>
      && (forall name :: name in registers ==> name in stop.regs)
      && (IsLocalId(id) ==>
         forall i :: i in node.planner.evidence && node.planner.evidence[i].Stack? && "rsp" in stop.regs ==>
            0 <= stop.regs["rsp"] + node.planner.evidence[i].offset < QUAD)
    case MemRequest(_, _, _, address, size) => size > 0 ==> Readable(stop, HexValue(address), size)
  }

  /** The message answers such a request, read where the target could read it. */
  ghost predicate AnswerExact(node: Node, m: Message)
  {
    m.PcUpdate? || exists stop, q :: AnswersExactly(node, m, stop, q)
  }

  ghost predicate AnswersExactly(node: Node, m: Message, stop: Stop, q: Request)
  {
    && m == Answer(stop, q) && q.pcSeq <= Current(node) && RequestExact(node, q)
    && (q.pcSeq == Current(node) ==> Reads(node, stop, q))
  }

  lemma SameRequestOwed(node: Node, node': Node, requests: seq<Request>, m: Message, q: Request)
    requires Fit(node) && Fit(node') && !m.PcUpdate? && AnswerStep(node, node', requests, m) && RequestExact(node, q)
    requires q.pcSeq == Current(node) && Owed(node', q.id).Some?
    ensures Owed(node', q.id) == Some(q)
  {
    var owed := Owed(node', q.id).value;
    OwedIsOwn(node', q.id);
    assert Owed(node', q.id) == Owed(node, q.id) || Follows(node, node', m, owed);
  }

  lemma FirstStaysFree(node: Node, node': Node, requests: seq<Request>, m: Message, id: string)
    requires Fit(node') && !m.PcUpdate? && AnswerStep(node, node', requests, m)
    requires Owed(node, FirstId(node, id)).None?
    ensures Owed(node', FirstId(node, id)).None?
  {
    var first := FirstId(node, id);
    IdKindsDiffer(Current(node), 0, "");
    if Owed(node', first).Some? {
      OwedIsOwn(node', first);
      assert false;
    }
  }

  lemma ExactStays(node: Node, node': Node, requests: seq<Request>, m: Message, q: Request)
    requires Fit(node) && Fit(node') && !m.PcUpdate? && AnswerStep(node, node', requests, m) && RequestExact(node, q)
    ensures RequestExact(node', q)
  {
    if q.pcSeq == Current(node) {
      if Owed(node', q.id).Some? {
        SameRequestOwed(node, node', requests, m, q);
      }
      if q.MemRequest? {
        FirstStaysFree(node, node', requests, m, q.id);
      }
    }
  }

  lemma IssuedIsExact(node: Node, node': Node, m: Message, q: Request)
    requires !m.PcUpdate? && Current(node') == Current(node) && Follows(node, node', m, q)
    ensures RequestExact(node', q)
  {
  }

  // ---------------------------------------------------------------- an answer that was granted

  lemma LocalRegistersGranted(node: Node, m: Message, stop: Stop, q: Request)
    requires Fit(node) && m.RegAnswer? && ToLocals(m.r) && AnswersExactly(node, m, stop, q)
    ensures RegistersGiven(node.planner, m.r)
  {
    var c := Correlated(node.planner, m.r, false);
    if c.Some? {
      assert Owed(node, q.id) == Some(RR.RequestOf(c.value));
      forall name | name in c.value.registers ensures exists n :: RR.Gives(m.r, name, n) {
        assert RR.Gives(m.r, name, stop.regs[name]);
      }
    }
  }

  lemma LocalBytesGranted(node: Node, m: Message, stop: Stop, q: Request)
    requires Fit(node) && m.MemAnswer? && ToLocals(m.r) && AnswersExactly(node, m, stop, q)
    ensures BytesGiven(node.planner, m.r)
  {
    if ApplyMem(node.planner, m.r).0 {
      var p := Correlated(node.planner, m.r, true).value;
      assert Owed(node, q.id) == Some(RR.RequestOf(p));
      OwedIsOwn(node, q.id);
      var bytes := Bytes(stop, HexValue(q.address), q.size);
      HexPairsRoundTrip(bytes);
      assert RR.GivesBytes(p, m.r, bytes);
    }
  }

  lemma ArgumentGranted(node: Node, m: Message, stop: Stop, q: Request)
    requires Fit(node) && !m.PcUpdate? && !ToLocals(m.r) && AnswersExactly(node, m, stop, q)
    ensures Gives(node, m)
  {
    var c := A.ArgCorrelated(node.core, m.r, m.MemAnswer?);
    if c.Some? {
      assert Owed(node, q.id) == Some(AR.RequestOf(c.value));
      OwedIsOwn(node, q.id);
    }
  }

  /** An answer read where the target could read it gives the planner what it asked for. */
  lemma GrantedGives(node: Node, m: Message)
    requires Fit(node) && !m.PcUpdate? && AnswerExact(node, m)
    ensures Gives(node, m) && (m.RegAnswer? ==> Successful(m.r))
  {
    var stop, q :| AnswersExactly(node, m, stop, q);
    if !ToLocals(m.r) {
      ArgumentGranted(node, m, stop, q);
    } else if m.RegAnswer? {
      LocalRegistersGranted(node, m, stop, q);
    } else {
      LocalBytesGranted(node, m, stop, q);
    }
  }

  // ---------------------------------------------------------------- every action

  /** The updates in flight carry rising numbers, the first above `s` and the last at most `newest`. */
  ghost predicate Rising(s: nat, newest: nat, flight: seq<Message>)
    decreases |flight|
  {
    if flight == [] then s <= newest
    else if flight[0].PcUpdate? then s < flight[0].pcSeq && Rising(flight[0].pcSeq, newest, flight[1..])
    else Rising(s, newest, flight[1..])
  }

  lemma {:induction false} RisingAppend(s: nat, newest: nat, flight: seq<Message>, m: Message, newer: nat)
    requires Rising(s, newest, flight) && newest <= newer && (m.PcUpdate? ==> newest < m.pcSeq <= newer)
    ensures Rising(s, newer, flight + [m])
    decreases |flight|
  {
    var longer := flight + [m];
    if flight == [] {
      assert longer[1..] == [];
    } else {
      assert longer[0] == flight[0] && longer[1..] == flight[1..] + [m];
      RisingAppend(if flight[0].PcUpdate? then flight[0].pcSeq else s, newest, flight[1..], m, newer);
    }
  }

  ghost predicate RequestTimely(node: Node, q: Request)
  {
    q.pcSeq <= Current(node) && RequestExact(node, q)
  }

  ghost predicate TrafficExact(w: World)
  {
    && w.announced <= |w.log| && Rising(Current(w.node), w.announced, Flight(w))
    && (forall q :: q in Requests(w) ==> RequestTimely(w.node, q))
    && (forall m :: m in Flight(w) ==> AnswerExact(w.node, m))
  }

  /** Nothing failed so far, and nothing on its way will. */
  ghost predicate Granted(w: World)
  {
    Fit(w.node) && Attended(w.node, false) && TrafficExact(w)
  }

  /** A request of the current context is served where the target can read what it asks for. */
  ghost predicate Grants(w: World, a: Action)
  {
    a.Serve? && w.downToWindbg != [] && w.downToWindbg[0].pcSeq == Current(w.node) ==>
      Reads(w.node, w.now, w.downToWindbg[0])
  }

  lemma ServeGrants(w: World)
    requires Granted(w) && w.downToWindbg != [] && Grants(w, Serve)
    ensures Granted(Do(w, Serve))
  {
    var q, w' := w.downToWindbg[0], Do(w, Serve);
    var m := Answer(w.now, q);
    assert q in Requests(w);
    assert Flight(w') == Flight(w) + [m] && Requests(w) == [q] + Requests(w');
    assert AnswersExactly(w.node, m, w.now, q);
    RisingAppend(Current(w.node), w.announced, Flight(w), m, w.announced);
  }

  lemma QuietStepGrants(w: World, a: Action)
    requires Granted(w) && Enabled(w, a) && (a.Move? || a.Draw? || a.Drop? || a.RelayUp? || a.RelayDown?)
    ensures Granted(Do(w, a))
  {
    var w' := Do(w, a);
    assert Flight(w') == Flight(w);
    assert a.Drop? ==> Requests(w) == [w.downToWindbg[0]] + Requests(w');
    assert !a.Drop? ==> Requests(w') == Requests(w);
  }

  lemma SendGrants(w: World)
    requires Granted(w) && w.announced < |w.log|
    ensures Granted(Do(w, Send))
  {
    var m, w' := PcUpdate(|w.log|, w.log[|w.log| - 1].pc), Do(w, Send);
    assert Flight(w') == Flight(w) + [m] && Requests(w') == Requests(w);
    RisingAppend(Current(w.node), w.announced, Flight(w), m, |w.log|);
  }

  /** In a newer context, no request or answer in transit is of the node's context. */
  lemma OlderIsExact(node: Node, node': Node, q: Request)
    requires RequestTimely(node, q) && Current(node) < Current(node')
    ensures RequestTimely(node', q)
  {
  }

  lemma OlderAnswerIsExact(node: Node, node': Node, m: Message)
    requires AnswerExact(node, m) && Current(node) < Current(node')
    ensures AnswerExact(node', m)
  {
    if !m.PcUpdate? {
      var stop, q :| AnswersExactly(node, m, stop, q);
      assert AnswersExactly(node', m, stop, q);
    }
  }

  lemma UpdateGrants(w: World, outcome: Outcome)
    requires Granted(w) && w.upToIda != [] && LegalOutcome(outcome) && w.upToIda[0].PcUpdate?
    ensures Granted(Do(w, Deliver(outcome)))
  {
    var m := w.upToIda[0];
    var requests := Delivered(w, outcome);
    UpdateOwes(w.node, m.pcSeq, Hex(m.pc), outcome);
    UpdateTrafficExact(w, Do(w, Deliver(outcome)), requests);
  }

  lemma UpdateTrafficExact(w: World, w': World, requests: seq<Request>)
    requires TrafficExact(w) && Flight(w) != [] && Flight(w)[0].PcUpdate? && Flight(w') == Flight(w)[1..]
    requires Requests(w') == Requests(w) + requests && w'.announced == w.announced && w'.log == w.log
    requires Fit(w'.node) && Current(w'.node) == Flight(w)[0].pcSeq && OwesExactly(w'.node, requests)
    ensures TrafficExact(w')
  {
    forall q | q in Requests(w') ensures RequestTimely(w'.node, q) {
      if q in requests {
        OwedIsOwn(w'.node, q.id);
      } else {
        OlderIsExact(w.node, w'.node, q);
      }
    }
    forall m | m in Flight(w') ensures AnswerExact(w'.node, m) {
      assert m in Flight(w);
      OlderAnswerIsExact(w.node, w'.node, m);
    }
  }

  lemma AnswerGrants(w: World, outcome: Outcome)
    requires Granted(w) && w.upToIda != [] && !w.upToIda[0].PcUpdate?
    ensures Granted(Do(w, Deliver(outcome))) && SameVariables(w.node, Do(w, Deliver(outcome)).node)
  {
    var m := w.upToIda[0];
    var requests := Delivered(w, outcome);
    AnswerIsGranted(w.node, m);
    AnswerTrafficExact(w, Do(w, Deliver(outcome)), m, requests);
  }

  lemma AnswerIsGranted(node: Node, m: Message)
    requires Fit(node) && Attended(node, false) && !m.PcUpdate? && AnswerExact(node, m)
    ensures var (node', requests) := Handle(node, m, Unmapped);
            && Fit(node') && Attended(node', false) && SameVariables(node, node')
            && AnswerStep(node, node', requests, m)
  {
    GrantedGives(node, m);
    AnswerIsStep(node, m);
    AnswerKeepsFit(node, m, false);
  }

  lemma AnswerTrafficExact(w: World, w': World, m: Message, requests: seq<Request>)
    requires TrafficExact(w) && Flight(w) != [] && Flight(w)[0] == m && !m.PcUpdate? && Flight(w') == Flight(w)[1..]
    requires Requests(w') == Requests(w) + requests && w'.announced == w.announced && w'.log == w.log
    requires Fit(w.node) && Fit(w'.node) && AnswerStep(w.node, w'.node, requests, m)
    requires SameVariables(w.node, w'.node)
    ensures TrafficExact(w')
  {
    forall q | q in Requests(w') ensures RequestTimely(w'.node, q) {
      if q in requests {
        IssuedIsExact(w.node, w'.node, m, q);
      } else {
        ExactStays(w.node, w'.node, requests, m, q);
      }
    }
    forall x | x in Flight(w') ensures AnswerExact(w'.node, x) {
      assert x in Flight(w);
      if !x.PcUpdate? {
        var stop, q :| AnswersExactly(w.node, x, stop, q);
        ExactStays(w.node, w'.node, requests, m, q);
        assert AnswersExactly(w'.node, x, stop, q);
      }
    }
  }

  lemma StepGrants(w: World, a: Action)
    requires Granted(w) && Enabled(w, a) && Grants(w, a)
    ensures Granted(Do(w, a))
  {
    match a {
      case Serve => ServeGrants(w);
      case Send => SendGrants(w);
      case Deliver(outcome) =>
        if w.upToIda[0].PcUpdate? {
          UpdateGrants(w, outcome);
        } else {
          AnswerGrants(w, outcome);
        }
      case _ => QuietStepGrants(w, a);
    }
  }

  // ---------------------------------------------------------------- every run

  /** The locals that wait have their rows, and the argument rows are those of the enumeration. */
  ghost predicate Due(node: Node, outcome: Outcome)
    requires outcome.Enumerated?
  {
    && (forall v :: v in Locals(outcome.vs) && RR.Waits(outcome.analysis, outcome.selected, v) ==>
          v.index in node.planner.records && NeedsRead(node.planner.records[v.index]))
    && node.core.context.Some? && node.core.context.value.atEntry == outcome.atEntry
    && |node.core.rows| == |outcome.vs| && forall i :: 0 <= i < |outcome.vs| ==> node.core.rows[i].v == outcome.vs[i]
  }

  lemma UpdateIsDue(node: Node, pcSeq: nat, runtimePc: string, outcome: Outcome)
    requires Fit(node) && LegalOutcome(outcome) && outcome.Enumerated?
    ensures Due(HandlePcUpdate(node, pcSeq, runtimePc, outcome).0, outcome)
  {
    ContextIsFit(node.planner, outcome.vs, outcome.selected, outcome.analysis, runtimePc, pcSeq);
    EntryIsFit(node.core, outcome.vs, ContextOf(pcSeq, runtimePc, outcome));
  }

  lemma DueStays(node: Node, node': Node, outcome: Outcome)
    requires outcome.Enumerated? && Due(node, outcome) && SameVariables(node, node')
    ensures Due(node', outcome)
  {
  }

  /** No message is in flight except updates, and no request. */
  ghost predicate Quiet(w: World)
  {
    Requests(w) == [] && forall m :: m in Flight(w) ==> m.PcUpdate?
  }

  ghost predicate DropFree(actions: seq<Action>)
  {
    forall k :: 0 <= k < |actions| ==> !actions[k].Drop?
  }

  ghost predicate GrantingRun(w: World, actions: seq<Action>)
  {
    forall k :: 0 <= k < |actions| ==> Grants(P.RunWorld(w, actions[..k]), actions[k])
  }

  /** The last `n` actions deliver no update. */
  ghost predicate NoUpdateSince(w: World, actions: seq<Action>, n: nat)
    requires n <= |actions|
  {
    forall k :: n <= k < |actions| && actions[k].Deliver? && P.RunWorld(w, actions[..k]).upToIda != [] ==>
      !P.RunWorld(w, actions[..k]).upToIda[0].PcUpdate?
  }

  lemma GrantingBefore(w: World, actions: seq<Action>)
    requires GrantingRun(w, actions) && actions != []
    ensures GrantingRun(w, actions[..|actions| - 1])
    ensures Grants(P.RunWorld(w, actions[..|actions| - 1]), actions[|actions| - 1])
  {
    var init := actions[..|actions| - 1];
    forall k | 0 <= k < |init| ensures Grants(P.RunWorld(w, init[..k]), init[k]) {
      assert init[..k] == actions[..k] && init[k] == actions[k];
    }
  }

  lemma {:induction false} RunIsGranted(now: Stop, maxHistory: int, actions: seq<Action>)
    requires P.EnabledRun(P.Start(now, maxHistory), actions) && GrantingRun(P.Start(now, maxHistory), actions)
    ensures Granted(P.RunWorld(P.Start(now, maxHistory), actions))
    decreases |actions|
  {
    var start := P.Start(now, maxHistory);
    if actions == [] {
      StartIsTended(now, maxHistory);
      assert Flight(start) == [] && Requests(start) == [];
    } else {
      var init := actions[..|actions| - 1];
      EnabledBefore(start, actions);
      GrantingBefore(start, actions);
      RunIsGranted(now, maxHistory, init);
      StepGrants(P.RunWorld(start, init), actions[|actions| - 1]);
    }
  }

  lemma {:induction false} NothingDropped(w: World, actions: seq<Action>)
    requires DropFree(actions)
    ensures Dropped(w, actions) == []
    decreases |actions|
  {
    if actions != [] {
      NothingDropped(w, actions[..|actions| - 1]);
    }
  }

  /** Once the traffic of a run without drops is over, nothing is pending. */
  lemma NothingIsPending(now: Stop, maxHistory: int, actions: seq<Action>)
    requires P.EnabledRun(P.Start(now, maxHistory), actions) && DropFree(actions)
    requires Quiet(P.RunWorld(P.Start(now, maxHistory), actions))
    ensures var node := P.RunWorld(P.Start(now, maxHistory), actions).node;
            node.planner.pending == map[] && node.core.pending == map[]
  {
    var w := P.RunWorld(P.Start(now, maxHistory), actions);
    NothingDropped(P.Start(now, maxHistory), actions);
    forall id ensures id !in w.node.planner.pending && id !in w.node.core.pending {
      PendingIsPursued(now, maxHistory, actions, id);
      assert forall q :: !OnItsWay(w, q, []) by {
        NothingIsOnItsWay(w);
      }
    }
  }

  lemma NothingIsOnItsWay(w: World)
    requires Quiet(w)
    ensures forall q :: !OnItsWay(w, q, [])
  {
  }

  /**
    Once the traffic of a run without drops is over, every local whose value has to be read
    and every argument at an entry is fresh, or failed because an answer said so.
   */
  lemma QuietRowsAreSettled(now: Stop, maxHistory: int, actions: seq<Action>)
    requires P.EnabledRun(P.Start(now, maxHistory), actions) && DropFree(actions)
    requires Quiet(P.RunWorld(P.Start(now, maxHistory), actions))
    ensures var node := P.RunWorld(P.Start(now, maxHistory), actions).node;
            && (forall i :: i in node.planner.records && NeedsRead(node.planner.records[i]) ==>
                  node.planner.records[i].status == Fresh || node.planner.records[i].status == Failed)
            && (node.core.context.Some? && node.core.context.value.atEntry ==>
                  forall i :: 0 <= i < |node.core.rows| && A.IsArgument(node.core.rows[i].v) ==>
                    node.core.rows[i].status == Fresh || node.core.rows[i].status == Failed)
  {
    NothingIsPending(now, maxHistory, actions);
    RunIsTended(now, maxHistory, actions);
    NothingPendingSettles(P.RunWorld(P.Start(now, maxHistory), actions).node, true);
  }

  lemma NothingPendingSettles(node: Node, failing: bool)
    requires Attended(node, failing) && node.planner.pending == map[] && node.core.pending == map[]
    ensures forall i :: i in node.planner.records && NeedsRead(node.planner.records[i]) ==>
              node.planner.records[i].status == Fresh || (failing && node.planner.records[i].status == Failed)
    ensures node.core.context.Some? && node.core.context.value.atEntry ==>
              forall i :: 0 <= i < |node.core.rows| && A.IsArgument(node.core.rows[i].v) ==>
                node.core.rows[i].status == Fresh || (failing && node.core.rows[i].status == Failed)
  {
    forall i | i in node.planner.records && NeedsRead(node.planner.records[i])
      ensures node.planner.records[i].status == Fresh || (failing && node.planner.records[i].status == Failed)
    {
      assert RowAttended(node.planner, i, failing);
    }
  }

  /** Action `k` delivers an update with this enumeration, and no later action delivers an update. */
  ghost predicate LastUpdate(w: World, actions: seq<Action>, k: nat, outcome: Outcome)
  {
    && k < |actions| && actions[k] == Deliver(outcome) && outcome.Enumerated?
    && P.RunWorld(w, actions[..k]).upToIda != [] && P.RunWorld(w, actions[..k]).upToIda[0].PcUpdate?
    && NoUpdateSince(w, actions, k + 1)
  }

  lemma {:induction false} RunIsDue(now: Stop, maxHistory: int, actions: seq<Action>, k: nat, outcome: Outcome)
    requires P.EnabledRun(P.Start(now, maxHistory), actions) && GrantingRun(P.Start(now, maxHistory), actions)
    requires LastUpdate(P.Start(now, maxHistory), actions, k, outcome)
    ensures Due(P.RunWorld(P.Start(now, maxHistory), actions).node, outcome)
    decreases |actions|
  {
    var start, init := P.Start(now, maxHistory), actions[..|actions| - 1];
    EnabledBefore(start, actions);
    GrantingBefore(start, actions);
    RunIsGranted(now, maxHistory, init);
    if k == |actions| - 1 {
      var w := P.RunWorld(start, init);
      UpdateIsDue(w.node, w.upToIda[0].pcSeq, Hex(w.upToIda[0].pc), outcome);
    } else {
      UpdateBefore(start, actions, k, outcome);
      RunIsDue(now, maxHistory, init, k, outcome);
      StepIsDue(P.RunWorld(start, init), actions[|actions| - 1], outcome);
    }
  }

  lemma UpdateBefore(w: World, actions: seq<Action>, k: nat, outcome: Outcome)
    requires LastUpdate(w, actions, k, outcome) && k < |actions| - 1
    ensures LastUpdate(w, actions[..|actions| - 1], k, outcome)
  {
    SinceBefore(w, actions, k + 1);
    assert actions[..|actions| - 1][..k] == actions[..k];
  }

  lemma SinceBefore(w: World, actions: seq<Action>, n: nat)
    requires n < |actions| && NoUpdateSince(w, actions, n)
    ensures NoUpdateSince(w, actions[..|actions| - 1], n)
  {
    var init := actions[..|actions| - 1];
    forall k | n <= k < |init| && init[k].Deliver? && P.RunWorld(w, init[..k]).upToIda != []
      ensures !P.RunWorld(w, init[..k]).upToIda[0].PcUpdate?
    {
      assert init[..k] == actions[..k] && init[k] == actions[k];
    }
  }

  lemma StepIsDue(w: World, a: Action, outcome: Outcome)
    requires Granted(w) && Enabled(w, a) && outcome.Enumerated? && Due(w.node, outcome)
    requires a.Deliver? ==> !w.upToIda[0].PcUpdate?
    ensures Due(Do(w, a).node, outcome)
  {
    if a.Deliver? {
      AnswerGrants(w, a.outcome);
      DueStays(w.node, Do(w, a).node, outcome);
    }
  }

  /**
    Nothing is lost. Take a run in which the pump drops nothing and the target can read
    what it is asked for in the context of the moment, that delivers an update with an
    enumeration and no later one, and whose traffic is over. Then every local whose proved
    register or slot has to be read is fresh, and at an entry so is every argument; and
    what is fresh is true, if the run agrees with its announcements.
   */
  lemma NothingIsLost(now: Stop, maxHistory: int, actions: seq<Action>, k: nat, outcome: Outcome)
    requires P.EnabledRun(P.Start(now, maxHistory), actions) && GrantingRun(P.Start(now, maxHistory), actions)
    requires DropFree(actions) && LastUpdate(P.Start(now, maxHistory), actions, k, outcome)
    requires Quiet(P.RunWorld(P.Start(now, maxHistory), actions))
    ensures var w := P.RunWorld(P.Start(now, maxHistory), actions);
            && (forall v :: v in outcome.vs && !v.isArg && RR.Waits(outcome.analysis, outcome.selected, v) ==>
                  v.index in w.node.planner.records && w.node.planner.records[v.index].status == Fresh)
            && (outcome.atEntry ==> forall v :: v in outcome.vs && v.isArg && v.argIndex.Some? ==>
                  exists row :: row in w.node.core.rows && row.v == v && row.status == Fresh)
            && (P.AgreeingRun(P.Start(now, maxHistory), actions) ==> P.AllFreshTrue(w))
  {
    NothingIsPending(now, maxHistory, actions);
    RunIsGranted(now, maxHistory, actions);
    RunIsDue(now, maxHistory, actions, k, outcome);
    RR.LocalsAre(outcome.vs);
    DueRowsAreFresh(P.RunWorld(P.Start(now, maxHistory), actions).node, outcome);
    if P.AgreeingRun(P.Start(now, maxHistory), actions) {
      P.FreshIsTrue(now, maxHistory, actions);
    }
  }

  lemma DueRowsAreFresh(node: Node, outcome: Outcome)
    requires Attended(node, false) && node.planner.pending == map[] && node.core.pending == map[]
    requires outcome.Enumerated? && Due(node, outcome)
    ensures forall v :: v in Locals(outcome.vs) && RR.Waits(outcome.analysis, outcome.selected, v) ==>
              v.index in node.planner.records && node.planner.records[v.index].status == Fresh
    ensures outcome.atEntry ==> forall v :: v in outcome.vs && A.IsArgument(v) ==>
              exists row :: row in node.core.rows && row.v == v && row.status == Fresh
  {
    NothingPendingSettles(node, false);
    forall v | outcome.atEntry && v in outcome.vs && A.IsArgument(v)
      ensures exists row :: row in node.core.rows && row.v == v && row.status == Fresh
    {
      var i :| 0 <= i < |outcome.vs| && outcome.vs[i] == v;
      assert node.core.rows[i] in node.core.rows && node.core.rows[i].v == v;
    }
  }
}
