/**
  The traffic ends: every relay, answer and delivery brings it closer to its end, so that
  after finitely many of them, in any order, nothing is in transit.
 */
module Drain {
  import opened RecoveryModel
  import opened IdaNode
  import opened Target
  import opened ProtocolModel
  import opened Pursuit
  import P = Protocol

  // ---------------------------------------------------------------- how much is left to do

  function Updates(ms: seq<Message>): nat
  {
    if ms == [] then 0 else Updates(ms[..|ms| - 1]) + if ms[|ms| - 1].PcUpdate? then 1 else 0
  }

  function RegAnswers(ms: seq<Message>): nat
  {
    if ms == [] then 0 else RegAnswers(ms[..|ms| - 1]) + if ms[|ms| - 1].RegAnswer? then 1 else 0
  }

  function MemAnswers(ms: seq<Message>): nat
  {
    if ms == [] then 0 else MemAnswers(ms[..|ms| - 1]) + if ms[|ms| - 1].MemAnswer? then 1 else 0
  }

  function RegRequests(qs: seq<Request>): nat
  {
    if qs == [] then 0 else RegRequests(qs[..|qs| - 1]) + if qs[|qs| - 1].RegRequest? then 1 else 0
  }

  function MemRequests(qs: seq<Request>): nat
  {
    if qs == [] then 0 else MemRequests(qs[..|qs| - 1]) + if qs[|qs| - 1].MemRequest? then 1 else 0
  }

  /** The hops that are left: an update may lead to register requests, their answers to memory requests. */
  datatype Left = Left(updates: nat, registers: nat, memory: nat)

  function LeftOf(w: World): Left
  {
    Left(2 * Updates(w.upToBroker) + Updates(w.upToIda),
         4 * RegRequests(w.downToBroker) + 3 * RegRequests(w.downToWindbg)
         + 2 * RegAnswers(w.upToBroker) + RegAnswers(w.upToIda),
         4 * MemRequests(w.downToBroker) + 3 * MemRequests(w.downToWindbg)
         + 2 * MemAnswers(w.upToBroker) + MemAnswers(w.upToIda))
  }

  predicate Less(a: Left, b: Left)
  {
    || a.updates < b.updates
    || (a.updates == b.updates && a.registers < b.registers)
    || (a.updates == b.updates && a.registers == b.registers && a.memory < b.memory)
  }

  lemma MessageAppended(ms: seq<Message>, m: Message)
    ensures Updates(ms + [m]) == Updates(ms) + if m.PcUpdate? then 1 else 0
    ensures RegAnswers(ms + [m]) == RegAnswers(ms) + if m.RegAnswer? then 1 else 0
    ensures MemAnswers(ms + [m]) == MemAnswers(ms) + if m.MemAnswer? then 1 else 0
  {
    assert (ms + [m])[..|ms|] == ms;
  }

  lemma RequestAppended(qs: seq<Request>, q: Request)
    ensures RegRequests(qs + [q]) == RegRequests(qs) + if q.RegRequest? then 1 else 0
    ensures MemRequests(qs + [q]) == MemRequests(qs) + if q.MemRequest? then 1 else 0
  {
    assert (qs + [q])[..|qs|] == qs;
  }

  lemma {:induction false} MessageTaken(ms: seq<Message>)
    requires ms != []
    ensures Updates(ms) == Updates(ms[1..]) + if ms[0].PcUpdate? then 1 else 0
    ensures RegAnswers(ms) == RegAnswers(ms[1..]) + if ms[0].RegAnswer? then 1 else 0
    ensures MemAnswers(ms) == MemAnswers(ms[1..]) + if ms[0].MemAnswer? then 1 else 0
    decreases |ms|
  {
    if |ms| > 1 {
      var init := ms[..|ms| - 1];
      MessageTaken(init);
      assert ms[1..][..|ms| - 2] == init[1..];
    } else {
      assert ms[1..] == [];
    }
  }

  lemma {:induction false} RequestTaken(qs: seq<Request>)
    requires qs != []
    ensures RegRequests(qs) == RegRequests(qs[1..]) + if qs[0].RegRequest? then 1 else 0
    ensures MemRequests(qs) == MemRequests(qs[1..]) + if qs[0].MemRequest? then 1 else 0
    decreases |qs|
  {
    if |qs| > 1 {
      var init := qs[..|qs| - 1];
      RequestTaken(init);
      assert qs[1..][..|qs| - 2] == init[1..];
    } else {
      assert qs[1..] == [];
    }
  }

  lemma {:induction false} RequestsJoined(qs: seq<Request>, more: seq<Request>)
    ensures (forall q :: q in more ==> q.MemRequest?) ==> RegRequests(qs + more) == RegRequests(qs)
    ensures more == [] ==> MemRequests(qs + more) == MemRequests(qs)
    decreases |more|
  {
    if more == [] {
      assert qs + more == qs;
    } else {
      var init, last := more[..|more| - 1], more[|more| - 1];
      RequestsJoined(qs, init);
      RequestAppended(qs + init, last);
      assert qs + more == (qs + init) + [last];
    }
  }

  // ---------------------------------------------------------------- every hop

  /** The actions that move traffic on. */
  predicate MovesTraffic(a: Action)
  {
    a.Serve? || a.Drop? || a.RelayUp? || a.RelayDown? || a.Deliver?
  }

  lemma AnswerKind(stop: Stop, q: Request)
    ensures Answer(stop, q).RegAnswer? <==> q.RegRequest?
    ensures Answer(stop, q).MemAnswer? <==> q.MemRequest?
  {
  }

  lemma PumpShrinks(w: World, a: Action)
    requires (a.Serve? || a.Drop?) && w.downToWindbg != []
    ensures Less(LeftOf(Do(w, a)), LeftOf(w))
  {
    RequestTaken(w.downToWindbg);
    AnswerKind(w.now, w.downToWindbg[0]);
    MessageAppended(w.upToBroker, Answer(w.now, w.downToWindbg[0]));
  }

  lemma RelayShrinks(w: World, a: Action)
    requires (a.RelayUp? && w.upToBroker != []) || (a.RelayDown? && w.downToBroker != [])
    ensures Less(LeftOf(Do(w, a)), LeftOf(w))
  {
    if a.RelayUp? {
      MessageTaken(w.upToBroker);
      MessageAppended(w.upToIda, w.upToBroker[0]);
    } else {
      RequestTaken(w.downToBroker);
      RequestAppended(w.downToWindbg, w.downToBroker[0]);
    }
  }

  lemma DeliveryShrinks(w: World, outcome: Outcome, lost: seq<Request>)
    requires Tended(w, lost) && w.upToIda != []
    ensures Less(LeftOf(Do(w, Deliver(outcome))), LeftOf(w))
  {
    var m := w.upToIda[0];
    assert m in Flight(w);
    var requests := DeliveredQueues(w, outcome);
    if !m.PcUpdate? {
      AnswersLeadToMemory(w.node, m);
      OutcomeIsIgnored(w.node, m, outcome);
    }
    TakenShrinks(w, Do(w, Deliver(outcome)), requests);
  }

  lemma TakenShrinks(w: World, w': World, requests: seq<Request>)
    requires w.upToIda != [] && w'.upToIda == w.upToIda[1..] && w'.upToBroker == w.upToBroker
    requires w'.downToWindbg == w.downToWindbg && w'.downToBroker == w.downToBroker + requests
    requires !w.upToIda[0].PcUpdate? ==> forall q :: q in requests ==> q.MemRequest?
    requires w.upToIda[0].MemAnswer? ==> requests == []
    ensures Less(LeftOf(w'), LeftOf(w))
  {
    MessageTaken(w.upToIda);
    RequestsJoined(w.downToBroker, requests);
  }

  /** An answer leads to memory requests only, and a memory answer to none. */
  lemma AnswersLeadToMemory(node: Node, m: Message)
    requires Fit(node) && !m.PcUpdate? && Genuine(m)
    ensures forall q :: q in Handle(node, m, Unmapped).1 ==> q.MemRequest?
    ensures m.MemAnswer? ==> Handle(node, m, Unmapped).1 == []
  {
    var (node', requests) := Handle(node, m, Unmapped);
    AnswerIsStep(node, m);
    forall q | q in requests ensures q.MemRequest? {
      assert Follows(node, node', m, q);
    }
  }

  /** Each hop leaves less to do, whatever the order. */
  lemma TrafficShrinks(w: World, a: Action, lost: seq<Request>)
    requires Tended(w, lost) && Enabled(w, a) && MovesTraffic(a)
    ensures Less(LeftOf(Do(w, a)), LeftOf(w))
  {
    match a {
      case Serve => PumpShrinks(w, a);
      case Drop => PumpShrinks(w, a);
      case RelayUp => RelayShrinks(w, a);
      case RelayDown => RelayShrinks(w, a);
      case Deliver(outcome) => DeliveryShrinks(w, outcome, lost);
    }
  }

  /** While anything is in transit, some hop is enabled. */
  function NextHop(w: World): Action
  {
    if w.upToIda != [] then Deliver(Unmapped)
    else if w.upToBroker != [] then RelayUp
    else if w.downToWindbg != [] then Serve
    else RelayDown
  }

  /** From every state that a run reaches, hops without a drop bring all traffic to an end. */
  lemma {:induction false} TrafficEnds(w: World, lost: seq<Request>) returns (actions: seq<Action>)
    requires Tended(w, lost)
    ensures P.EnabledRun(w, actions) && forall a :: a in actions ==> MovesTraffic(a) && !a.Drop?
    ensures Flight(P.RunWorld(w, actions)) == [] && Requests(P.RunWorld(w, actions)) == []
    decreases LeftOf(w).updates, LeftOf(w).registers, LeftOf(w).memory
  {
    if Flight(w) == [] && Requests(w) == [] {
      actions := [];
    } else {
      var a := NextHop(w);
      TrafficShrinks(w, a, lost);
      StepTends(w, a, lost);
      var rest := TrafficEnds(Do(w, a), lost + Loses(w, a));
      actions := [a] + rest;
      HopFirst(w, a, rest);
    }
  }

  lemma {:induction false} RunFirst(w: World, a: Action, rest: seq<Action>)
    ensures P.RunWorld(w, [a] + rest) == P.RunWorld(Do(w, a), rest)
    decreases |rest|
  {
    var actions := [a] + rest;
    if rest == [] {
      assert actions[..0] == [];
      assert P.RunWorld(w, actions[..|actions| - 1]) == w;
    } else {
      RunFirst(w, a, rest[..|rest| - 1]);
      assert actions[..|actions| - 1] == [a] + rest[..|rest| - 1];
    }
  }

  lemma HopFirst(w: World, a: Action, rest: seq<Action>)
    requires Enabled(w, a) && P.EnabledRun(Do(w, a), rest)
    ensures P.EnabledRun(w, [a] + rest) && P.RunWorld(w, [a] + rest) == P.RunWorld(Do(w, a), rest)
  {
    var actions := [a] + rest;
    RunFirst(w, a, rest);
    forall k | 0 <= k < |actions| ensures Enabled(P.RunWorld(w, actions[..k]), actions[k]) {
      EnabledAt(w, a, rest, actions, k);
    }
  }

  lemma EnabledAt(w: World, a: Action, rest: seq<Action>, actions: seq<Action>, k: nat)
    requires Enabled(w, a) && P.EnabledRun(Do(w, a), rest) && actions == [a] + rest && k < |actions|
    ensures Enabled(P.RunWorld(w, actions[..k]), actions[k])
  {
    if k == 0 {
      assert actions[..0] == [];
    } else {
      RunFirst(w, a, rest[..k - 1]);
      assert actions[..k] == [a] + rest[..k - 1] && actions[k] == rest[k - 1];
    }
  }
}
