/** The three processes, their links, and what holds of them between actions. */
module ProtocolModel {
  import opened Basics
  import opened Values
  import opened RecoveryModel
  import opened RecoveryRuns
  import opened IdaNode
  import opened Target
  import A = EntryArguments
  import TL = TrueLocals
  import TA = TrueArguments

  /**
    `now` is where the target is stopped; `log[k]` is the stop at which `pc_seq` k + 1 was
    drawn, and `announced` the newest number that left in an update. `up` links lead to
    IDA, `down` links to WinDbg, each through the broker.
   */
  datatype World = World(
    now: Stop,
    log: seq<Stop>,
    announced: nat,
    upToBroker: seq<Message>,
    upToIda: seq<Message>,
    downToBroker: seq<Request>,
    downToWindbg: seq<Request>,
    node: Node)

  datatype Action =
    | Move(stop: Stop)          // the target runs and stops somewhere else; nobody is told
    | Draw                      // a `pc_seq` is taken for the current stop
    | Send                      // the `pc_update` of the number drawn last leaves
    | Serve                     // the pump answers the next request
    | Drop                      // the pump reads a request but sends no answer
    | RelayUp                   // the broker forwards one message to IDA
    | RelayDown                 // the broker forwards one request to WinDbg
    | Deliver(outcome: Outcome) // IDA handles the next message

  /** Locals have distinct indexes, variables distinct names, and all are of one function. */
  ghost predicate LegalOutcome(outcome: Outcome)
  {
    match outcome
    case Enumerated(functionEa, vs, _, _, _) =>
      DistinctIndexes(Locals(vs)) && TA.DistinctNames(vs) && A.OwnVariables(vs, functionEa)
    case RecoveryFailed(functionEa, vs, _) => TA.DistinctNames(vs) && A.OwnVariables(vs, functionEa)
    case _ => true
  }

  ghost predicate Enabled(w: World, a: Action)
  {
    match a
    case Send => w.announced < |w.log|
    case Serve => w.downToWindbg != []
    case Drop => w.downToWindbg != []
    case RelayUp => w.upToBroker != []
    case RelayDown => w.downToBroker != []
    case Deliver(outcome) => w.upToIda != [] && LegalOutcome(outcome)
    case _ => true
  }

  function Drawn(w: World): World
  {
    w.(log := w.log + [w.now])
  }

  function Sent(w: World): World
  {
    if w.log == [] then w
    else w.(announced := |w.log|, upToBroker := w.upToBroker + [PcUpdate(|w.log|, w.log[|w.log| - 1].pc)])
  }

  /** IDA handles one message; the requests it issues are queued for the broker. */
  function Handle(node: Node, m: Message, outcome: Outcome): (Node, seq<Request>)
  {
    match m
    case PcUpdate(pcSeq, pc) => HandlePcUpdate(node, pcSeq, Hex(pc), outcome)
    case RegAnswer(r) => HandleReg(node, r)
    case MemAnswer(r) => (HandleMem(node, r), [])
  }

  function Do(w: World, a: Action): World
  {
    match a
    case Move(stop) => w.(now := stop)
    case Draw => Drawn(w)
    case Send => Sent(w)
    case Serve =>
      if w.downToWindbg == [] then w
      else w.(downToWindbg := w.downToWindbg[1..], upToBroker := w.upToBroker + [Answer(w.now, w.downToWindbg[0])])
    case Drop => if w.downToWindbg == [] then w else w.(downToWindbg := w.downToWindbg[1..])
    case RelayUp =>
      if w.upToBroker == [] then w else w.(upToBroker := w.upToBroker[1..], upToIda := w.upToIda + [w.upToBroker[0]])
    case RelayDown =>
      if w.downToBroker == [] then w
      else w.(downToBroker := w.downToBroker[1..], downToWindbg := w.downToWindbg + [w.downToBroker[0]])
    case Deliver(outcome) =>
      if w.upToIda == [] then w
      else
        var (node, requests) := Handle(w.node, w.upToIda[0], outcome);
        w.(upToIda := w.upToIda[1..], node := node, downToBroker := w.downToBroker + requests)
  }

  // ---------------------------------------------------------------- the invariant

  /** The context IDA is in; 0 before the first `pc_update`. */
  function Current(node: Node): nat
  {
    if node.planner.pcSeq.Some? then node.planner.pcSeq.value else 0
  }

  /** Messages in delivery order, oldest first. */
  function Flight(w: World): seq<Message>
  {
    w.upToIda + w.upToBroker
  }

  function Requests(w: World): seq<Request>
  {
    w.downToWindbg + w.downToBroker
  }

  /**
    Seen from context `s`: updates arrive in order, up to the newest number announced, and
    an answer that will meet its own context tells the truth about the stop announced for it.
   */
  ghost predicate InOrder(log: seq<Stop>, newest: nat, s: nat, flight: seq<Message>)
    decreases |flight|
  {
    if flight == [] then s == newest
    else match flight[0]
      case PcUpdate(q, pc) => s < q <= |log| && pc == log[q - 1].pc && InOrder(log, newest, q, flight[1..])
      case _ =>
        && (flight[0].r.pcSeq == Some(s) ==> 1 <= s <= |log| && Truthful(log[s - 1], flight[0]))
        && InOrder(log, newest, s, flight[1..])
  }

  lemma {:induction false} AppendAnswer(log: seq<Stop>, newest: nat, s: nat, flight: seq<Message>, m: Message)
    requires InOrder(log, newest, s, flight) && !m.PcUpdate?
    requires m.r.pcSeq == Some(newest) ==> 1 <= newest <= |log| && Truthful(log[newest - 1], m)
    ensures InOrder(log, newest, s, flight + [m])
    decreases |flight|
  {
    var longer := flight + [m];
    if flight == [] {
      assert longer[1..] == [];
    } else {
      assert longer[0] == flight[0] && longer[1..] == flight[1..] + [m];
      AppendAnswer(log, newest, if flight[0].PcUpdate? then flight[0].pcSeq else s, flight[1..], m);
    }
  }

  /** A number that is drawn and not announced changes nothing in flight. */
  lemma {:induction false} LongerLogInOrder(log: seq<Stop>, newest: nat, s: nat, flight: seq<Message>, stop: Stop)
    requires InOrder(log, newest, s, flight)
    ensures InOrder(log + [stop], newest, s, flight)
    decreases |flight|
  {
    if flight != [] {
      LongerLogInOrder(log, newest, if flight[0].PcUpdate? then flight[0].pcSeq else s, flight[1..], stop);
    }
  }

  lemma {:induction false} AppendUpdate(log: seq<Stop>, newest: nat, s: nat, flight: seq<Message>)
    requires InOrder(log, newest, s, flight) && newest < |log|
    ensures InOrder(log, |log|, s, flight + [PcUpdate(|log|, log[|log| - 1].pc)])
    decreases |flight|
  {
    var m := PcUpdate(|log|, log[|log| - 1].pc);
    var longer := flight + [m];
    if flight == [] {
      assert longer[0] == m && longer[1..] == [];
    } else {
      assert longer[0] == flight[0] && longer[1..] == flight[1..] + [m];
      AppendUpdate(log, newest, if flight[0].PcUpdate? then flight[0].pcSeq else s, flight[1..]);
    }
  }

  /** Both planners are in the same context and keep their own invariants. */
  ghost predicate NodeGood(node: Node)
  {
    && Good(node.planner) && A.OnlyAtEntry(node.core) && A.RowsOfEntry(node.core) && ArgumentIds(node.core)
    && (node.planner.pcSeq.Some? <==> node.core.context.Some?)
    && (node.core.context.Some? ==> node.core.context.value.pcSeq == Current(node))
  }

  ghost predicate LocalsTrue(log: seq<Stop>, node: Node)
  {
    && Current(node) <= |log|
    && (node.planner.pcSeq.Some? ==> 1 <= Current(node) && TL.AllTrue(log[Current(node) - 1], node.planner))
    && (node.planner.pcSeq.None? ==> node.planner.records == map[])
  }

  /** The number of the context for which the argument rows were rebuilt last; 0 if they never were. */
  function PlannedSeq(node: Node): nat
  {
    if node.planned.Some? then node.planned.value.pcSeq else 0
  }

  ghost predicate ArgumentsTrue(log: seq<Stop>, node: Node)
  {
    && PlannedSeq(node) <= |log| && TA.DistinctRows(node.core.rows)
    && (forall i :: 0 <= i < |node.core.rows| && node.core.rows[i].status == Fresh ==>
          1 <= PlannedSeq(node) && ArgumentShowsAt(log, PlannedSeq(node), node.core.rows[i]))
    && (node.core.pending != map[] ==>
          PlannedSeq(node) == Current(node) && 1 <= Current(node) && Current(node) <= |log|
            && TA.PendingTrue(log[Current(node) - 1], node.core))
  }

  ghost predicate AnnouncedPc(log: seq<Stop>, pcSeq: nat, runtimePc: string)
  {
    1 <= pcSeq <= |log| && runtimePc == Hex(log[pcSeq - 1].pc)
  }

  /** Fresh argument rows belong to the function at whose entry the rows were rebuilt. */
  ghost predicate FreshAreOfEntry(node: Node)
  {
    forall i :: 0 <= i < |node.core.rows| && node.core.rows[i].status == Fresh ==>
      node.planned.Some? && node.planned.value.atEntry
        && node.core.rows[i].v.functionEa == node.planned.value.functionEa
  }

  /** Contexts carry the PC that was announced under their number. */
  ghost predicate Placed(log: seq<Stop>, node: Node)
  {
    && (node.planner.pcSeq.Some? ==> AnnouncedPc(log, Current(node), node.planner.runtimePc))
    && (node.planned.Some? ==> AnnouncedPc(log, PlannedSeq(node), node.planned.value.runtimePc))
    && FreshAreOfEntry(node)
    && (node.core.pending != map[] ==> node.planned == node.core.context)
  }

  ghost predicate ArgumentShowsAt(log: seq<Stop>, s: nat, row: A.Row)
  {
    1 <= s <= |log| && ArgumentShows(log[s - 1], row.v, row.value)
  }

  /** A stack-argument message of the current context comes after its register answer, and agrees with the table. */
  ghost predicate Linked(core: A.Core, pcSeq: nat, id: string, address: string)
  {
    core.context.Some? && pcSeq == core.context.value.pcSeq && !IsLocalId(id) ==>
      ArgRegId(pcSeq) !in core.pending && (id in core.pending ==> address == core.pending[id].address)
  }

  ghost predicate RequestOk(node: Node, q: Request)
  {
    && 1 <= q.pcSeq <= Current(node)
    && (q.MemRequest? ==> q.address != "" && Linked(node.core, q.pcSeq, q.id, q.address)
                          && (LinkedTo(node.core, q.pcSeq, q.id) ==> q.size == node.core.pending[q.id].size))
  }

  predicate LinkedTo(core: A.Core, pcSeq: nat, id: string)
  {
    core.context.Some? && pcSeq == core.context.value.pcSeq && !IsLocalId(id) && id in core.pending
  }

  ghost predicate MessageOk(node: Node, m: Message)
  {
    m.PcUpdate? ||
    (&& m.r.pcSeq.Some? && 0 <= m.r.pcSeq.value <= Current(node) && m.r.id.Some?
     && (m.MemAnswer? ==> m.r.address != "" && Linked(node.core, m.r.pcSeq.value, m.r.id.value, m.r.address)
                          && (LinkedTo(node.core, m.r.pcSeq.value, m.r.id.value) ==>
                             TA.Fits(node.core.pending[m.r.id.value], m.r))))
  }

  ghost predicate Safe(w: World)
  {
    && NodeGood(w.node) && LocalsTrue(w.log, w.node) && ArgumentsTrue(w.log, w.node) && Placed(w.log, w.node)
    && w.announced <= |w.log| && InOrder(w.log, w.announced, Current(w.node), Flight(w))
    && (forall q :: q in Requests(w) ==> RequestOk(w.node, q))
    && (forall m :: m in Flight(w) ==> MessageOk(w.node, m))
  }
}
