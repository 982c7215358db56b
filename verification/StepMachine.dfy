/**
  The asynchronous `!dvs_step` machine of the WinDbg extension. Its calls into the
  debugger and the socket appear as outcomes carried by the events, and what it does
  is written to a log of effects, from which steps and updates are counted.
 */
module StepModel {
  import opened Basics

  type Client = int

  type Word = n: nat | n < WORD

  function Succ(n: Word): Word
  {
    if n + 1 == WORD then 0 else n + 1
  }

  datatype Effect =
    | Accepted(mode: char, count: nat) // a step sequence begins
    | AddRef(c: Client)
    | Release(c: Client)
    | Initiated(mode: char)            // the engine was told to step
    | Drawn(pcSeq: nat)                // a number was taken from the counter
    | Sent(pcSeq: nat, stepping: bool) // a `pc_update` left, after a step or for `!dvs_pc`
    | Pumped                           // requests were served after an update
    | Polled                           // requests were served by `!dvs_poll`
    | Completed                        // the sequence reported completion

  datatype Machine = Machine(
    connected: bool,
    nextPcSeq: Word,
    pending: bool,
    inProgress: bool,
    mode: char,
    remaining: nat,
    client: Option<Client>,
    log: seq<Effect>)

  /** What the environment does to one attempt to send an update. */
  datatype Attempt = Attempt(pcRead: bool, built: bool, sent: bool, connectedAfterPump: bool)

  datatype Event =
    | Connect(ok: bool)
    | Disconnect
    | Pc(attempt: Attempt)
    | Poll(connectedAfter: bool)
    | StepCommand(c: Client, parsed: Option<(char, nat)>, contextRead: bool, stepOk: bool)
    | Accessible(statusRead: bool, broken: bool, attempt: Attempt, stepOk: bool)
    | Inaccessible
    | Inactive
    | Unload

  const INITIAL := Machine(false, 1, false, false, '\0', 0, None, [])

  function Write(m: Machine, e: Effect): Machine
  {
    m.(log := m.log + [e])
  }

  function Clear(m: Machine): Machine
  {
    var cleared := m.(pending := false, inProgress := false, mode := '\0', remaining := 0, client := None);
    if m.client.Some? then Write(cleared, Release(m.client.value)) else cleared
  }

  /** `DvsSendPcUpdateAndPump`: the number is used up even if the update cannot be built or sent. */
  function SendUpdate(m: Machine, stepping: bool, a: Attempt): (bool, Machine)
  {
    if !m.connected || !a.pcRead then (false, m)
    else
      var drawn := Write(m.(nextPcSeq := Succ(m.nextPcSeq)), Drawn(m.nextPcSeq));
      if !a.built then (false, drawn)
      else if !a.sent then (false, drawn.(connected := false))
      else (true, Write(Write(drawn, Sent(m.nextPcSeq, stepping)), Pumped).(connected := a.connectedAfterPump))
  }

  function Initiate(m: Machine, stepOk: bool): (bool, Machine)
  {
    if !m.pending || m.inProgress || m.remaining == 0 || m.client.None? then (false, m)
    else if !stepOk then (false, Clear(m))
    else (true, Write(m.(remaining := m.remaining - 1, inProgress := true), Initiated(m.mode)))
  }

  function PostStep(m: Machine, statusRead: bool, broken: bool, a: Attempt, stepOk: bool): Machine
  {
    if !m.pending || !m.inProgress || m.client.None? then m
    else if !statusRead then Clear(m)
    else if !broken then m
    else
      var (ok, sent) := SendUpdate(m.(inProgress := false), true, a);
      if !ok then Clear(sent)
      else if sent.remaining > 0 then Initiate(sent, stepOk).1
      else Clear(Write(sent, Completed))
  }

  predicate ValidArgs(parsed: Option<(char, nat)>)
  {
    parsed.Some? && LowerChar(parsed.value.0) in {'p', 't'} && 1 <= parsed.value.1 <= 1000
  }

  /** The sequence is set up: the client is referenced and nothing is initiated yet. */
  function Accept(m: Machine, c: Client, mode: char, count: nat): Machine
  {
    Write(Write(m.(pending := true, inProgress := false, mode := mode, remaining := count, client := Some(c)),
                AddRef(c)), Accepted(mode, count))
  }

  function StepRequest(m: Machine, c: Client, parsed: Option<(char, nat)>, contextRead: bool, stepOk: bool): Machine
  {
    if !ValidArgs(parsed) || !m.connected || m.pending || !contextRead then m
    else Initiate(Accept(m, c, LowerChar(parsed.value.0), parsed.value.1), stepOk).1
  }

  function Step(m: Machine, ev: Event): Machine
  {
    match ev
    case Connect(ok) => m.(connected := ok)
    case Disconnect => Clear(m).(connected := false)
    case Pc(a) => SendUpdate(m, false, a).1
    case Poll(after) => if m.connected then Write(m.(connected := after), Polled) else m
    case StepCommand(c, parsed, contextRead, stepOk) => StepRequest(m, c, parsed, contextRead, stepOk)
    case Accessible(statusRead, broken, a, stepOk) => PostStep(m, statusRead, broken, a, stepOk)
    case Inaccessible => m
    case Inactive => Clear(m)
    case Unload => Clear(m).(connected := false)
  }

  function Run(evs: seq<Event>): Machine
    decreases |evs|
  {
    if evs == [] then INITIAL else Step(Run(evs[..|evs| - 1]), evs[|evs| - 1])
  }

  // ---------------------------------------------------------------- accounts

  /**
    The newest sequence: its mode, and how many steps it asked for, initiated and
    announced. `draws` counts all numbers.
   */
  datatype Account = Account(mode: char, count: nat, initiated: nat, sent: nat, draws: nat)

  function Book(a: Account, e: Effect): Account
  {
    match e
    case Accepted(mode, count) => Account(mode, count, 0, 0, a.draws)
    case Initiated(_) => a.(initiated := a.initiated + 1)
    case Sent(_, stepping) => if stepping then a.(sent := a.sent + 1) else a
    case Drawn(_) => a.(draws := a.draws + 1)
    case _ => a
  }

  function Accounts(log: seq<Effect>): Account
  {
    if log == [] then Account('\0', 0, 0, 0, 0) else Book(Accounts(log[..|log| - 1]), log[|log| - 1])
  }

  /** References taken on `c` minus references given back. */
  function References(log: seq<Effect>, c: Client): int
  {
    if log == [] then 0
    else
      References(log[..|log| - 1], c)
      + (if log[|log| - 1] == AddRef(c) then 1 else if log[|log| - 1] == Release(c) then -1 else 0)
  }

  /** The number in the counter after `n` increments from 0. */
  function Numbered(n: nat): Word
  {
    if n == 0 then 0 else Succ(Numbered(n - 1))
  }

  lemma {:induction false} NumberedWraps(n: nat)
    ensures Numbered(n) == n % WORD
  {
    if n > 0 {
      NumberedWraps(n - 1);
    }
  }

  /** What each effect promises about the log before it. */
  ghost predicate EntryOk(past: seq<Effect>, e: Effect)
  {
    var a := Accounts(past);
    match e
    case Accepted(mode, count) => mode in {'p', 't'} && 1 <= count <= 1000
    case Completed => a.initiated == a.count && a.sent == a.count && 1 <= a.count <= 1000
    case Initiated(mode) => mode == a.mode && a.initiated < a.count && a.sent == a.initiated
    case Drawn(s) => s == Numbered(1 + a.draws)
    case Sent(s, stepping) => past != [] && past[|past| - 1] == Drawn(s) && (stepping ==> a.sent + 1 == a.initiated)
    case Pumped => past != [] && past[|past| - 1].Sent?
    case Release(c) => References(past, c) == 1
    case AddRef(c) => forall d :: References(past, d) == 0
    case Polled => true
  }

  ghost predicate LogOk(log: seq<Effect>)
  {
    log == [] || (LogOk(log[..|log| - 1]) && EntryOk(log[..|log| - 1], log[|log| - 1]))
  }

  lemma Appended(log: seq<Effect>, e: Effect)
    ensures Accounts(log + [e]) == Book(Accounts(log), e)
    ensures forall c ::
            References(log + [e], c) == References(log, c)
            + (if e == AddRef(c) then 1 else if e == Release(c) then -1 else 0)
    ensures LogOk(log) && EntryOk(log, e) ==> LogOk(log + [e])
  {
    assert (log + [e])[..|log|] == log;
  }

  lemma {:induction false} EveryEntryOk(log: seq<Effect>, j: nat)
    requires LogOk(log) && j < |log|
    ensures LogOk(log[..j]) && EntryOk(log[..j], log[j])
    decreases |log|
  {
    var init := log[..|log| - 1];
    if j < |init| {
      EveryEntryOk(init, j);
      assert init[..j] == log[..j];
    }
  }

  // ---------------------------------------------------------------- the invariant

  /** One reference is held, on the step client, exactly while there is one. */
  ghost predicate OneReference(m: Machine)
  {
    forall c :: References(m.log, c) == if m.client == Some(c) then 1 else 0
  }

  ghost predicate Recorded(m: Machine)
  {
    LogOk(m.log) && OneReference(m) && m.nextPcSeq == Numbered(1 + Accounts(m.log).draws)
  }

  ghost predicate Idle(m: Machine)
  {
    !m.pending && !m.inProgress && m.client.None? && m.remaining == 0
  }

  /** Every step that was asked for is either initiated or remaining. */
  ghost predicate Conserved(m: Machine)
  {
    var a := Accounts(m.log);
    && m.pending && m.client.Some? && m.mode == a.mode
    && a.initiated + m.remaining == a.count && 1 <= a.count <= 1000
  }

  /** The target runs: one initiated step is not yet announced. */
  ghost predicate Running(m: Machine)
  {
    Conserved(m) && m.inProgress && Accounts(m.log).sent + 1 == Accounts(m.log).initiated
  }

  /** Within one notification: every initiated step is announced. */
  ghost predicate Stopped(m: Machine)
  {
    Conserved(m) && !m.inProgress && Accounts(m.log).sent == Accounts(m.log).initiated
  }

  ghost predicate Inv(m: Machine)
  {
    Recorded(m) && (Idle(m) || Running(m))
  }

  lemma ClearKeeps(m: Machine)
    requires Recorded(m)
    ensures Recorded(Clear(m)) && Idle(Clear(m)) && Accounts(Clear(m).log) == Accounts(m.log)
  {
    if m.client.Some? {
      Appended(m.log, Release(m.client.value));
    }
  }

  /** Writing an effect that neither draws nor references keeps the records. */
  lemma WriteKeeps(m: Machine, e: Effect)
    requires Recorded(m) && EntryOk(m.log, e) && !e.Drawn? && !e.AddRef? && !e.Release?
    ensures Recorded(Write(m, e)) && Accounts(Write(m, e).log) == Book(Accounts(m.log), e)
  {
    Appended(m.log, e);
  }

  lemma DrawKeeps(m: Machine)
    requires Recorded(m)
    ensures var drawn := Write(m.(nextPcSeq := Succ(m.nextPcSeq)), Drawn(m.nextPcSeq));
            Recorded(drawn) && Accounts(drawn.log) == Book(Accounts(m.log), Drawn(m.nextPcSeq))
  {
    Appended(m.log, Drawn(m.nextPcSeq));
  }

  /** Nothing of the step sequence changed, and `extra` more of its steps are announced. */
  ghost predicate Announces(m: Machine, m': Machine, extra: nat)
  {
    && Recorded(m') && m' == m.(connected := m'.connected, nextPcSeq := m'.nextPcSeq, log := m'.log)
    && var a, a' := Accounts(m.log), Accounts(m'.log);
       a'.mode == a.mode && a'.count == a.count && a'.initiated == a.initiated && a'.sent == a.sent + extra
  }

  lemma SentKeeps(m: Machine, drawn: Machine, stepping: bool)
    requires Announces(m, drawn, 0) && drawn.log != [] && drawn.log[|drawn.log| - 1] == Drawn(m.nextPcSeq)
    requires stepping ==> Accounts(m.log).sent + 1 == Accounts(m.log).initiated
    ensures Announces(m, Write(Write(drawn, Sent(m.nextPcSeq, stepping)), Pumped), if stepping then 1 else 0)
  {
    var sent := Write(drawn, Sent(m.nextPcSeq, stepping));
    WriteKeeps(drawn, Sent(m.nextPcSeq, stepping));
    assert sent.log[|sent.log| - 1].Sent?;
    WriteKeeps(sent, Pumped);
  }

  /** Sending books one announcement if it succeeds, and none if it fails. */
  lemma SendKeeps(m: Machine, stepping: bool, a: Attempt)
    requires Recorded(m) && (stepping ==> Accounts(m.log).sent + 1 == Accounts(m.log).initiated)
    ensures Announces(m, SendUpdate(m, stepping, a).1, if SendUpdate(m, stepping, a).0 && stepping then 1 else 0)
  {
    var drawn := Write(m.(nextPcSeq := Succ(m.nextPcSeq)), Drawn(m.nextPcSeq));
    DrawAnnouncesNothing(m, drawn);
    SentKeeps(m, drawn, stepping);
    ReconnectAnnounces(m, drawn, 0, false);
    var pumped := Write(Write(drawn, Sent(m.nextPcSeq, stepping)), Pumped);
    ReconnectAnnounces(m, pumped, if stepping then 1 else 0, a.connectedAfterPump);
  }

  lemma ReconnectAnnounces(m: Machine, m': Machine, extra: nat, connected: bool)
    requires Announces(m, m', extra)
    ensures Announces(m, m'.(connected := connected), extra)
  {
  }

  lemma DrawAnnouncesNothing(m: Machine, drawn: Machine)
    requires Recorded(m) && drawn == Write(m.(nextPcSeq := Succ(m.nextPcSeq)), Drawn(m.nextPcSeq))
    ensures Announces(m, drawn, 0) && drawn.log != [] && drawn.log[|drawn.log| - 1] == Drawn(m.nextPcSeq)
  {
    DrawKeeps(m);
  }

  lemma InitiateKeeps(m: Machine, stepOk: bool)
    requires Recorded(m) && Stopped(m) && m.remaining > 0
    ensures Inv(Initiate(m, stepOk).1)
  {
    ClearKeeps(m);
    Appended(m.log, Initiated(m.mode));
  }

  lemma PostStepKeeps(m: Machine, statusRead: bool, broken: bool, a: Attempt, stepOk: bool)
    requires Inv(m)
    ensures Inv(PostStep(m, statusRead, broken, a, stepOk))
  {
    ClearKeeps(m);
    if m.pending && statusRead && broken {
      var (ok, sent) := SendUpdate(m.(inProgress := false), true, a);
      SendKeeps(m.(inProgress := false), true, a);
      ClearKeeps(sent);
      if ok && sent.remaining > 0 {
        InitiateKeeps(sent, stepOk);
      } else if ok {
        Appended(sent.log, Completed);
        ClearKeeps(Write(sent, Completed));
      }
    }
  }

  lemma AcceptKeeps(m: Machine, c: Client, mode: char, count: nat)
    requires Recorded(m) && Idle(m) && mode in {'p', 't'} && 1 <= count <= 1000
    ensures Recorded(Accept(m, c, mode, count)) && Stopped(Accept(m, c, mode, count))
  {
    Appended(m.log, AddRef(c));
    Appended(m.log + [AddRef(c)], Accepted(mode, count));
  }

  lemma StepRequestKeeps(m: Machine, c: Client, parsed: Option<(char, nat)>, contextRead: bool, stepOk: bool)
    requires Inv(m)
    ensures Inv(StepRequest(m, c, parsed, contextRead, stepOk))
  {
    if ValidArgs(parsed) && m.connected && !m.pending && contextRead {
      AcceptKeeps(m, c, LowerChar(parsed.value.0), parsed.value.1);
      InitiateKeeps(Accept(m, c, LowerChar(parsed.value.0), parsed.value.1), stepOk);
    }
  }

  lemma PollKeeps(m: Machine, after: bool)
    requires Inv(m)
    ensures Inv(Write(m.(connected := after), Polled))
  {
    WriteKeeps(m.(connected := after), Polled);
  }

  lemma ConnectionKeeps(m: Machine, connected: bool)
    requires Inv(m)
    ensures Inv(m.(connected := connected))
  {
  }

  lemma ClearedIsIdle(m: Machine, connected: bool)
    requires Inv(m)
    ensures Inv(Clear(m)) && Inv(Clear(m).(connected := connected))
  {
    ClearKeeps(m);
  }

  lemma StepKeeps(m: Machine, ev: Event)
    requires Inv(m)
    ensures Inv(Step(m, ev))
  {
    match ev {
      case Connect(ok) => ConnectionKeeps(m, ok);
      case Disconnect => ClearedIsIdle(m, false);
      case Pc(a) => SendKeeps(m, false, a);
      case Poll(after) => PollKeeps(m, after);
      case StepCommand(c, parsed, contextRead, stepOk) => StepRequestKeeps(m, c, parsed, contextRead, stepOk);
      case Accessible(statusRead, broken, a, stepOk) => PostStepKeeps(m, statusRead, broken, a, stepOk);
      case Inaccessible =>
      case Inactive => ClearedIsIdle(m, false);
      case Unload => ClearedIsIdle(m, false);
    }
  }

  lemma {:induction false} RunKeeps(evs: seq<Event>)
    ensures Inv(Run(evs))
    decreases |evs|
  {
    if evs != [] {
      RunKeeps(evs[..|evs| - 1]);
      StepKeeps(Run(evs[..|evs| - 1]), evs[|evs| - 1]);
    }
  }

  // ---------------------------------------------------------------- the main results

  /** Between events: pending, in progress and holding the one client reference are the same thing. */
  lemma PendingIsInProgress(evs: seq<Event>)
    ensures var m := Run(evs);
            && m.pending == m.inProgress == m.client.Some?
            && forall c :: References(m.log, c) == if m.client == Some(c) then 1 else 0
  {
    RunKeeps(evs);
  }

  /** Between events no step of the newest sequence is lost or counted twice. */
  lemma StepsAreConserved(evs: seq<Event>)
    requires Run(evs).pending
    ensures var m := Run(evs);
            var a := Accounts(m.log);
            a.initiated + m.remaining == a.count && a.sent + 1 == a.initiated && 1 <= a.count <= 1000
  {
    RunKeeps(evs);
  }

  /** A sequence that reports completion initiated and announced exactly as many steps as were asked for. */
  lemma CompletedIsExact(evs: seq<Event>, j: nat)
    requires j < |Run(evs).log| && Run(evs).log[j] == Completed
    ensures var a := Accounts(Run(evs).log[..j]); a.initiated == a.count && a.sent == a.count && 1 <= a.count <= 1000
  {
    RunKeeps(evs);
    EveryEntryOk(Run(evs).log, j);
  }

  /** The engine is told to step only in the mode that the newest sequence was accepted with. */
  lemma EveryStepHasTheMode(evs: seq<Event>, j: nat)
    requires j < |Run(evs).log| && Run(evs).log[j].Initiated?
    ensures Run(evs).log[j].mode == Accounts(Run(evs).log[..j]).mode
    ensures Accounts(Run(evs).log[..j]).initiated < Accounts(Run(evs).log[..j]).count
  {
    RunKeeps(evs);
    EveryEntryOk(Run(evs).log, j);
  }

  /**
    `!dvs_step` starts a sequence exactly on a mode of either case, a count up to 1000, a
    connection, no sequence under way and an engine that answers; the first step has the
    mode that was asked for.
   */
  lemma StepStartsIff(m: Machine, c: Client, parsed: Option<(char, nat)>, contextRead: bool, stepOk: bool)
    requires Inv(m)
    ensures var m' := Step(m, StepCommand(c, parsed, contextRead, stepOk));
            if && parsed.Some? && parsed.value.0 in {'p', 'P', 't', 'T'} && 1 <= parsed.value.1 <= 1000
               && m.connected && !m.pending && contextRead && stepOk
            then
              var mode := if parsed.value.0 in {'p', 'P'} then 'p' else 't';
              && m'.log == m.log + [AddRef(c), Accepted(mode, parsed.value.1), Initiated(mode)]
              && m'.pending && m'.inProgress && m'.remaining == parsed.value.1 - 1
            else m'.pending == m.pending && forall k :: |m.log| <= k < |m'.log| ==> !m'.log[k].Initiated?
  {
    if ValidArgs(parsed) && m.connected && !m.pending && contextRead {
      var mode, count := LowerChar(parsed.value.0), parsed.value.1;
      assert m.log + [AddRef(c)] + [Accepted(mode, count)] + [Initiated(mode)] ==
        m.log + [AddRef(c), Accepted(mode, count), Initiated(mode)];
    }
  }

  /**
    The end of a session ends the sequence and gives the reference back; `!dvs_disconnect`
    and unloading also disconnect.
   */
  lemma SessionEndsSequence(m: Machine, ev: Event)
    requires Inv(m) && (ev.Disconnect? || ev.Inactive? || ev.Unload?)
    ensures var m' := Step(m, ev);
            && Idle(m') && (!ev.Inactive? ==> !m'.connected) && (ev.Inactive? ==> m'.connected == m.connected)
            && m'.log == if m.client.Some? then m.log + [Release(m.client.value)] else m.log
  {
  }

  /** A failure at the end of a step ends the sequence; an update that cannot be sent also ends the connection. */
  lemma FailureEndsSequence(m: Machine, a: Attempt, stepOk: bool)
    requires Inv(m) && m.pending
    ensures Idle(Step(m, Accessible(false, true, a, stepOk)))
    ensures !(m.connected && a.pcRead && a.built && a.sent) ==> Idle(Step(m, Accessible(true, true, a, stepOk)))
    ensures m.connected && a.pcRead && a.built && !a.sent ==> !Step(m, Accessible(true, true, a, stepOk)).connected
    ensures !stepOk ==> Idle(Step(m, Accessible(true, true, a, stepOk)))
  {
  }

  const SUCCESS: Attempt := Attempt(true, true, true, true)

  /** `k` steps end one after the other, and nothing fails. */
  function Rounds(k: nat): seq<Event>
  {
    seq(k, i => Accessible(true, true, SUCCESS, true))
  }

  function RunFrom(m: Machine, evs: seq<Event>): Machine
    decreases |evs|
  {
    if evs == [] then m else Step(RunFrom(m, evs[..|evs| - 1]), evs[|evs| - 1])
  }

  /** What the update at the end of a step adds to the log. */
  function Updated(m: Machine): seq<Effect>
  {
    m.log + [Drawn(m.nextPcSeq), Sent(m.nextPcSeq, true), Pumped]
  }

  lemma SuccessSends(m: Machine, stepping: Machine)
    requires m.connected && stepping == m.(inProgress := false)
    ensures SendUpdate(stepping, true, SUCCESS) ==
            (true, stepping.(nextPcSeq := Succ(m.nextPcSeq), connected := true, log := Updated(m)))
  {
    var s := m.nextPcSeq;
    assert m.log + [Drawn(s)] + [Sent(s, true)] + [Pumped] == m.log + [Drawn(s), Sent(s, true), Pumped];
  }

  /** The end of a step that succeeds announces it, and initiates the next one in the same mode. */
  lemma RoundContinues(m: Machine)
    requires Inv(m) && m.pending && m.connected && m.remaining > 0
    ensures var m' := Step(m, Accessible(true, true, SUCCESS, true));
            && m'.log == Updated(m) + [Initiated(m.mode)] && m'.remaining == m.remaining - 1
            && m'.connected && Inv(m') && m'.pending && Accounts(m'.log).count == Accounts(m.log).count
  {
    StepKeeps(m, Accessible(true, true, SUCCESS, true));
    SuccessSends(m, m.(inProgress := false));
    UpdateKeepsCount(m);
    Appended(Updated(m), Initiated(m.mode));
  }

  /** The end of the last step announces it and completes the sequence. */
  lemma RoundCompletes(m: Machine)
    requires Inv(m) && m.pending && m.connected && m.remaining == 0
    ensures var m' := Step(m, Accessible(true, true, SUCCESS, true));
            m'.log == Updated(m) + [Completed, Release(m.client.value)] && !m'.pending
  {
    SuccessSends(m, m.(inProgress := false));
    var c := m.client.value;
    assert Updated(m) + [Completed] + [Release(c)] == Updated(m) + [Completed, Release(c)];
  }

  lemma UpdateKeepsCount(m: Machine)
    ensures var a, a' := Accounts(m.log), Accounts(Updated(m));
            a'.count == a.count && a'.initiated == a.initiated
  {
    var log, s := m.log, m.nextPcSeq;
    Appended(log, Drawn(s));
    Appended(log + [Drawn(s)], Sent(s, true));
    Appended(log + [Drawn(s)] + [Sent(s, true)], Pumped);
    assert log + [Drawn(s)] + [Sent(s, true)] + [Pumped] == Updated(m);
  }

  lemma StartIsAccounted(log: seq<Effect>, c: Client, mode: char, count: nat)
    ensures Accounts(log + [AddRef(c), Accepted(mode, count), Initiated(mode)]).count == count
  {
    Appended(log, AddRef(c));
    Appended(log + [AddRef(c)], Accepted(mode, count));
    Appended(log + [AddRef(c)] + [Accepted(mode, count)], Initiated(mode));
    assert log + [AddRef(c)] + [Accepted(mode, count)] + [Initiated(mode)] ==
      log + [AddRef(c), Accepted(mode, count), Initiated(mode)];
  }

  lemma {:induction false} RoundsContinue(m: Machine, k: nat)
    requires Inv(m) && m.pending && m.connected && k <= m.remaining
    ensures var m' := RunFrom(m, Rounds(k));
            && Inv(m') && m'.pending && m'.connected && m'.remaining == m.remaining - k
            && Accounts(m'.log).count == Accounts(m.log).count
  {
    if k > 0 {
      RoundsContinue(m, k - 1);
      assert Rounds(k)[..k - 1] == Rounds(k - 1);
      RoundContinues(RunFrom(m, Rounds(k - 1)));
    }
  }

  /** A sequence of `count` steps completes after `count` steps have ended, when nothing fails. */
  lemma SequenceCompletes(m: Machine, c: Client, parsed: (char, nat))
    requires Inv(m) && m.connected && !m.pending && parsed.0 in {'p', 'P', 't', 'T'} && 1 <= parsed.1 <= 1000
    ensures var m' := RunFrom(Step(m, StepCommand(c, Some(parsed), true, true)), Rounds(parsed.1));
            && !m'.pending && |m'.log| >= 2 && m'.log[|m'.log| - 2] == Completed
            && Accounts(m'.log[..|m'.log| - 2]).count == parsed.1
            && Accounts(m'.log[..|m'.log| - 2]).initiated == parsed.1
  {
    var started := Step(m, StepCommand(c, Some(parsed), true, true));
    StepStartsIff(m, c, Some(parsed), true, true);
    StepKeeps(m, StepCommand(c, Some(parsed), true, true));
    StartIsAccounted(m.log, c, if parsed.0 in {'p', 'P'} then 'p' else 't', parsed.1);
    RoundsComplete(started, parsed.1);
  }

  /** From the first step on: the rounds that are left complete the sequence. */
  lemma RoundsComplete(m: Machine, count: nat)
    requires Inv(m) && m.pending && m.connected && count > 0 && m.remaining == count - 1
    requires Accounts(m.log).count == count
    ensures var m' := RunFrom(m, Rounds(count));
            && !m'.pending && |m'.log| >= 2 && m'.log[|m'.log| - 2] == Completed
            && Accounts(m'.log[..|m'.log| - 2]).count == count && Accounts(m'.log[..|m'.log| - 2]).initiated == count
  {
    RoundsContinue(m, count - 1);
    assert Rounds(count)[..count - 1] == Rounds(count - 1);
    LastRound(RunFrom(m, Rounds(count - 1)), count);
  }

  lemma LastRound(last: Machine, count: nat)
    requires Inv(last) && last.pending && last.connected && last.remaining == 0 && Accounts(last.log).count == count
    ensures var m' := Step(last, Accessible(true, true, SUCCESS, true));
            && !m'.pending && |m'.log| >= 2 && m'.log[|m'.log| - 2] == Completed
            && Accounts(m'.log[..|m'.log| - 2]).count == count && Accounts(m'.log[..|m'.log| - 2]).initiated == count
  {
    RoundCompletes(last);
    UpdateKeepsCount(last);
    var m' := Step(last, Accessible(true, true, SUCCESS, true));
    assert m'.log[..|m'.log| - 2] == Updated(last);
  }

  /** Requests are served only by `!dvs_poll` or right behind an update that was sent. */
  lemma PumpFollowsUpdate(evs: seq<Event>, j: nat)
    requires j < |Run(evs).log| && Run(evs).log[j] == Pumped
    ensures j > 0 && Run(evs).log[j - 1].Sent?
  {
    RunKeeps(evs);
    EveryEntryOk(Run(evs).log, j);
  }

  /** An update carries the ordinal of its draw, modulo the counter's width. */
  lemma SentNumber(log: seq<Effect>, j: nat)
    requires LogOk(log) && j < |log| && log[j].Sent?
    ensures log[j].pcSeq == Accounts(log[..j]).draws % WORD
  {
    DrawnBefore(log, j);
    NumberedWraps(Accounts(log[..j]).draws);
  }

  /** The effect before an update is its draw, which is counted. */
  lemma DrawnBefore(log: seq<Effect>, j: nat)
    requires LogOk(log) && j < |log| && log[j].Sent?
    ensures j > 0 && log[j].pcSeq == Numbered(Accounts(log[..j]).draws)
    ensures Accounts(log[..j]).draws == Accounts(log[..j - 1]).draws + 1
  {
    EveryEntryOk(log, j);
    EveryEntryOk(log, j - 1);
    PrefixBooked(log, j);
  }

  lemma PrefixBooked(log: seq<Effect>, j: nat)
    requires 0 < j <= |log|
    ensures Accounts(log[..j]) == Book(Accounts(log[..j - 1]), log[j - 1])
    ensures log[..j][|log[..j]| - 1] == log[j - 1]
  {
    assert log[..j] == log[..j - 1] + [log[j - 1]];
    Appended(log[..j - 1], log[j - 1]);
  }

  lemma {:induction false} DrawsGrow(log: seq<Effect>, i: nat, j: nat)
    requires i <= j <= |log|
    ensures Accounts(log[..i]).draws <= Accounts(log[..j]).draws
    decreases j
  {
    if i < j {
      DrawsGrow(log, i, j - 1);
      PrefixBooked(log, j);
    }
  }

  lemma LaterSentHasMoreDraws(log: seq<Effect>, i: nat, j: nat)
    requires LogOk(log) && i < j < |log| && log[i].Sent? && log[j].Sent?
    ensures Accounts(log[..i]).draws < Accounts(log[..j]).draws
  {
    EveryEntryOk(log, j);
    DrawnBefore(log, j);
    assert i < j - 1;
    DrawsGrow(log, i, j - 1);
  }

  lemma RemaindersIncreaseIff(a: nat, b: nat)
    requires a < b && b - a < WORD
    ensures a % WORD < b % WORD <==> a / WORD == b / WORD
  {
    var qa, qb := a / WORD, b / WORD;
    assert a == qa * WORD + a % WORD && b == qb * WORD + b % WORD;
    if qa != qb {
      assert qb == qa + 1;
    }
  }

  /**
    Of two updates that are less than a whole counter period apart, the later one has the
    larger `pc_seq` exactly if the 32-bit counter did not wrap between them.
   */
  lemma IncreaseIff(log: seq<Effect>, i: nat, j: nat)
    requires LogOk(log) && i < j < |log| && log[i].Sent? && log[j].Sent?
    requires Accounts(log[..j]).draws - Accounts(log[..i]).draws < WORD
    ensures log[i].pcSeq < log[j].pcSeq <==> Accounts(log[..i]).draws / WORD == Accounts(log[..j]).draws / WORD
  {
    SentNumber(log, i);
    SentNumber(log, j);
    LaterSentHasMoreDraws(log, i, j);
    RemaindersIncreaseIff(Accounts(log[..i]).draws, Accounts(log[..j]).draws);
  }

  lemma Increases(log: seq<Effect>, i: nat, j: nat)
    requires LogOk(log) && i < j < |log| && log[i].Sent? && log[j].Sent? && Accounts(log).draws < WORD
    ensures log[i].pcSeq < log[j].pcSeq
  {
    DrawsAreFewer(log, j);
    SentNumber(log, i);
    SentNumber(log, j);
    LaterSentHasMoreDraws(log, i, j);
    SmallNumbers(Accounts(log[..i]).draws, Accounts(log[..j]).draws);
  }

  lemma DrawsAreFewer(log: seq<Effect>, j: nat)
    requires j <= |log|
    ensures Accounts(log[..j]).draws <= Accounts(log).draws
  {
    assert log[..|log|] == log;
    DrawsGrow(log, j, |log|);
  }

  lemma SmallNumbers(a: nat, b: nat)
    requires a < b < WORD
    ensures a % WORD < b % WORD
  {
  }

  lemma PcSeqIncreasesIff(evs: seq<Event>, i: nat, j: nat)
    requires var log := Run(evs).log; i < j < |log| && log[i].Sent? && log[j].Sent?
    requires Accounts(Run(evs).log[..j]).draws - Accounts(Run(evs).log[..i]).draws < WORD
    ensures var log := Run(evs).log;
            log[i].pcSeq < log[j].pcSeq <==> Accounts(log[..i]).draws / WORD == Accounts(log[..j]).draws / WORD
  {
    RunKeeps(evs);
    IncreaseIff(Run(evs).log, i, j);
  }

  /** As long as fewer than 2^32 numbers were drawn, the updates of a run carry strictly increasing numbers. */
  lemma PcSeqIncreases(evs: seq<Event>, i: nat, j: nat)
    requires var log := Run(evs).log; i < j < |log| && log[i].Sent? && log[j].Sent? && Accounts(log).draws < WORD
    ensures Run(evs).log[i].pcSeq < Run(evs).log[j].pcSeq
  {
    RunKeeps(evs);
    Increases(Run(evs).log, i, j);
  }
}

/** A run long enough for the counter to wrap. */
module StepWrap {
  import opened Basics
  import opened StepModel

  /** A connection, and then `n` times `!dvs_pc`. */
  function PcEvents(n: nat): seq<Event>
  {
    if n == 0 then [Connect(true)] else PcEvents(n - 1) + [Pc(SUCCESS)]
  }

  function PcLog(n: nat): seq<Effect>
  {
    if n == 0 then [] else PcLog(n - 1) + [Drawn(Numbered(n)), Sent(Numbered(n), false), Pumped]
  }

  lemma {:induction false} PcRun(n: nat)
    ensures Run(PcEvents(n)) == INITIAL.(connected := true, nextPcSeq := Numbered(n + 1), log := PcLog(n))
  {
    if n == 0 {
      assert [Connect(true)][..0] == [] && Numbered(1) == 1;
    } else {
      PcRun(n - 1);
      var evs := PcEvents(n);
      assert evs[..|evs| - 1] == PcEvents(n - 1) && evs[|evs| - 1] == Pc(SUCCESS);
      var s := Numbered(n);
      assert PcLog(n - 1) + [Drawn(s)] + [Sent(s, false)] + [Pumped] == PcLog(n);
    }
  }

  lemma {:induction false} PcLogAt(n: nat, k: nat)
    requires 1 <= k <= n
    ensures |PcLog(n)| == 3 * n && PcLog(n)[3 * k - 2] == Sent(Numbered(k), false)
    decreases n
  {
    if n > 1 {
      PcLogAt(n - 1, if k < n then k else n - 1);
    } else {
      assert PcLog(0) == [];
    }
  }

  /** After 2^32 updates a later one carries a smaller number. */
  lemma CounterWraps() returns (evs: seq<Event>, i: nat, j: nat)
    ensures var log := Run(evs).log; i < j < |log| && log[i].Sent? && log[j].Sent? && log[j].pcSeq < log[i].pcSeq
  {
    evs, i, j := PcEvents(WORD), 3 * (WORD - 1) - 2, 3 * WORD - 2;
    PcRun(WORD);
    PcLogAt(WORD, WORD - 1);
    PcLogAt(WORD, WORD);
    NumberedWraps(WORD - 1);
    NumberedWraps(WORD);
  }
}

/** The extension's globals and callbacks, proved against the model. */
module StepMachine {
  import opened Basics
  import opened StepModel

  class Extension {
    var connected: bool
    var nextPcSeq: Word
    var stepPending: bool
    var stepInProgress: bool
    var stepMode: char
    var stepRemaining: nat
    var stepClient: Option<Client>
    ghost var log: seq<Effect>

    ghost function Value(): Machine
      reads this
    {
      Machine(connected, nextPcSeq, stepPending, stepInProgress, stepMode, stepRemaining, stepClient, log)
    }

    constructor ()
      ensures Value() == INITIAL && Inv(Value())
    {
      connected, nextPcSeq, stepPending, stepInProgress, stepMode := false, 1, false, false, '\0';
      stepRemaining, stepClient, log := 0, None, [];
    }

    method ClearPendingStep()
      modifies this
      ensures Value() == Clear(old(Value()))
    {
      stepPending := false;
      stepInProgress := false;
      stepMode := '\0';
      stepRemaining := 0;
      ReleaseStepClient();
    }

    method ReleaseStepClient()
      modifies this`stepClient, this`log
      ensures stepClient == None
      ensures log == if old(stepClient).Some? then old(log) + [Release(old(stepClient).value)] else old(log)
    {
      if stepClient.Some? {
        log := log + [Release(stepClient.value)];
        stepClient := None;
      }
    }

    method NextPcSeq() returns (pcSeq: Word)
      modifies this`nextPcSeq, this`log
      ensures pcSeq == old(nextPcSeq) && nextPcSeq == Succ(old(nextPcSeq)) && log == old(log) + [Drawn(pcSeq)]
    {
      pcSeq := nextPcSeq;
      nextPcSeq := Succ(nextPcSeq);
      log := log + [Drawn(pcSeq)];
    }

    method SendPcUpdateAndPump(stepping: bool, attempt: Attempt) returns (ok: bool)
      modifies this
      ensures (ok, Value()) == SendUpdate(old(Value()), stepping, attempt)
    {
      if !connected {
        return false;
      }
      if !attempt.pcRead {
        return false;
      }
      var pcSeq := NextPcSeq();
      if !attempt.built {
        return false;
      }
      if !attempt.sent {
        connected := false;
        return false;
      }
      log := log + [Sent(pcSeq, stepping)];
      log := log + [Pumped];
      connected := attempt.connectedAfterPump;
      return true;
    }

    method InitiateNextPendingStep(stepOk: bool) returns (ok: bool)
      modifies this
      ensures (ok, Value()) == Initiate(old(Value()), stepOk)
    {
      if !stepPending || stepInProgress || stepRemaining == 0 || stepClient.None? {
        return false;
      }
      if !stepOk {
        ClearPendingStep();
        return false;
      }
      stepRemaining := stepRemaining - 1;
      stepInProgress := true;
      log := log + [Initiated(stepMode)];
      return true;
    }

    method HandlePostStepAccessible(statusRead: bool, broken: bool, attempt: Attempt, stepOk: bool)
      modifies this
      ensures Value() == PostStep(old(Value()), statusRead, broken, attempt, stepOk)
    {
      if !stepPending || !stepInProgress || stepClient.None? {
        return;
      }
      if !statusRead {
        ClearPendingStep();
        return;
      }
      if !broken {
        return;
      }
      stepInProgress := false;
      var ok := SendPcUpdateAndPump(true, attempt);
      if !ok {
        ClearPendingStep();
        return;
      }
      if stepRemaining > 0 {
        ok := InitiateNextPendingStep(stepOk);
        return;
      }
      log := log + [Completed];
      ClearPendingStep();
    }

    method DvsStep(c: Client, parsed: Option<(char, nat)>, contextRead: bool, stepOk: bool) returns (ok: bool)
      modifies this
      ensures Value() == StepRequest(old(Value()), c, parsed, contextRead, stepOk)
      ensures ok <==> ValidArgs(parsed) && old(connected) && !old(stepPending) && contextRead && stepOk
    {
      if parsed.None? || LowerChar(parsed.value.0) !in {'p', 't'} || parsed.value.1 == 0 || parsed.value.1 > 1000 {
        return false;
      }
      if !connected {
        return false;
      }
      if stepPending {
        return false;
      }
      if !contextRead {
        return false;
      }
      stepClient := Some(c);
      log := log + [AddRef(c)];
      stepPending := true;
      stepInProgress := false;
      stepMode := LowerChar(parsed.value.0);
      stepRemaining := parsed.value.1;
      log := log + [Accepted(stepMode, parsed.value.1)];
      ok := InitiateNextPendingStep(stepOk);
    }

    /** Every command and notification is one step of the model, whose runs keep `Inv` (`RunKeeps`). */
    method Handle(ev: Event)
      modifies this
      ensures Value() == Step(old(Value()), ev)
    {
      match ev {
        case Connect(ok) => connected := ok;
        case Disconnect =>
          ClearPendingStep();
          connected := false;
        case Pc(attempt) =>
          var _ := SendPcUpdateAndPump(false, attempt);
        case Poll(after) =>
          if connected {
            connected := after;
            log := log + [Polled];
          }
        case StepCommand(c, parsed, contextRead, stepOk) =>
          var _ := DvsStep(c, parsed, contextRead, stepOk);
        case Accessible(statusRead, broken, attempt, stepOk) =>
          HandlePostStepAccessible(statusRead, broken, attempt, stepOk);
        case Inaccessible =>
        case Inactive => ClearPendingStep();
        case Unload =>
          ClearPendingStep();
          connected := false;
      }
    }
  }
}
