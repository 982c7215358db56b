/**
  The step machine drives the protocol: its effects move the target, announce stops and
  serve requests. Announcing before serving and numbering in order are proved here of
  the machine, not assumed of the protocol.
 */
module SteppedTarget {
  import opened Basics
  import opened Target
  import opened ProtocolModel
  import opened Protocol
  import S = StepModel

  datatype Joint = Joint(m: S.Machine, w: World)

  /**
    The extension handles a command or notification, or the broker and IDA do something.
    `stop` is where a step that is initiated will end, and `served` says which of the
    requests that the pump reads are answered.
   */
  datatype Happening = Extension(ev: S.Event, stop: Stop, served: seq<bool>) | Elsewhere(a: Action)

  /** The pump: each request it reads is answered or dropped. */
  function Pump(w: World, served: seq<bool>): World
    decreases |served|
  {
    if served == [] then w
    else
      var before := Pump(w, served[..|served| - 1]);
      if before.downToWindbg == [] then before else Do(before, if served[|served| - 1] then Serve else Drop)
  }

  /** What an effect of the machine does to the system around it. */
  function Effect(w: World, e: S.Effect, stop: Stop, served: seq<bool>): World
  {
    match e
    case Initiated(_) => Do(w, Move(stop))
    case Drawn(_) => Do(w, Draw)
    case Sent(_, _) => Do(w, Send)
    case Pumped => Pump(w, served)
    case Polled => Pump(w, served)
    case _ => w
  }

  function Effects(w: World, es: seq<S.Effect>, stop: Stop, served: seq<bool>): World
    decreases |es|
  {
    if es == [] then w else Effect(Effects(w, es[..|es| - 1], stop, served), es[|es| - 1], stop, served)
  }

  /** What the machine wrote to its log in one event. */
  function Written(m: S.Machine, ev: S.Event): seq<S.Effect>
  {
    if |m.log| <= |S.Step(m, ev).log| then S.Step(m, ev).log[|m.log|..] else []
  }

  function Next(j: Joint, h: Happening): Joint
  {
    match h
    case Extension(ev, stop, served) => Joint(S.Step(j.m, ev), Effects(j.w, Written(j.m, ev), stop, served))
    case Elsewhere(a) => j.(w := Do(j.w, a))
  }

  // ---------------------------------------------------------------- the hypotheses

  predicate Succeeds(a: S.Attempt)
  {
    a.pcRead && a.built && a.sent && a.connectedAfterPump
  }

  /**
    The connection stays up; the update after a step leaves, while that of `!dvs_pc` may
    fail to be made; the debugger takes no command while the target runs; the 32-bit
    counter is not exhausted.
   */
  ghost predicate Smooth(m: S.Machine, ev: S.Event)
  {
    && m.nextPcSeq + 1 < WORD
    && match ev
       case Pc(a) => !m.inProgress && (Succeeds(a) || !a.pcRead || !a.built)
       case Poll(after) => !m.inProgress && after
       case StepCommand(_, _, _, _) => !m.inProgress
       case Accessible(statusRead, _, a, _) => statusRead && Succeeds(a)
       case Inaccessible => true
       case Inactive => !m.inProgress
       case _ => false
  }

  ghost predicate Admissible(j: Joint, h: Happening)
  {
    match h
    case Extension(ev, _, _) => Smooth(j.m, ev)
    case Elsewhere(a) => (a.RelayUp? || a.RelayDown? || a.Deliver?) && Enabled(j.w, a)
  }

  // ---------------------------------------------------------------- the invariant

  /** The target is where it was announced last. */
  ghost predicate Settled(w: World)
  {
    1 <= w.announced <= |w.log| ==> w.now == w.log[w.announced - 1]
  }

  ghost predicate InStep(j: Joint)
  {
    && S.Inv(j.m) && Safe(j.w) && j.m.connected && j.m.nextPcSeq == |j.w.log| + 1
    && (!j.m.inProgress ==> Settled(j.w))
  }

  /** Neither the stops nor what is announced changes. */
  ghost predicate SameStops(w: World, w': World)
  {
    w'.log == w.log && w'.now == w.now && w'.announced == w.announced
  }

  lemma ActionKeepsStops(w: World, a: Action)
    requires !a.Move? && !a.Draw? && !a.Send?
    ensures SameStops(w, Do(w, a))
  {
  }

  lemma ServesSafely(w: World, a: Action)
    requires Safe(w) && Settled(w) && w.downToWindbg != [] && (a.Serve? || a.Drop?)
    ensures Safe(Do(w, a)) && SameStops(w, Do(w, a))
  {
    ActionKeepsStops(w, a);
    AtAnnouncedStopAgrees(w, a);
    StepIsSafe(w, a);
  }

  lemma {:induction false} PumpIsSafe(w: World, served: seq<bool>)
    requires Safe(w) && Settled(w)
    ensures Safe(Pump(w, served)) && SameStops(w, Pump(w, served))
    decreases |served|
  {
    if served != [] {
      var init := served[..|served| - 1];
      PumpIsSafe(w, init);
      var before := Pump(w, init);
      if before.downToWindbg != [] {
        ServesSafely(before, if served[|served| - 1] then Serve else Drop);
      }
    }
  }

  lemma EffectsNext(w: World, es: seq<S.Effect>, e: S.Effect, stop: Stop, served: seq<bool>)
    ensures Effects(w, es + [e], stop, served) == Effect(Effects(w, es, stop, served), e, stop, served)
  {
    assert (es + [e])[..|es|] == es;
  }

  lemma UpdateEffects(w: World, s: nat, stepping: bool, stop: Stop, served: seq<bool>)
    ensures Effects(w, [S.Drawn(s), S.Sent(s, stepping), S.Pumped], stop, served) == Pump(Sent(Drawn(w)), served)
  {
    ThreeEffects(w, S.Drawn(s), S.Sent(s, stepping), S.Pumped, stop, served);
  }

  lemma ThreeEffects(w: World, a: S.Effect, b: S.Effect, c: S.Effect, stop: Stop, served: seq<bool>)
    ensures Effects(w, [a, b, c], stop, served) ==
            Effect(Effect(Effect(w, a, stop, served), b, stop, served), c, stop, served)
  {
    EffectsNext(w, [], a, stop, served);
    EffectsNext(w, [a], b, stop, served);
    EffectsNext(w, [a, b], c, stop, served);
    assert [] + [a] == [a] && [a] + [b] == [a, b] && [a, b] + [c] == [a, b, c];
  }

  /** An update that is sent carries the number under which the stop is announced, and is served right there. */
  lemma AnnouncesAndServes(w: World, s: nat, stepping: bool, stop: Stop, served: seq<bool>)
    requires Safe(w)
    ensures var w' := Effects(w, [S.Drawn(s), S.Sent(s, stepping), S.Pumped], stop, served);
            Safe(w') && w'.log == w.log + [w.now] && w'.now == w.now && Settled(w')
  {
    var es := [S.Drawn(s), S.Sent(s, stepping), S.Pumped];
    UpdateEffects(w, s, stepping, stop, served);
    DrawIsSafe(w);
    SendIsSafe(Drawn(w));
    PumpIsSafe(Sent(Drawn(w)), served);
  }

  // ---------------------------------------------------------------- one event

  lemma WrittenIs(m: S.Machine, ev: S.Event, es: seq<S.Effect>)
    requires S.Step(m, ev).log == m.log + es
    ensures Written(m, ev) == es
  {
  }

  /** What a successful attempt writes. */
  lemma SendsUpdate(m: S.Machine, stepping: bool, a: S.Attempt)
    requires m.connected && Succeeds(a) && m.nextPcSeq + 1 < WORD
    ensures S.SendUpdate(m, stepping, a).0
    ensures var m' := S.SendUpdate(m, stepping, a).1;
            m' == m.(nextPcSeq := m.nextPcSeq + 1,
                     log := m.log + [S.Drawn(m.nextPcSeq), S.Sent(m.nextPcSeq, stepping), S.Pumped])
  {
    var s := m.nextPcSeq;
    assert m.log + [S.Drawn(s)] + [S.Sent(s, stepping)] + [S.Pumped] ==
      m.log + [S.Drawn(s), S.Sent(s, stepping), S.Pumped];
  }

  lemma PcInStep(j: Joint, a: S.Attempt, stop: Stop, served: seq<bool>)
    requires InStep(j) && Smooth(j.m, S.Pc(a))
    ensures InStep(Next(j, Extension(S.Pc(a), stop, served)))
  {
    S.StepKeeps(j.m, S.Pc(a));
    var s := j.m.nextPcSeq;
    if !a.pcRead {
      assert j.m.log + [] == j.m.log;
      WrittenIs(j.m, S.Pc(a), []);
    } else if !a.built {
      WrittenIs(j.m, S.Pc(a), [S.Drawn(s)]);
      LosesNumber(j.w, s, stop, served);
    } else {
      SendsUpdate(j.m, false, a);
      WrittenIs(j.m, S.Pc(a), [S.Drawn(s), S.Sent(s, false), S.Pumped]);
      AnnouncesAndServes(j.w, s, false, stop, served);
    }
  }

  /** A number that is drawn for an update that cannot be made leaves a gap. */
  lemma LosesNumber(w: World, s: nat, stop: Stop, served: seq<bool>)
    requires Safe(w)
    ensures var w' := Effects(w, [S.Drawn(s)], stop, served);
            Safe(w') && w'.log == w.log + [w.now] && (Settled(w) ==> Settled(w'))
  {
    EffectsNext(w, [], S.Drawn(s), stop, served);
    assert [] + [S.Drawn(s)] == [S.Drawn(s)];
    DrawIsSafe(w);
  }

  lemma PollInStep(j: Joint, stop: Stop, served: seq<bool>)
    requires InStep(j) && !j.m.inProgress
    ensures InStep(Next(j, Extension(S.Poll(true), stop, served)))
  {
    PollWrites(j.m);
    PollEffects(j.w, stop, served);
  }

  lemma PollWrites(m: S.Machine)
    requires S.Inv(m) && m.connected
    ensures var m' := S.Step(m, S.Poll(true));
            S.Inv(m') && m'.connected && m'.nextPcSeq == m.nextPcSeq && m'.inProgress == m.inProgress
    ensures Written(m, S.Poll(true)) == [S.Polled]
  {
    S.StepKeeps(m, S.Poll(true));
    WrittenIs(m, S.Poll(true), [S.Polled]);
  }

  lemma PollEffects(w: World, stop: Stop, served: seq<bool>)
    requires Safe(w) && Settled(w)
    ensures var w' := Effects(w, [S.Polled], stop, served); Safe(w') && SameStops(w, w')
  {
    EffectsNext(w, [], S.Polled, stop, served);
    assert [] + [S.Polled] == [S.Polled];
    PumpIsSafe(w, served);
  }

  /** Effects that neither announce nor serve leave the announcements alone. */
  predicate Silent(e: S.Effect)
  {
    e.Accepted? || e.AddRef? || e.Release? || e.Completed?
  }

  lemma {:induction false} SilentEffects(w: World, es: seq<S.Effect>, stop: Stop, served: seq<bool>)
    requires Safe(w) && forall k :: 0 <= k < |es| ==> Silent(es[k]) || es[k].Initiated?
    ensures var w' := Effects(w, es, stop, served);
            Safe(w') && w'.log == w.log && ((forall k :: 0 <= k < |es| ==> Silent(es[k])) ==> w' == w)
    decreases |es|
  {
    if es != [] {
      SilentEffects(w, es[..|es| - 1], stop, served);
      MoveIsSafe(Effects(w, es[..|es| - 1], stop, served), stop);
    }
  }

  lemma EffectsSplit(w: World, a: seq<S.Effect>, b: seq<S.Effect>, stop: Stop, served: seq<bool>)
    ensures Effects(w, a + b, stop, served) == Effects(Effects(w, a, stop, served), b, stop, served)
    decreases |b|
  {
    if b == [] {
      assert a + b == a;
    } else {
      assert (a + b)[..|a + b| - 1] == a + b[..|b| - 1];
      EffectsSplit(w, a, b[..|b| - 1], stop, served);
    }
  }

  /** What `!dvs_step` writes: nothing, or a sequence set up and its first step initiated or given up. */
  lemma StepCommandWrites(m: S.Machine, c: S.Client, parsed: Option<(char, nat)>, contextRead: bool, stepOk: bool)
    returns (es: seq<S.Effect>)
    requires S.Inv(m) && !m.inProgress
    ensures var m' := S.StepRequest(m, c, parsed, contextRead, stepOk);
            && m'.log == m.log + es && m'.connected == m.connected && m'.nextPcSeq == m.nextPcSeq
            && (forall k :: 0 <= k < |es| ==> Silent(es[k]) || es[k].Initiated?)
            && (!m'.inProgress ==> forall k :: 0 <= k < |es| ==> Silent(es[k]))
  {
    if !S.ValidArgs(parsed) || !m.connected || m.pending || !contextRead {
      es := [];
      assert m.log + [] == m.log;
    } else {
      var count := parsed.value.1;
      var mode := LowerChar(parsed.value.0);
      es := [S.AddRef(c), S.Accepted(mode, count), if stepOk then S.Initiated(mode) else S.Release(c)];
      var m' := S.StepRequest(m, c, parsed, contextRead, stepOk);
      assert m'.log == m.log + [S.AddRef(c)] + [S.Accepted(mode, count)] + [es[2]];
      assert m'.log == m.log + es;
    }
  }

  lemma StepCommandInStep(j: Joint, ev: S.Event, stop: Stop, served: seq<bool>)
    requires InStep(j) && ev.StepCommand? && !j.m.inProgress
    ensures InStep(Next(j, Extension(ev, stop, served)))
  {
    S.StepKeeps(j.m, ev);
    var es := StepCommandWrites(j.m, ev.c, ev.parsed, ev.contextRead, ev.stepOk);
    WrittenIs(j.m, ev, es);
    SilentEffects(j.w, es, stop, served);
  }

  /** What the end of a step writes: its update, then the next step, or the end of the sequence. */
  lemma PostStepWrites(m: S.Machine, a: S.Attempt, stepOk: bool) returns (es: seq<S.Effect>)
    requires S.Inv(m) && m.inProgress && m.connected && Succeeds(a) && m.nextPcSeq + 1 < WORD
    ensures var m' := S.PostStep(m, true, true, a, stepOk);
            && m'.log == m.log + ([S.Drawn(m.nextPcSeq), S.Sent(m.nextPcSeq, true), S.Pumped] + es)
            && m'.connected && m'.nextPcSeq == m.nextPcSeq + 1
            && (forall k :: 0 <= k < |es| ==> Silent(es[k]) || es[k].Initiated?)
            && (!m'.inProgress ==> forall k :: 0 <= k < |es| ==> Silent(es[k]))
  {
    var s, c := m.nextPcSeq, m.client.value;
    SendsUpdate(m.(inProgress := false), true, a);
    var sent := m.log + [S.Drawn(s), S.Sent(s, true), S.Pumped];
    var m' := S.PostStep(m, true, true, a, stepOk);
    if m.remaining > 0 {
      es := [if stepOk then S.Initiated(m.mode) else S.Release(c)];
      assert m'.log == sent + es;
    } else {
      es := [S.Completed, S.Release(c)];
      assert m'.log == sent + [S.Completed] + [S.Release(c)];
      assert m'.log == sent + es;
    }
    assert sent + es == m.log + ([S.Drawn(s), S.Sent(s, true), S.Pumped] + es);
  }

  lemma AccessibleInStep(j: Joint, ev: S.Event, stop: Stop, served: seq<bool>)
    requires InStep(j) && ev.Accessible? && Smooth(j.m, ev)
    ensures InStep(Next(j, Extension(ev, stop, served)))
  {
    S.StepKeeps(j.m, ev);
    if !j.m.inProgress || !ev.broken {
      assert S.Step(j.m, ev) == j.m;
      assert j.m.log + [] == j.m.log;
      WrittenIs(j.m, ev, []);
    } else {
      var update := [S.Drawn(j.m.nextPcSeq), S.Sent(j.m.nextPcSeq, true), S.Pumped];
      var es := PostStepWrites(j.m, ev.attempt, ev.stepOk);
      WrittenIs(j.m, ev, update + es);
      EffectsSplit(j.w, update, es, stop, served);
      AnnouncesAndServes(j.w, j.m.nextPcSeq, true, stop, served);
      SilentEffects(Effects(j.w, update, stop, served), es, stop, served);
    }
  }

  /** Nothing happens: the session becomes inaccessible, or ends while no step is pending. */
  lemma QuietInStep(j: Joint, ev: S.Event, stop: Stop, served: seq<bool>)
    requires InStep(j) && (ev.Inaccessible? || (ev.Inactive? && !j.m.inProgress))
    ensures InStep(Next(j, Extension(ev, stop, served)))
  {
    S.StepKeeps(j.m, ev);
    assert S.Step(j.m, ev).log == j.m.log;
    assert j.m.log + [] == j.m.log;
    WrittenIs(j.m, ev, []);
  }

  lemma ElsewhereIsSafe(w: World, a: Action)
    requires Safe(w) && (a.RelayUp? || a.RelayDown? || a.Deliver?) && Enabled(w, a)
    ensures Safe(Do(w, a)) && SameStops(w, Do(w, a))
  {
    ActionKeepsStops(w, a);
    StepIsSafe(w, a);
  }

  lemma ElsewhereInStep(j: Joint, a: Action)
    requires InStep(j) && Admissible(j, Elsewhere(a))
    ensures InStep(Next(j, Elsewhere(a)))
  {
    ElsewhereIsSafe(j.w, a);
  }

  lemma HappeningInStep(j: Joint, h: Happening)
    requires InStep(j) && Admissible(j, h)
    ensures InStep(Next(j, h))
  {
    match h {
      case Elsewhere(a) => ElsewhereInStep(j, a);
      case Extension(ev, stop, served) =>
        match ev {
          case Pc(a) => PcInStep(j, a, stop, served);
          case Poll(after) => PollInStep(j, stop, served);
          case StepCommand(_, _, _, _) => StepCommandInStep(j, ev, stop, served);
          case Accessible(_, _, _, _) => AccessibleInStep(j, ev, stop, served);
          case Inaccessible => QuietInStep(j, ev, stop, served);
          case Inactive => QuietInStep(j, ev, stop, served);
        }
    }
  }

  // ---------------------------------------------------------------- every run

  /** The extension is loaded and connected, the target is stopped, nothing is announced. */
  function Begin(now: Stop, maxHistory: int): Joint
  {
    Joint(S.INITIAL.(connected := true), Start(now, maxHistory))
  }

  function RunJoint(j: Joint, hs: seq<Happening>): Joint
    decreases |hs|
  {
    if hs == [] then j else Next(RunJoint(j, hs[..|hs| - 1]), hs[|hs| - 1])
  }

  ghost predicate AdmissibleRun(j: Joint, hs: seq<Happening>)
  {
    forall k :: 0 <= k < |hs| ==> Admissible(RunJoint(j, hs[..k]), hs[k])
  }

  lemma BeginInStep(now: Stop, maxHistory: int)
    ensures InStep(Begin(now, maxHistory))
  {
    StartIsSafe(now, maxHistory);
    S.RunKeeps([]);
    S.ConnectionKeeps(S.INITIAL, true);
  }

  lemma {:induction false} RunInStep(now: Stop, maxHistory: int, hs: seq<Happening>)
    requires AdmissibleRun(Begin(now, maxHistory), hs)
    ensures InStep(RunJoint(Begin(now, maxHistory), hs))
    decreases |hs|
  {
    var j := Begin(now, maxHistory);
    if hs == [] {
      BeginInStep(now, maxHistory);
    } else {
      var init := hs[..|hs| - 1];
      forall k | 0 <= k < |init| ensures Admissible(RunJoint(j, init[..k]), init[k]) {
        assert init[..k] == hs[..k] && init[k] == hs[k];
      }
      RunInStep(now, maxHistory, init);
      HappeningInStep(RunJoint(j, init), hs[|hs| - 1]);
    }
  }

  /**
    With the step machine in charge nothing is assumed about announcements: in every run
    of machine, target, broker and IDA in which the updates after steps leave, fresh values
    are true, and the next update carries the number under which its stop is logged.
   */
  lemma SteppedFreshIsTrue(now: Stop, maxHistory: int, hs: seq<Happening>)
    requires AdmissibleRun(Begin(now, maxHistory), hs)
    ensures var j := RunJoint(Begin(now, maxHistory), hs);
            AllFreshTrue(j.w) && j.m.nextPcSeq == |j.w.log| + 1
  {
    RunInStep(now, maxHistory, hs);
    SafeIsTrue(RunJoint(Begin(now, maxHistory), hs).w);
  }
}
