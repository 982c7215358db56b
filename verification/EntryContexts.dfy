/** When a fresh argument row was read in the context in which it is shown. */
module EntryContexts {
  import opened Basics
  import opened Bits
  import opened Values
  import opened RecoveryModel
  import opened EntryArguments

  predicate IsUpdate(ev: Event)
  {
    ev.Plan? || ev.Start?
  }

  /** Event `k` is a response that turns row `i` fresh, and no update has come since. */
  ghost predicate ReadSince(evs: seq<Event>, i: int, k: int)
  {
    && 0 <= k < |evs| && (forall j :: k <= j < |evs| ==> !IsUpdate(evs[j]))
    && Turns(Run(evs[..k]), evs[k], i)
  }

  /** The event makes a row fresh that was not. */
  ghost predicate Turns(core: Core, ev: Event, i: int)
  {
    && 0 <= i < |core.rows| && i < |Step(core, ev).rows|
    && core.rows[i].status != Fresh && Step(core, ev).rows[i].status == Fresh
  }

  /** Every row that is shown as fresh was read in the current context. */
  ghost predicate FreshIsCurrent(evs: seq<Event>)
  {
    forall i :: 0 <= i < |Run(evs).rows| && Run(evs).rows[i].status == Fresh ==> exists k :: ReadSince(evs, i, k)
  }

  ghost predicate NothingFresh(core: Core)
  {
    forall i :: 0 <= i < |core.rows| ==> core.rows[i].status != Fresh
  }

  /** The last update rebuilt the rows: its PC was mapped and its function enumerated. */
  predicate Rebuilt(evs: seq<Event>)
  {
    evs != [] && (evs[|evs| - 1].Plan? || (!evs[|evs| - 1].Start? && Rebuilt(evs[..|evs| - 1])))
  }

  lemma PlanIsNotFresh(core: Core, vs: seq<Variable>, context: Context)
    ensures NothingFresh(BuildEntryPlan(core, vs, context).0)
  {
  }

  lemma LaterReadSince(evs: seq<Event>, i: int, k: int)
    requires evs != [] && !IsUpdate(evs[|evs| - 1]) && ReadSince(evs[..|evs| - 1], i, k)
    ensures ReadSince(evs, i, k)
  {
    var init := evs[..|evs| - 1];
    assert init[..k] == evs[..k] && init[k] == evs[k];
    forall j | k <= j < |evs| ensures !IsUpdate(evs[j]) {
      assert j < |init| ==> init[j] == evs[j];
    }
  }

  lemma LastReads(evs: seq<Event>, i: int)
    requires evs != [] && !IsUpdate(evs[|evs| - 1]) && Turns(Run(evs[..|evs| - 1]), evs[|evs| - 1], i)
    ensures ReadSince(evs, i, |evs| - 1)
  {
  }

  lemma {:induction false} RebuiltIsCurrent(evs: seq<Event>)
    requires Rebuilt(evs)
    ensures FreshIsCurrent(evs)
    decreases |evs|
  {
    var init, last := evs[..|evs| - 1], evs[|evs| - 1];
    if last.Plan? {
      PlanIsNotFresh(Run(init), last.vs, last.context);
    } else {
      RebuiltIsCurrent(init);
      ResponseShape(Run(init), last);
      forall i | 0 <= i < |Run(evs).rows| && Run(evs).rows[i].status == Fresh
        ensures exists k :: ReadSince(evs, i, k)
      {
        if Run(init).rows[i].status == Fresh {
          var k :| ReadSince(init, i, k);
          LaterReadSince(evs, i, k);
        } else {
          LastReads(evs, i);
        }
      }
    }
  }

  /** Requests are pending only since the rows were rebuilt. */
  lemma {:induction false} PendingSinceRebuilt(evs: seq<Event>)
    ensures Run(evs).pending != map[] ==> Rebuilt(evs)
    decreases |evs|
  {
    if evs != [] {
      PendingSinceRebuilt(evs[..|evs| - 1]);
      if Run(evs[..|evs| - 1]).pending == map[] && !evs[|evs| - 1].Plan? {
        IdleStaysIdle(Run(evs[..|evs| - 1]), evs[|evs| - 1]);
      }
    }
  }

  /** Without a pending request a response changes nothing. */
  lemma IdleStaysIdle(core: Core, ev: Event)
    requires core.pending == map[] && !ev.Plan?
    ensures Step(core, ev).pending == map[] && (!ev.Start? ==> Step(core, ev) == core)
  {
  }

  lemma {:induction false} RebuiltSince(evs: seq<Event>, k: nat)
    requires k <= |evs| && Rebuilt(evs[..k]) && forall j :: k <= j < |evs| ==> !IsUpdate(evs[j])
    ensures Rebuilt(evs)
    decreases |evs|
  {
    if k == |evs| {
      assert evs[..k] == evs;
    } else {
      assert evs[..|evs| - 1][..k] == evs[..k];
      RebuiltSince(evs[..|evs| - 1], k);
    }
  }

  lemma ReadMeansRebuilt(evs: seq<Event>, i: int, k: int)
    requires ReadSince(evs, i, k)
    ensures Rebuilt(evs)
  {
    PendingSinceRebuilt(evs[..k]);
    if Run(evs[..k]).pending == map[] {
      IdleStaysIdle(Run(evs[..k]), evs[k]);
    }
    RebuiltSince(evs, k);
  }

  /**
    After every run, what is shown as fresh was read in the current context if and only
    if nothing is fresh or the last update rebuilt the rows. A failed mapping or
    enumeration is an update that does not.
   */
  lemma FreshIsCurrentIff(evs: seq<Event>)
    ensures FreshIsCurrent(evs) <==> NothingFresh(Run(evs)) || Rebuilt(evs)
  {
    if Rebuilt(evs) {
      RebuiltIsCurrent(evs);
    } else if FreshIsCurrent(evs) && !NothingFresh(Run(evs)) {
      var i :| 0 <= i < |Run(evs).rows| && Run(evs).rows[i].status == Fresh;
      var k :| ReadSince(evs, i, k);
      ReadMeansRebuilt(evs, i, k);
    }
  }

  /** An update without an enumeration keeps fresh rows true to their label exactly if there are none. */
  lemma StartIsHarmlessIff(evs: seq<Event>, pcSeq: nat, runtimePc: string, functionEa: string)
    ensures FreshIsCurrent(evs + [Start(pcSeq, runtimePc, functionEa)]) <==> NothingFresh(Run(evs))
  {
    var longer := evs + [Start(pcSeq, runtimePc, functionEa)];
    assert longer[..|evs|] == evs;
    FreshIsCurrentIff(longer);
  }

  lemma RunNext(evs: seq<Event>, ev: Event)
    ensures Run(evs + [ev]) == Step(Run(evs), ev)
  {
    assert (evs + [ev])[..|evs|] == evs;
  }

  /** One register argument is read at the entry of its function. */
  function ReadRun(): seq<Event>
  {
    [Event.Plan([WITNESS], Context(1, "0x10", "f", true))]
    + [Reg(Response(Some(1), Some(ArgRegId(1)), "", true, Some(map["rcx" := Number(0)]), "", None, ""))]
  }

  const WITNESS: Variable := Variable(0, "a", "int", 8, true, Some(0), "f", 0, "")

  /**
    Then a PC cannot be mapped: the row is still fresh in the second context, even if the
    two PCs have the same text.
   */
  lemma UnmappedLeavesFresh(pc: string)
    ensures var evs := ReadRun() + [Start(2, pc, "")];
            && LegalRun(evs) && Run(evs).context == Some(Context(2, pc, "", false))
            && |Run(evs).rows| == 1 && Run(evs).rows[0].status == Fresh && Run(evs).rows[0].value == "0x0"
            && !FreshIsCurrent(evs)
  {
    ReadRunIsFresh();
    RunNext(ReadRun(), Start(2, pc, ""));
    StartIsHarmlessIff(ReadRun(), 2, pc, "");
  }

  lemma ReadRunIsFresh()
    ensures var rows := Run(ReadRun()).rows;
            LegalRun(ReadRun()) && |rows| == 1 && rows[0].status == Fresh && rows[0].value == "0x0"
  {
    var context := Context(1, "0x10", "f", true);
    var plan := Event.Plan([WITNESS], context);
    PlannedWitness(context);
    RunNext([], plan);
    assert [] + [plan] == [plan];
    ReadWitness(Run([plan]), ReadRun()[1].r);
    RunNext([plan], ReadRun()[1]);
  }

  lemma PlannedWitness(context: Context)
    requires context == Context(1, "0x10", "f", true)
    ensures var core := BuildEntryPlan(INITIAL, [WITNESS], context).0;
            && core.context == Some(context) && |core.rows| == 1 && core.rows[0].v == WITNESS
            && core.pending == map[ArgRegId(1) := ArgPending(false, 1, ArgRegId(1), "0x10", ["a"], {"rcx"}, "", 0)]
  {
    assert WITNESS in [WITNESS] && EntryRegister(0) in NeededRegisters([WITNESS]);
    assert [WITNESS][..0] == [] && RegisterNames([]) == [];
    assert InRegister(WITNESS) && [WITNESS][|[WITNESS]| - 1] == WITNESS;
    assert RegisterNames([WITNESS]) == RegisterNames([]) + ["a"] == ["a"];
    assert NeededRegisters([WITNESS]) == NeededRegisters([]) + {"rcx"} == {"rcx"};
  }

  lemma ReadWitness(core: Core, r: Response)
    requires core.context == Some(Context(1, "0x10", "f", true)) && |core.rows| == 1
    requires core.pending == map[ArgRegId(1) := ArgPending(false, 1, ArgRegId(1), "0x10", ["a"], {"rcx"}, "", 0)]
    requires core.rows[0].v == WITNESS
    requires r == Response(Some(1), Some(ArgRegId(1)), "", true, Some(map["rcx" := Number(0)]), "", None, "")
    ensures var rows := ApplyArgReg(core, r).1.rows; |rows| == 1 && rows[0].status == Fresh && rows[0].value == "0x0"
  {
    assert EntryRegister(0) == "rcx";
    MaskOfZero(64);
    assert Digits(0, 16) == "0";
  }

  lemma {:induction false} MaskOfZero(n: nat)
    ensures Mask(0, n) == 0
  {
    if n > 0 {
      MaskOfZero(n - 1);
    }
  }
}
