/**
  What every argument row is after each event of the argument planner: which registers an
  entry asks for, what its answers leave, and which rows still wait.
 */
module ArgumentRows {
  import opened Basics
  import opened Values
  import opened RecoveryModel
  import opened EntryArguments
  import TA = TrueArguments

  /** Windows x64: what has to be read to find the argument in this place at an entry. */
  predicate PlaceNeeds(place: nat, register: string)
  {
    match place
    case 0 => register == "rcx"
    case 1 => register == "rdx"
    case 2 => register == "r8"
    case 3 => register == "r9"
    case _ => register == "rsp"
  }

  predicate NeedsRegister(v: Variable, register: string)
  {
    v.isArg && v.argIndex.Some? && PlaceNeeds(v.argIndex.value, register)
  }

  /** The planner's table is the convention. */
  lemma PlaceRegister(v: Variable, register: string)
    requires IsArgument(v)
    ensures NeedsRegister(v, register) <==> register == if InRegister(v) then EntryRegister(v.argIndex.value) else "rsp"
  {
    var table := ["rcx", "rdx", "r8", "r9"];
    if InRegister(v) {
      assert EntryRegister(v.argIndex.value) == table[v.argIndex.value];
    }
  }

  lemma {:induction false} NeededIff(vs: seq<Variable>, register: string)
    ensures register in NeededRegisters(vs) <==> exists v :: v in vs && NeedsRegister(v, register)
    decreases |vs|
  {
    if vs != [] {
      var init, last := vs[..|vs| - 1], vs[|vs| - 1];
      NeededIff(init, register);
      if IsArgument(last) {
        PlaceRegister(last, register);
      }
      assert vs == init + [last];
      assert register in NeededRegisters(vs) <==> register in NeededRegisters(init) || NeedsRegister(last, register);
    }
  }

  /** The request of a pending entry. */
  function RequestOf(p: ArgPending): Request
  {
    if p.memory then MemRequest(p.pcSeq, p.id, p.runtimePc, p.address, p.size)
    else RegRequest(p.pcSeq, p.id, p.runtimePc, p.registers)
  }

  /**
    An entry asks for registers exactly if the function has an argument, and then for
    exactly those that its arguments need; away from an entry nothing is asked for.
   */
  lemma EntryAsksFor(core: Core, vs: seq<Variable>, context: Context)
    ensures var (core', q) := BuildEntryPlan(core, vs, context);
            && core'.context == Some(context) && |core'.rows| == |vs|
            && (forall i :: 0 <= i < |vs| ==> core'.rows[i].v == vs[i])
            && if context.atEntry && exists v :: v in vs && IsArgument(v) then
                 && ArgRegId(context.pcSeq) in core'.pending
                 && var p := core'.pending[ArgRegId(context.pcSeq)];
                    && core'.pending == map[ArgRegId(context.pcSeq) := p] && !p.memory && q == Some(RequestOf(p))
                    && p.pcSeq == context.pcSeq && p.id == ArgRegId(context.pcSeq)
                    && forall name :: name in p.registers <==> exists v :: v in vs && NeedsRegister(v, name)
               else core'.pending == map[] && q.None?
  {
    forall name ensures name in NeededRegisters(vs) <==> exists v :: v in vs && NeedsRegister(v, name) {
      NeededIff(vs, name);
    }
    if v :| v in vs && IsArgument(v) {
      PlaceRegister(v, if InRegister(v) then EntryRegister(v.argIndex.value) else "rsp");
    }
  }

  // ---------------------------------------------------------------- stale values

  /** Some row of the function holds this value for this name. */
  ghost predicate WasRead(rows: seq<Row>, v: Variable, value: string)
  {
    value != "" && Holds(rows, v.functionEa, v.name, value)
  }

  lemma {:induction false} PriorIffHeld(rows: seq<Row>, v: Variable, value: string)
    requires TA.DistinctRows(rows) && value != ""
    ensures WasRead(rows, v, value) <==>
            Prior(rows, v.functionEa, v.name).Some? && Prior(rows, v.functionEa, v.name).value.value == value
    decreases |rows|
  {
    if rows != [] {
      var init, last := rows[..|rows| - 1], rows[|rows| - 1];
      PriorIffHeld(init, v, value);
      if WasRead(rows, v, value) {
        var k :| 0 <= k < |rows| && rows[k].value == value && rows[k].v.functionEa == v.functionEa
          && rows[k].v.name == v.name;
        if k < |init| {
          assert init[k] == rows[k];
        }
      }
      if WasRead(init, v, value) {
        var k :| 0 <= k < |init| && init[k].value == value && init[k].v.functionEa == v.functionEa
          && init[k].v.name == v.name;
        assert rows[k] == init[k];
      }
    }
  }

  /**
    Away from the entry, an argument shows the value read for it before, exactly if there
    is one, and only as stale; at the entry, and for all other variables, rows start empty.
   */
  lemma RebuiltRowIs(core: Core, vs: seq<Variable>, context: Context, i: nat)
    requires TA.DistinctRows(core.rows) && i < |vs|
    ensures var row := BuildEntryPlan(core, vs, context).0.rows[i];
            && row.v == vs[i]
            && if IsArgument(vs[i]) && !context.atEntry && exists value :: WasRead(core.rows, vs[i], value) then
                 row.status == Stale && WasRead(core.rows, vs[i], row.value)
               else row.status == Unavailable && row.value == ""
  {
    var prior := Prior(core.rows, vs[i].functionEa, vs[i].name);
    if prior.Some? && prior.value.value != "" {
      PriorIffHeld(core.rows, vs[i], prior.value.value);
    }
    if value :| WasRead(core.rows, vs[i], value) {
      PriorIffHeld(core.rows, vs[i], value);
    }
  }

  // ---------------------------------------------------------------- answers

  /** The response gives the register as a number. */
  predicate Gives(r: Response, name: string)
  {
    r.registers.Some? && name in r.registers.value && r.registers.value[name].Number?
  }

  /** The response names the current context, and a pending request of this kind. */
  predicate IsFor(core: Core, r: Response, memory: bool)
  {
    && core.context.Some? && r.pcSeq == Some(core.context.value.pcSeq as int)
    && r.runtimePc in {"", core.context.value.runtimePc}
    && r.id.Some? && r.id.value in core.pending && core.pending[r.id.value].memory == memory
  }

  /** A response is accepted exactly if it is for a pending request of the current context; else it changes nothing. */
  lemma AcceptedIff(core: Core, r: Response)
    ensures ApplyArgReg(core, r).0 <==> IsFor(core, r, false)
    ensures ApplyArgMem(core, r).0 <==> IsFor(core, r, true)
    ensures !ApplyArgReg(core, r).0 ==> ApplyArgReg(core, r).1 == core && ApplyArgReg(core, r).2 == []
    ensures !ApplyArgMem(core, r).0 ==> ApplyArgMem(core, r).1 == core
  {
  }

  /** The argument's own slot is asked for. */
  ghost predicate AsksSlot(core: Core, requests: seq<Request>, pcSeq: nat, v: Variable)
  {
    && ArgMemId(pcSeq, v.name) in core.pending
    && var p := core.pending[ArgMemId(pcSeq, v.name)];
       p.memory && p.names == [v.name] && p.size == ReadSize(v.size) && RequestOf(p) in requests
  }

  /** What a register answer makes of one argument. */
  ghost predicate ArgumentAnswered(before: Row, after: Row, core: Core, requests: seq<Request>, pcSeq: nat, r: Response)
  {
    && after.v == before.v
    && (InRegister(before.v) ==>
          && (after.status == Fresh || after.status == Failed)
          && ((exists name :: NeedsRegister(before.v, name) && Gives(r, name)) ==> after.status == Fresh))
    && (OnStack(before.v) ==> if Gives(r, "rsp") then AsksSlot(core, requests, pcSeq, before.v)
       else after.status == Failed)
  }

  /** Every stack request issued so far is in the table under its own id, for its own name. */
  ghost predicate Booked(start: map<string, ArgPending>, issued: Issued, pcSeq: nat, rows: seq<Row>, n: nat)
  {
    && (forall id :: id in issued.pending ==> OldOrAsked(start, issued, id))
    && (forall q :: q in issued.requests ==> InTable(issued, pcSeq, q) && ForRow(pcSeq, rows, n, q.id))
    && (forall i :: 0 <= i < n && i < |rows| && OnStack(rows[i].v) ==> SlotAsked(issued, pcSeq, rows[i].v))
  }

  ghost predicate OldOrAsked(start: map<string, ArgPending>, issued: Issued, id: string)
    requires id in issued.pending
  {
    (id in start && issued.pending[id] == start[id]) || RequestOf(issued.pending[id]) in issued.requests
  }

  ghost predicate InTable(issued: Issued, pcSeq: nat, q: Request)
  {
    && q.MemRequest? && q.pcSeq == pcSeq && q.id in issued.pending && RequestOf(issued.pending[q.id]) == q
    && SlotNamed(issued.pending[q.id], pcSeq)
  }

  ghost predicate ForRow(pcSeq: nat, rows: seq<Row>, n: nat, id: string)
  {
    exists i :: 0 <= i < n && i < |rows| && id == ArgMemId(pcSeq, rows[i].v.name)
  }

  /** A stack request reads at most eight bytes, for the one name that its id bears. */
  ghost predicate SlotNamed(p: ArgPending, pcSeq: nat)
  {
    p.memory && |p.names| == 1 && p.id == ArgMemId(pcSeq, p.names[0]) && p.pcSeq == pcSeq && ExactWidth(p.size)
  }

  ghost predicate SlotAsked(issued: Issued, pcSeq: nat, v: Variable)
  {
    && ArgMemId(pcSeq, v.name) in issued.pending
    && var p := issued.pending[ArgMemId(pcSeq, v.name)];
       p.memory && p.names == [v.name] && p.size == ReadSize(v.size) && RequestOf(p) in issued.requests
  }

  lemma BookOne(start: map<string, ArgPending>, before: Issued, rows: seq<Row>, n: nat, p: ArgPending, rsp: int)
    requires TA.DistinctRows(rows) && n < |rows| && OnStack(rows[n].v) && Booked(start, before, p.pcSeq, rows, n)
    ensures var q := StackPending(p, rows[n].v, rsp);
            Booked(start, Issued(before.pending[q.id := q], before.requests + [RequestOf(q)]), p.pcSeq, rows, n + 1)
  {
    var q := StackPending(p, rows[n].v, rsp);
    var after := Issued(before.pending[q.id := q], before.requests + [RequestOf(q)]);
    NoRowHasIt(p.pcSeq, rows, n);
    forall r | r in after.requests ensures InTable(after, p.pcSeq, r) && ForRow(p.pcSeq, rows, n + 1, r.id) {
      BookedRequestStays(before, after, rows, n, p.pcSeq, q, r);
    }
    forall i | 0 <= i < n + 1 && OnStack(rows[i].v) ensures SlotAsked(after, p.pcSeq, rows[i].v) {
      assert i < n ==> SlotAsked(before, p.pcSeq, rows[i].v);
    }
    forall id | id in after.pending ensures OldOrAsked(start, after, id) {
      assert id != q.id ==> OldOrAsked(start, before, id);
    }
  }

  lemma NoRowHasIt(pcSeq: nat, rows: seq<Row>, n: nat)
    requires TA.DistinctRows(rows) && n < |rows|
    ensures forall i :: 0 <= i < n ==> ArgMemId(pcSeq, rows[i].v.name) != ArgMemId(pcSeq, rows[n].v.name)
  {
    forall i | 0 <= i < n ensures ArgMemId(pcSeq, rows[i].v.name) != ArgMemId(pcSeq, rows[n].v.name) {
      ArgMemIdsDiffer(pcSeq, rows[i].v.name, rows[n].v.name);
    }
  }

  lemma BookedRequestStays(before: Issued, after: Issued, rows: seq<Row>, n: nat, pcSeq: nat, q: ArgPending, r: Request)
    requires n < |rows| && q.id == ArgMemId(pcSeq, rows[n].v.name) && SlotNamed(q, pcSeq)
    requires forall i :: 0 <= i < n ==> ArgMemId(pcSeq, rows[i].v.name) != q.id
    requires after == Issued(before.pending[q.id := q], before.requests + [RequestOf(q)]) && r in after.requests
    requires r in before.requests ==> InTable(before, pcSeq, r) && ForRow(pcSeq, rows, n, r.id)
    ensures InTable(after, pcSeq, r) && ForRow(pcSeq, rows, n + 1, r.id)
  {
    if r in before.requests {
      var i :| 0 <= i < n && i < |rows| && r.id == ArgMemId(pcSeq, rows[i].v.name);
    }
  }

  lemma {:induction false} IssuedIsBooked(start: map<string, ArgPending>, rows: seq<Row>, n: nat, p: ArgPending,
                                          rsp: int)
    requires TA.DistinctRows(rows) && n <= |rows|
    ensures Booked(start, IssueStack(Issued(start, []), rows[..n], p, rsp), p.pcSeq, rows, n)
  {
    if n > 0 {
      IssuedIsBooked(start, rows, n - 1, p, rsp);
      var before := IssueStack(Issued(start, []), rows[..n - 1], p, rsp);
      IssuesNext(start, rows, n, p, rsp);
      if OnStack(rows[n - 1].v) {
        BookOne(start, before, rows, n - 1, p, rsp);
      }
    }
  }

  lemma IssuesNext(start: map<string, ArgPending>, rows: seq<Row>, n: nat, p: ArgPending, rsp: int)
    requires 0 < n <= |rows|
    ensures var before := IssueStack(Issued(start, []), rows[..n - 1], p, rsp);
            IssueStack(Issued(start, []), rows[..n], p, rsp) ==
            if OnStack(rows[n - 1].v) then
              var q := StackPending(p, rows[n - 1].v, rsp);
              Issued(before.pending[q.id := q], before.requests + [RequestOf(q)])
            else before
  {
    assert rows[..n][..n - 1] == rows[..n - 1] && rows[..n][n - 1] == rows[n - 1];
  }

  /** Register arguments are fresh or failed, certainly fresh if their register was given; other rows are as before. */
  ghost predicate IsFilled(row: Row, after: Row, r: Response)
  {
    && after.v == row.v && (!InRegister(row.v) ==> after == row)
    && (InRegister(row.v) ==>
          && (after.status == Fresh || after.status == Failed)
          && ((exists name :: NeedsRegister(row.v, name) && Gives(r, name)) ==> after.status == Fresh))
  }

  lemma FilledRowIs(row: Row, r: Response, runtimePc: string)
    requires r.registers.Some?
    ensures IsFilled(row, FillRegister(row, r.registers.value, runtimePc), r)
  {
    if InRegister(row.v) {
      forall name ensures NeedsRegister(row.v, name) <==> name == EntryRegister(row.v.argIndex.value) {
        PlaceRegister(row.v, name);
      }
    }
  }

  /**
    A register answer that is accepted: register arguments are fresh, certainly if their
    register was given; the slots of stack arguments are asked for, or these arguments
    failed if `rsp` was not given.
   */
  lemma RegisterAnswerOutcome(core: Core, r: Response)
    requires TA.DistinctRows(core.rows) && ArgCorrelated(core, r, false).Some? && r.ok && r.registers.Some?
    ensures var p := ArgCorrelated(core, r, false).value;
            var (accepted, core', requests) := ApplyArgReg(core, r);
            && accepted && core'.context == core.context && |core'.rows| == |core.rows|
            && (forall i :: 0 <= i < |core.rows| ==>
                  ArgumentAnswered(core.rows[i], core'.rows[i], core', requests, p.pcSeq, r))
            && (forall id :: id in core'.pending ==>
                  OldOrAsked(core.pending - {r.id.value}, Issued(core'.pending, requests), id))
            && (forall q :: q in requests ==> InTable(Issued(core'.pending, requests), p.pcSeq, q))
  {
    var p, left := ArgCorrelated(core, r, false).value, core.pending - {r.id.value};
    var filled := Each(core.rows, RegisterChange(r.registers.value, p.runtimePc));
    forall i | 0 <= i < |core.rows| ensures filled[i] == FillRegister(core.rows[i], r.registers.value, p.runtimePc) {
    }
    FilledRows(core.rows, filled, r, p.runtimePc);
    if Gives(r, "rsp") {
      var rsp := r.registers.value["rsp"].n;
      assert filled[..|filled|] == filled;
      IssuedIsBooked(left, filled, |filled|, p, rsp);
      RowsAsked(core, filled, IssueStack(Issued(left, []), filled, p, rsp), p, r);
    } else {
      RowsFailed(core, filled, left, p, r);
    }
  }

  lemma FilledRows(rows: seq<Row>, filled: seq<Row>, r: Response, runtimePc: string)
    requires TA.DistinctRows(rows) && r.registers.Some? && |filled| == |rows|
    requires forall i :: 0 <= i < |rows| ==> filled[i] == FillRegister(rows[i], r.registers.value, runtimePc)
    ensures TA.DistinctRows(filled) && forall i :: 0 <= i < |rows| ==> IsFilled(rows[i], filled[i], r)
  {
    forall i | 0 <= i < |rows| ensures IsFilled(rows[i], filled[i], r) {
      FilledRowIs(rows[i], r, runtimePc);
    }
  }

  lemma RowsAsked(core: Core, filled: seq<Row>, issued: Issued, p: ArgPending, r: Response)
    requires |filled| == |core.rows| && forall i :: 0 <= i < |filled| ==> IsFilled(core.rows[i], filled[i], r)
    requires r.id.Some? && Gives(r, "rsp")
    requires Booked(core.pending - {r.id.value}, issued, p.pcSeq, filled, |filled|)
    ensures var core' := Core(core.context, issued.pending, filled);
            forall i :: 0 <= i < |core.rows| ==>
              ArgumentAnswered(core.rows[i], filled[i], core', issued.requests, p.pcSeq, r)
  {
    forall i | 0 <= i < |core.rows|
      ensures ArgumentAnswered(core.rows[i], filled[i], Core(core.context, issued.pending, filled), issued.requests,
                               p.pcSeq, r)
    {
      if OnStack(core.rows[i].v) {
        assert SlotAsked(issued, p.pcSeq, filled[i].v);
      }
    }
  }

  lemma RowsFailed(core: Core, filled: seq<Row>, left: map<string, ArgPending>, p: ArgPending, r: Response)
    requires |filled| == |core.rows| && forall i :: 0 <= i < |filled| ==> IsFilled(core.rows[i], filled[i], r)
    requires !Gives(r, "rsp")
    ensures var rows := Each(filled, FailStack);
            forall i :: 0 <= i < |core.rows| ==>
              ArgumentAnswered(core.rows[i], rows[i], Core(core.context, left, rows), [], p.pcSeq, r)
  {
    var rows := Each(filled, FailStack);
    forall i | 0 <= i < |core.rows|
      ensures ArgumentAnswered(core.rows[i], rows[i], Core(core.context, left, rows), [], p.pcSeq, r)
    {
      assert rows[i] == FailStack(filled[i]);
    }
  }

  /** A memory answer that is accepted makes the named rows fresh, or failed if it says so, and nothing else. */
  lemma MemoryAnswerOutcome(core: Core, r: Response)
    requires ArgCorrelated(core, r, true).Some?
    ensures var p := ArgCorrelated(core, r, true).value;
            var (accepted, core') := ApplyArgMem(core, r);
            && accepted && core'.context == core.context && core'.pending == core.pending - {r.id.value}
            && |core'.rows| == |core.rows|
            && forall i :: 0 <= i < |core.rows| ==>
                 && core'.rows[i].v == core.rows[i].v
                 && if core.rows[i].v.name !in p.names then core'.rows[i] == core.rows[i]
                    else core'.rows[i].status == if r.ok then Fresh else Failed
  {
  }

  /**
    After a register answer that reports a failure the stack arguments are left as they
    are, and nothing is pending that could still fill them.
   */
  lemma FailureLeavesStackArguments(core: Core, vs: seq<Variable>, context: Context, r: Response, i: nat)
    requires TA.DistinctNames(vs) && i < |vs| && OnStack(vs[i]) && context.atEntry
    requires r.pcSeq == Some(context.pcSeq) && r.id == Some(ArgRegId(context.pcSeq)) && r.runtimePc == "" && !r.ok
    ensures var planned := BuildEntryPlan(core, vs, context).0;
            var (accepted, core', requests) := ApplyArgReg(planned, r);
            && accepted && requests == [] && core'.pending == map[]
            && core'.rows[i].v == vs[i] && core'.rows[i].status == Unavailable
  {
    assert vs[i] in vs;
    EntryAsksFor(core, vs, context);
    var planned := BuildEntryPlan(core, vs, context).0;
    var p := planned.pending[ArgRegId(context.pcSeq)];
    NamesAreOfRegisters(vs, i);
  }

  lemma {:induction false} NamesAreOfRegisters(vs: seq<Variable>, i: nat)
    requires TA.DistinctNames(vs) && i < |vs| && !InRegister(vs[i])
    ensures vs[i].name !in RegisterNames(vs)
    decreases |vs|
  {
    var n := |vs| - 1;
    if i < n {
      NamesAreOfRegisters(vs[..n], i);
    } else {
      NamesComeFromRows(vs[..n]);
    }
  }

  lemma {:induction false} NamesComeFromRows(vs: seq<Variable>)
    ensures forall name :: name in RegisterNames(vs) ==> exists k :: 0 <= k < |vs| && vs[k].name == name
    decreases |vs|
  {
    if vs != [] {
      var init := vs[..|vs| - 1];
      NamesComeFromRows(init);
      forall name | name in RegisterNames(vs) ensures exists k :: 0 <= k < |vs| && vs[k].name == name {
        if name in RegisterNames(init) {
          var k :| 0 <= k < |init| && init[k].name == name;
          assert vs[k].name == name;
        } else {
          assert vs[|vs| - 1].name == name;
        }
      }
    }
  }
}
