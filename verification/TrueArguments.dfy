/** The argument planner shows only what is so at the stop of its entry context. */
module TrueArguments {
  import opened Basics
  import opened Values
  import opened RecoveryModel
  import opened EntryArguments
  import opened Target

  ghost predicate DistinctNames(vs: seq<Variable>)
  {
    forall i, j :: 0 <= i < j < |vs| ==> vs[i].name != vs[j].name
  }

  ghost predicate DistinctRows(rows: seq<Row>)
  {
    forall i, j :: 0 <= i < j < |rows| ==> rows[i].v.name != rows[j].v.name
  }

  ghost predicate RowsTrue(stop: Stop, rows: seq<Row>)
  {
    forall i :: 0 <= i < |rows| && rows[i].status == Fresh ==> ArgumentShows(stop, rows[i].v, rows[i].value)
  }

  /** A pending memory request reads the stack slot of every row that bears its name. */
  ghost predicate ReadsSlot(stop: Stop, rows: seq<Row>, p: ArgPending)
  {
    |p.names| == 1 && forall i :: 0 <= i < |rows| && rows[i].v.name == p.names[0] ==> IsSlotOf(stop, rows[i].v, p)
  }

  ghost predicate IsSlotOf(stop: Stop, v: Variable, p: ArgPending)
  {
    && OnStack(v) && "rsp" in stop.regs && p.size == ReadSize(v.size)
    && p.address == HexInt(stop.regs["rsp"] + StackArgOffset(v.argIndex.value))
  }

  /** The pending table of an entry: its register request, or the stack requests that follow it. */
  ghost predicate PendingTrue(stop: Stop, core: Core)
  {
    forall id :: id in core.pending ==>
      && core.context.Some?
      && if core.pending[id].memory
         then ReadsSlot(stop, core.rows, core.pending[id]) && ArgRegId(core.context.value.pcSeq) !in core.pending
         else id == ArgRegId(core.context.value.pcSeq)
  }

  ghost predicate AllTrue(stop: Stop, core: Core)
  {
    DistinctRows(core.rows) && RowsTrue(stop, core.rows) && PendingTrue(stop, core)
  }

  /** A rebuilt table has no fresh row and at most the register request. */
  lemma PlanIsTrue(stop: Stop, core: Core, vs: seq<Variable>, context: Context)
    requires DistinctNames(vs)
    ensures AllTrue(stop, BuildEntryPlan(core, vs, context).0)
  {
  }

  lemma FilledRowsTrue(stop: Stop, rows: seq<Row>, r: Response, runtimePc: string)
    requires RowsTrue(stop, rows) && DistinctRows(rows) && r.ok && r.registers.Some? && Truthful(stop, RegAnswer(r))
    ensures RowsTrue(stop, Each(rows, RegisterChange(r.registers.value, runtimePc)))
    ensures DistinctRows(Each(rows, RegisterChange(r.registers.value, runtimePc)))
  {
    var out := Each(rows, RegisterChange(r.registers.value, runtimePc));
    forall i | 0 <= i < |out|
      ensures out[i].v == rows[i].v && (out[i].status == Fresh ==> ArgumentShows(stop, out[i].v, out[i].value))
    {
      FilledRowTrue(stop, rows[i], r, runtimePc);
    }
  }

  lemma FilledRowTrue(stop: Stop, row: Row, r: Response, runtimePc: string)
    requires row.status == Fresh ==> ArgumentShows(stop, row.v, row.value)
    requires r.ok && r.registers.Some? && Truthful(stop, RegAnswer(r))
    ensures var out := FillRegister(row, r.registers.value, runtimePc);
            out.v == row.v && (out.status == Fresh ==> ArgumentShows(stop, out.v, out.value))
  {
    if InRegister(row.v) && EntryRegister(row.v.argIndex.value) in r.registers.value && SupportedWidth(row.v.size) {
      MaskShows(stop.regs[EntryRegister(row.v.argIndex.value)], row.v.size);
    }
  }

  /** An issued stack request: stored under its own id, for the slot of the row it names. */
  ghost predicate IssuedSlot(stop: Stop, all: seq<Row>, n: nat, pcSeq: nat, id: string, q: ArgPending)
  {
    && q.memory && q.pcSeq == pcSeq && q.id == id && q.address != "" && ReadsSlot(stop, all, q)
    && exists i :: 0 <= i < n && i < |all| && id == ArgMemId(pcSeq, all[i].v.name)
  }

  predicate Matches(issued: Issued, pcSeq: nat, q: Request)
  {
    && q.MemRequest? && q.pcSeq == pcSeq && q.id in issued.pending
    && q.address == issued.pending[q.id].address && q.size == issued.pending[q.id].size
  }

  /** The stack requests issued for the first `n` rows agree with the pending table. */
  ghost predicate Issues(stop: Stop, all: seq<Row>, n: nat, pcSeq: nat, issued: Issued)
  {
    && (forall id :: id in issued.pending ==> IssuedSlot(stop, all, n, pcSeq, id, issued.pending[id]))
    && (forall q :: q in issued.requests ==> Matches(issued, pcSeq, q))
  }

  lemma IdIsNew(stop: Stop, all: seq<Row>, n: nat, pcSeq: nat, before: Issued)
    requires DistinctRows(all) && n < |all| && Issues(stop, all, n, pcSeq, before)
    ensures ArgMemId(pcSeq, all[n].v.name) !in before.pending
  {
    var id := ArgMemId(pcSeq, all[n].v.name);
    if id in before.pending {
      assert IssuedSlot(stop, all, n, pcSeq, id, before.pending[id]);
      var i :| 0 <= i < n && id == ArgMemId(pcSeq, all[i].v.name);
      ArgMemIdsDiffer(pcSeq, all[n].v.name, all[i].v.name);
      assert false;
    }
  }

  lemma IssueRow(stop: Stop, all: seq<Row>, n: nat, p: ArgPending, before: Issued)
    requires DistinctRows(all) && "rsp" in stop.regs && n < |all| && OnStack(all[n].v)
    requires Issues(stop, all, n, p.pcSeq, before)
    ensures var q := StackPending(p, all[n].v, stop.regs["rsp"]);
            Issues(stop, all, n + 1, p.pcSeq,
                   Issued(before.pending[q.id := q],
                          before.requests + [MemRequest(p.pcSeq, q.id, p.runtimePc, q.address, q.size)]))
  {
    var q := StackPending(p, all[n].v, stop.regs["rsp"]);
    IdIsNew(stop, all, n, p.pcSeq, before);
    assert IssuedSlot(stop, all, n + 1, p.pcSeq, q.id, q);
    forall id | id in before.pending
      ensures IssuedSlot(stop, all, n + 1, p.pcSeq, id, before.pending[id])
    {
      assert IssuedSlot(stop, all, n, p.pcSeq, id, before.pending[id]);
    }
    forall m | m in before.requests
      ensures m.MemRequest? && m.id != q.id
    {
      assert Matches(before, p.pcSeq, m);
    }
  }

  lemma {:induction false} IssuedTrue(stop: Stop, all: seq<Row>, n: nat, p: ArgPending)
    requires DistinctRows(all) && "rsp" in stop.regs && n <= |all|
    ensures Issues(stop, all, n, p.pcSeq, IssueStack(Issued(map[], []), all[..n], p, stop.regs["rsp"]))
  {
    if n > 0 {
      assert all[..n][..n - 1] == all[..n - 1];
      IssuedTrue(stop, all, n - 1, p);
      var before := IssueStack(Issued(map[], []), all[..n - 1], p, stop.regs["rsp"]);
      if OnStack(all[n - 1].v) {
        IssueRow(stop, all, n - 1, p, before);
      } else {
        forall id | id in before.pending
          ensures IssuedSlot(stop, all, n, p.pcSeq, id, before.pending[id])
        {
          assert IssuedSlot(stop, all, n - 1, p.pcSeq, id, before.pending[id]);
        }
      }
    }
  }

  /** What follows once `rsp` is known: the table holds exactly the issued stack requests. */
  lemma IssuedTable(stop: Stop, context: Option<Context>, rows: seq<Row>, p: ArgPending)
    requires DistinctRows(rows) && "rsp" in stop.regs && context.Some? && context.value.pcSeq == p.pcSeq
    ensures var issued := IssueStack(Issued(map[], []), rows, p, stop.regs["rsp"]);
            && Issues(stop, rows, |rows|, p.pcSeq, issued) && ArgRegId(p.pcSeq) !in issued.pending
            && PendingTrue(stop, Core(context, issued.pending, rows))
  {
    assert rows[..|rows|] == rows;
    IssuedTrue(stop, rows, |rows|, p);
    var issued := IssueStack(Issued(map[], []), rows, p, stop.regs["rsp"]);
    if ArgRegId(p.pcSeq) in issued.pending {
      assert IssuedSlot(stop, rows, |rows|, p.pcSeq, ArgRegId(p.pcSeq), issued.pending[ArgRegId(p.pcSeq)]);
      var i :| 0 <= i < |rows| && ArgRegId(p.pcSeq) == ArgMemId(p.pcSeq, rows[i].v.name);
      IdKindsDiffer(p.pcSeq, 0, rows[i].v.name);
      assert false;
    }
    forall id | id in issued.pending
      ensures issued.pending[id].memory && ReadsSlot(stop, rows, issued.pending[id])
    {
      assert IssuedSlot(stop, rows, |rows|, p.pcSeq, id, issued.pending[id]);
    }
  }

  /** A failed change leaves no new fresh row. */
  lemma FailedRowsTrue(stop: Stop, rows: seq<Row>, change: Row -> Row)
    requires RowsTrue(stop, rows) && DistinctRows(rows)
    requires forall row: Row :: change(row) == row || change(row) == row.(status := Failed)
    ensures RowsTrue(stop, Each(rows, change)) && DistinctRows(Each(rows, change))
  {
    var out := Each(rows, change);
    assert forall i :: 0 <= i < |rows| ==> out[i] == rows[i] || out[i] == rows[i].(status := Failed);
  }

  /** A truthful register answer fills true rows and issues requests for the right slots. */
  lemma RegisterResponseTrue(stop: Stop, core: Core, r: Response)
    requires AllTrue(stop, core) && OnlyAtEntry(core) && Truthful(stop, RegAnswer(r))
    ensures AllTrue(stop, ApplyArgReg(core, r).1)
  {
    var c := ArgCorrelated(core, r, false);
    if c.Some? {
      var p := c.value;
      TakenRegister(stop, core, r);
      if !r.ok || r.registers.None? {
        FailedRowsTrue(stop, core.rows, ErrorChange(p.names));
      } else {
        FilledRowsTrue(stop, core.rows, r, p.runtimePc);
        var rows := Each(core.rows, RegisterChange(r.registers.value, p.runtimePc));
        if RegisterNumber(r.registers.value, "rsp").Some? {
          IssuedTable(stop, core.context, rows, p);
        } else {
          FailedRowsTrue(stop, rows, FailStack);
        }
      }
    }
  }

  /** The register request is the only one pending when it is answered. */
  lemma TakenRegister(stop: Stop, core: Core, r: Response)
    requires PendingTrue(stop, core) && ArgCorrelated(core, r, false).Some?
    ensures core.context.Some? && r.id.value == ArgRegId(core.context.value.pcSeq)
    ensures core.pending - {r.id.value} == map[]
  {
    forall id | id in core.pending
      ensures id == r.id.value
    {
    }
  }

  /** The answer carries the address of its request and, when it succeeded, as many bytes as were asked for. */
  predicate Fits(p: ArgPending, r: Response)
  {
    r.address == p.address && (r.ok ==> FromHex(r.bytesHex).Some? && |FromHex(r.bytesHex).value| == p.size)
  }

  lemma BytesText(bytesHex: string, size: nat)
    requires SupportedWidth(size) && FromHex(bytesHex).Some? && |FromHex(bytesHex).value| == size
    ensures ShowsBytes(ArgumentMemoryText(bytesHex, size), FromHex(bytesHex).value)
  {
    var bytes := FromHex(bytesHex).value;
    assert bytes[..size] == bytes;
    LittleEndianShows(bytes);
  }

  lemma SlotText(stop: Stop, v: Variable, r: Response, p: ArgPending)
    requires IsSlotOf(stop, v, p) && Fits(p, r) && r.ok && Truthful(stop, MemAnswer(r))
    ensures ArgumentShows(stop, v, ArgumentMemoryText(r.bytesHex, p.size))
  {
    var at := stop.regs["rsp"] + StackArgOffset(v.argIndex.value);
    HexRoundTrip(at);
    BytesText(r.bytesHex, p.size);
  }

  lemma MemoryResponseTrue(stop: Stop, core: Core, r: Response)
    requires AllTrue(stop, core) && Truthful(stop, MemAnswer(r))
    requires r.id.Some? && r.id.value in core.pending ==> Fits(core.pending[r.id.value], r)
    ensures AllTrue(stop, ApplyArgMem(core, r).1)
  {
    var c := ArgCorrelated(core, r, true);
    if c.Some? {
      var p, rows := c.value, Each(core.rows, MemoryChange(c.value, r));
      assert ReadsSlot(stop, core.rows, p);
      MemoryRowsTrue(stop, core.rows, p, r);
      SameVariables(stop, core, rows, r.id.value);
    }
  }

  /** The rows that an answer for their slot fills show what the slot held. */
  lemma MemoryRowsTrue(stop: Stop, rows: seq<Row>, p: ArgPending, r: Response)
    requires DistinctRows(rows) && RowsTrue(stop, rows) && ReadsSlot(stop, rows, p) && Fits(p, r)
    requires Truthful(stop, MemAnswer(r))
    ensures var filled := Each(rows, MemoryChange(p, r));
            DistinctRows(filled) && RowsTrue(stop, filled) && |filled| == |rows|
              && forall i :: 0 <= i < |rows| ==> filled[i].v == rows[i].v
  {
    var filled := Each(rows, MemoryChange(p, r));
    forall i | 0 <= i < |rows|
      ensures filled[i].v == rows[i].v
      ensures (filled[i].status == Fresh ==> ArgumentShows(stop, filled[i].v, filled[i].value))
    {
      MemoryRowTrue(stop, rows, p, r, i);
    }
  }

  lemma MemoryRowTrue(stop: Stop, rows: seq<Row>, p: ArgPending, r: Response, i: nat)
    requires i < |rows| && (rows[i].status == Fresh ==> ArgumentShows(stop, rows[i].v, rows[i].value))
    requires ReadsSlot(stop, rows, p) && Fits(p, r) && Truthful(stop, MemAnswer(r))
    ensures var filled := FillMemory(rows[i], p, r);
            filled.v == rows[i].v && (filled.status == Fresh ==> ArgumentShows(stop, filled.v, filled.value))
  {
    if rows[i].v.name in p.names {
      assert rows[i].v.name == p.names[0];
      FilledSlotTrue(stop, rows[i], p, r);
    }
  }

  lemma FilledSlotTrue(stop: Stop, row: Row, p: ArgPending, r: Response)
    requires IsSlotOf(stop, row.v, p) && row.v.name in p.names && Fits(p, r) && Truthful(stop, MemAnswer(r))
    ensures var filled := FillMemory(row, p, r);
            filled.v == row.v && (filled.status == Fresh ==> ArgumentShows(stop, row.v, filled.value))
  {
    if r.ok {
      SlotText(stop, row.v, r, p);
    }
  }

  /** Pending requests stay true when rows keep their variables and one id is taken. */
  lemma SameVariables(stop: Stop, core: Core, rows: seq<Row>, id: string)
    requires PendingTrue(stop, core) && |rows| == |core.rows|
    requires forall i :: 0 <= i < |rows| ==> rows[i].v == core.rows[i].v
    ensures PendingTrue(stop, Core(core.context, core.pending - {id}, rows))
  {
    var left := core.pending - {id};
    forall other | other in left && left[other].memory
      ensures ReadsSlot(stop, rows, left[other])
    {
      SameSlot(stop, core.rows, rows, core.pending[other]);
    }
  }

  lemma SameSlot(stop: Stop, rows: seq<Row>, rows': seq<Row>, p: ArgPending)
    requires ReadsSlot(stop, rows, p) && |rows'| == |rows|
    requires forall i :: 0 <= i < |rows'| ==> rows'[i].v == rows[i].v
    ensures ReadsSlot(stop, rows', p)
  {
  }
}
