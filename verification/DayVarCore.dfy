/** `DayVarCore` with its mutable rows and pending table; every method refines the argument model. */
module DayVarCoreClass {
  import opened Basics
  import opened Values
  import opened RecoveryModel
  import A = EntryArguments

  class DayVarCore {
    var context: Option<A.Context>
    var pending: map<string, A.ArgPending>
    var rows: seq<A.Row>

    ghost function Model(): A.Core
      reads this
    {
      A.Core(context, pending, rows)
    }

    constructor ()
      ensures Model() == A.INITIAL
    {
      context, pending, rows := None, map[], [];
    }

    method StartPcContext(started: A.Context)
      modifies `context, `pending
      ensures Model() == A.StartPcContext(old(Model()), started)
    {
      context := Some(started);
      pending := map[];
    }

    /** The loop of `build_entry_plan`: the new rows, and what they need at an entry. */
    method PlanRows(vs: seq<Variable>, runtimePc: string, atEntry: bool)
      returns (planned: seq<A.Row>, needed: set<string>, names: seq<string>)
      ensures planned == A.PlanRows(rows, vs, runtimePc, atEntry)
      ensures needed == if atEntry then A.NeededRegisters(vs) else {}
      ensures atEntry ==> names == A.RegisterNames(vs)
    {
      planned, needed, names := [], {}, [];
      for i := 0 to |vs|
        invariant planned == A.PlanRows(rows, vs[..i], runtimePc, atEntry)
        invariant needed == if atEntry then A.NeededRegisters(vs[..i]) else {}
        invariant atEntry ==> names == A.RegisterNames(vs[..i])
      {
        assert vs[..i + 1][..i] == vs[..i];
        planned := planned + [A.PlanRow(rows, vs[i], runtimePc, atEntry)];
        if atEntry && A.InRegister(vs[i]) {
          needed := needed + {A.EntryRegister(vs[i].argIndex.value)};
          names := names + [vs[i].name];
        } else if atEntry && A.OnStack(vs[i]) {
          needed := needed + {"rsp"};
        }
      }
      assert vs[..|vs|] == vs;
    }

    method BuildEntryPlan(vs: seq<Variable>, started: A.Context) returns (request: Option<Request>)
      modifies this
      ensures (Model(), request) == A.BuildEntryPlan(old(Model()), vs, started)
    {
      StartPcContext(started);
      var planned, needed, names := PlanRows(vs, started.runtimePc, started.atEntry);
      rows := planned;
      if needed == {} {
        return None;
      }
      var id := ArgRegId(started.pcSeq);
      pending := pending[id := A.ArgPending(false, started.pcSeq, id, started.runtimePc, names, needed, "", 0)];
      return Some(RegRequest(started.pcSeq, id, started.runtimePc, needed));
    }

    method TakePending(r: Response, memory: bool) returns (p: Option<A.ArgPending>)
      modifies `pending
      ensures p == A.ArgCorrelated(old(Model()), r, memory)
      ensures pending == if p.Some? then old(pending) - {r.id.value} else old(pending)
    {
      p := None;
      if context.None? || r.pcSeq.None? || r.pcSeq.value != context.value.pcSeq {
        return;
      }
      if r.runtimePc != "" && r.runtimePc != context.value.runtimePc {
        return;
      }
      if r.id.None? || r.id.value !in pending || pending[r.id.value].memory != memory {
        return;
      }
      p := Some(pending[r.id.value]);
      pending := pending - {r.id.value};
    }

    /** Changes every row in place. */
    method ChangeRows(change: A.Row -> A.Row)
      modifies `rows
      ensures rows == A.Each(old(rows), change)
    {
      for i := 0 to |rows|
        invariant |rows| == |old(rows)|
        invariant rows[..i] == A.Each(old(rows[..i]), change) && rows[i..] == old(rows)[i..]
      {
        ghost var before := rows;
        assert before[i] == old(rows)[i];
        rows := rows[i := change(rows[i])];
        assert old(rows)[..i + 1][..i] == old(rows)[..i];
        assert rows[..i + 1] == before[..i] + [change(old(rows)[i])];
      }
      assert rows[..|rows|] == rows && old(rows)[..|old(rows)|] == old(rows);
    }

    /** `_build_stack_mem_requests` once `rsp` is known. */
    method IssueStack(p: A.ArgPending, rsp: int) returns (requests: seq<Request>)
      modifies `pending
      ensures A.Issued(pending, requests) == A.IssueStack(A.Issued(old(pending), []), rows, p, rsp)
    {
      requests := [];
      for i := 0 to |rows|
        invariant A.Issued(pending, requests) == A.IssueStack(A.Issued(old(pending), []), rows[..i], p, rsp)
      {
        assert rows[..i + 1][..i] == rows[..i];
        var v := rows[i].v;
        if A.OnStack(v) {
          var q := A.StackPending(p, v, rsp);
          pending := pending[q.id := q];
          requests := requests + [MemRequest(p.pcSeq, q.id, p.runtimePc, q.address, q.size)];
        }
      }
      assert rows[..|rows|] == rows;
    }

    method ApplyRegResponse(r: Response) returns (accepted: bool, requests: seq<Request>)
      modifies this
      ensures (accepted, Model(), requests) == A.ApplyArgReg(old(Model()), r)
      ensures !accepted ==> Model() == old(Model()) && requests == []
    {
      var taken := TakePending(r, false);
      if taken.None? {
        return false, [];
      }
      var p := taken.value;
      accepted, requests := true, [];
      if !r.ok || r.registers.None? {
        ChangeRows(A.ErrorChange(p.names));
        return;
      }
      ChangeRows(A.RegisterChange(r.registers.value, p.runtimePc));
      var rsp := RegisterNumber(r.registers.value, "rsp");
      if rsp.None? {
        ChangeRows(A.FailStack);
        return;
      }
      requests := IssueStack(p, rsp.value);
    }

    method ApplyMemResponse(r: Response) returns (accepted: bool)
      modifies this
      ensures (accepted, Model()) == A.ApplyArgMem(old(Model()), r)
      ensures !accepted ==> Model() == old(Model())
    {
      var taken := TakePending(r, true);
      if taken.None? {
        return false;
      }
      ChangeRows(A.MemoryChange(taken.value, r));
      return true;
    }
  }
}
