/** `VVariableRecovery` with its mutable tables; every method refines the planner model. */
module VariableRecovery {
  import opened Basics
  import opened Values
  import M = RecoveryModel

  class VVariableRecovery {
    const maxHistory: nat
    var history: M.History
    var records: map<nat, M.Record>
    var evidence: map<nat, M.Storage>
    var pending: map<string, M.Pending>
    var pcSeq: Option<nat>
    var runtimePc: string
    var sources: seq<M.Variable>

    ghost function Model(): M.Planner
      reads this
    {
      M.Planner(maxHistory, history, records, evidence, pending, pcSeq, runtimePc, sources)
    }

    constructor (maxHistory: int)
      ensures Model() == M.Create(maxHistory)
    {
      this.maxHistory := if maxHistory < 1 then 1 else maxHistory;
      history, records, evidence, pending := [], map[], map[], map[];
      pcSeq, runtimePc, sources := None, "", [];
    }

    method StartContext(runtimePc: string, pcSeq: nat)
      modifies this
      ensures Model() == M.StartContext(old(Model()), runtimePc, pcSeq)
    {
      this.runtimePc, this.pcSeq := runtimePc, Some(pcSeq);
      pending, records, evidence, sources := map[], map[], map[], [];
    }

    /** `invalidate_pc`: a context in which no response can be accepted. */
    method InvalidatePc(runtimePc: string, pcSeq: nat)
      modifies this
      ensures Model() == M.StartContext(old(Model()), runtimePc, pcSeq)
      ensures pending == map[] && history == old(history)
    {
      StartContext(runtimePc, pcSeq);
    }

    method ClearRuntimeState()
      modifies this
      ensures Model() == M.ClearRuntimeState(old(Model()))
    {
      pcSeq, runtimePc := None, "";
      pending, records, evidence, sources := map[], map[], map[], [];
    }

    method PruneHistory()
      modifies `history
      ensures history == M.Prune(old(history), maxHistory)
    {
      while |history| > maxHistory
        invariant M.Prune(history, maxHistory) == M.Prune(old(history), maxHistory)
        decreases |history|
      {
        history := M.Without(history, M.Oldest(history));
      }
    }

    method MarkFresh(r: M.Record, value: string)
      modifies `history, `records
      ensures Model() == M.MarkFresh(old(Model()), r, value)
    {
      records := records[r.index := r.(value := value, status := M.Fresh, lastValue := value)];
      history := M.Put(history, (r.functionStart, r.index), M.Observe(sources, r, value));
      PruneHistory();
    }

    method SetRow(r: M.Record)
      modifies `records
      ensures Model() == M.SetRow(old(Model()), r)
    {
      records := records[r.index := r];
    }

    /** One row of `begin_pc`: the register it waits for, if any. */
    method PlanRow(v: M.Variable, analysisOk: bool, selected: set<nat>, runtimePc: string, pcSeq: nat,
                   ghost needed: set<string>, ghost waiting: seq<nat>) returns (register: Option<string>)
      modifies `history, `records
      ensures M.PlanRow(M.Plan(old(Model()), needed, waiting), v, analysisOk, selected, runtimePc, pcSeq)
           == M.Plan(Model(),
                     if register.Some? then needed + {register.value} else needed,
                     if register.Some? then waiting + [v.index] else waiting)
    {
      register := None;
      var storage := M.StorageFor(M.Planner(maxHistory, history, records, evidence, pending, this.pcSeq, this.runtimePc,
                                            sources),
                                  analysisOk, selected, v.index);
      var found := M.Matching(history, v);
      var last := if found.Some? then found.value.value else "";
      var r := M.Record(v.index, v.name, v.typ, v.size, v.functionStart, storage, M.Unavailable, "", pcSeq, runtimePc,
                        last);
      match M.Decide(analysisOk, storage, v.size) {
        case Blank => SetRow(r);
        case Show(text) => MarkFresh(r, text);
        case Hold => SetRow(M.StaleOrUnavailable(r));
        case Await(name) =>
          SetRow(M.StaleOrUnavailable(r));
          register := Some(name);
      }
    }

    /** The loop of `begin_pc` over the locals: the registers and rows that wait. */
    method PlanLocals(locals: seq<M.Variable>, analysisOk: bool, selected: set<nat>, runtimePc: string, pcSeq: nat)
      returns (needed: set<string>, waiting: seq<nat>)
      modifies `history, `records
      ensures M.PlanRows(M.Plan(old(Model()), {}, []), locals, analysisOk, selected, runtimePc, pcSeq) ==
              M.Plan(Model(), needed, waiting)
    {
      needed, waiting := {}, [];
      ghost var start := Model();
      for i := 0 to |locals|
        invariant M.PlanRows(M.Plan(start, {}, []), locals[..i], analysisOk, selected, runtimePc, pcSeq) ==
                  M.Plan(Model(), needed, waiting)
      {
        assert locals[..i + 1][..i] == locals[..i];
        var register := PlanRow(locals[i], analysisOk, selected, runtimePc, pcSeq, needed, waiting);
        if register.Some? {
          needed, waiting := needed + {register.value}, waiting + [locals[i].index];
        }
      }
      assert locals[..|locals|] == locals;
    }

    method BeginPc(vs: seq<M.Variable>, selected: set<nat>, analysis: M.Analysis, runtimePc: string, pcSeq: nat)
      returns (request: Option<M.Request>)
      modifies this
      ensures (Model(), request) == M.BeginPc(old(Model()), vs, selected, analysis, runtimePc, pcSeq)
    {
      StartContext(runtimePc, pcSeq);
      var locals := CollectLocals(vs);
      sources, evidence := locals, analysis.evidence;
      var needed, waiting := PlanLocals(locals, analysis.ok, selected, runtimePc, pcSeq);
      if needed == {} {
        return None;
      }
      pending := pending[RegId(pcSeq) := M.Pending(false, pcSeq, RegId(pcSeq), runtimePc, waiting, needed, "", 0)];
      return Some(M.RegRequest(pcSeq, RegId(pcSeq), runtimePc, needed));
    }

    method CollectLocals(vs: seq<M.Variable>) returns (locals: seq<M.Variable>)
      ensures locals == M.Locals(vs)
    {
      locals := [];
      for i := 0 to |vs|
        invariant locals == M.Locals(vs[..i])
      {
        assert vs[..i + 1][..i] == vs[..i];
        if !vs[i].isArg {
          locals := locals + [vs[i]];
        }
      }
      assert vs[..|vs|] == vs;
    }

    /** `_take_pending`: removes and returns the current request that the response answers. */
    method TakePending(r: M.Response, memory: bool) returns (p: Option<M.Pending>)
      modifies `pending
      ensures p == M.Correlated(old(Model()), r, memory)
      ensures Model() == if p.Some? then M.Take(old(Model()), r.id.value) else old(Model())
    {
      p := None;
      if pcSeq.None? || r.pcSeq.None? || r.pcSeq.value != pcSeq.value {
        return;
      }
      if r.runtimePc != "" && r.runtimePc != runtimePc {
        return;
      }
      if r.id.None? || r.id.value !in pending || pending[r.id.value].memory != memory {
        return;
      }
      p := Some(pending[r.id.value]);
      pending := pending - {r.id.value};
    }

    method FailRows(indexes: seq<nat>)
      modifies `records
      ensures Model() == M.FailRows(old(Model()), indexes)
    {
      for i := 0 to |indexes|
        invariant Model() == M.FailRows(old(Model()), indexes[..i])
      {
        assert indexes[..i + 1][..i] == indexes[..i];
        if indexes[i] in records {
          records := records[indexes[i] := M.MarkFailed(records[indexes[i]])];
        }
      }
      assert indexes[..|indexes|] == indexes;
    }

    /** One row of an accepted register response; a stack row yields its memory request. */
    method ApplyRegRow(p: M.Pending, registers: map<string, M.Raw>, index: nat, ghost sofar: seq<M.Request>)
      returns (request: seq<M.Request>)
      modifies `history, `records, `pending
      ensures M.ApplyRegRow(M.Applied(old(Model()), sofar), p, registers, index) == M.Applied(Model(), sofar + request)
    {
      request := [];
      assert sofar + [] == sofar;
      if index !in records || index !in evidence {
        return;
      }
      var r := records[index];
      match evidence[index] {
        case Register(spec) =>
          var text := M.RegisterText(registers, spec, r.width);
          if text.Some? {
            MarkFresh(r, text.value);
          } else {
            records := records[index := M.MarkFailed(r)];
          }
        case Stack(offset) =>
          var address := M.StackAddress(registers, offset);
          if address.Some? {
            var id := MemId(p.pcSeq, index);
            pending := pending[id := M.Pending(true, p.pcSeq, id, p.runtimePc, [index], {}, address.value, r.width)];
            request := [M.MemRequest(p.pcSeq, id, p.runtimePc, address.value, r.width)];
          } else {
            records := records[index := M.MarkFailed(r)];
          }
        case _ =>
      }
    }

    method ApplyRegResponse(r: M.Response) returns (accepted: bool, requests: seq<M.Request>)
      modifies this
      ensures (accepted, Model(), requests) == M.ApplyReg(old(Model()), r)
      ensures !accepted ==> Model() == old(Model()) && requests == []
    {
      var taken := TakePending(r, false);
      if taken.None? {
        return false, [];
      }
      var p := taken.value;
      accepted, requests := true, [];
      if !r.ok || r.registers.None? {
        FailRows(p.indexes);
        return;
      }
      ghost var start := Model();
      for i := 0 to |p.indexes|
        invariant M.ApplyRegRows(M.Applied(start, []), p, r.registers.value, p.indexes[..i]) ==
                  M.Applied(Model(), requests)
      {
        assert p.indexes[..i + 1][..i] == p.indexes[..i];
        var request := ApplyRegRow(p, r.registers.value, p.indexes[i], requests);
        requests := requests + request;
      }
      assert p.indexes[..|p.indexes|] == p.indexes;
    }

    method ApplyMemRow(p: M.Pending, r: M.Response, index: nat)
      modifies `history, `records
      ensures Model() == M.ApplyMemRow(old(Model()), p, r, index)
    {
      if index !in records {
        return;
      }
      var text := if r.ok then M.MemoryText(r.bytesHex, p.size) else None;
      if text.Some? {
        MarkFresh(records[index], text.value);
      } else {
        records := records[index := M.MarkFailed(records[index])];
      }
    }

    /** The request is taken out first and put back when the address or the size disagrees. */
    method ApplyMemResponse(r: M.Response) returns (accepted: bool)
      requires forall id :: id in pending ==> pending[id].id == id
      modifies this
      ensures (accepted, Model()) == M.ApplyMem(old(Model()), r)
      ensures !accepted ==> Model() == old(Model())
    {
      ghost var before := pending;
      var taken := TakePending(r, true);
      if taken.None? {
        return false;
      }
      var p := taken.value;
      if (r.address != "" && r.address != p.address) || (r.size.Some? && r.size.value != p.size) {
        pending := pending[p.id := p];
        assert pending == before;
        return false;
      }
      ghost var start := Model();
      for i := 0 to |p.indexes|
        invariant Model() == M.ApplyMemRows(start, p, r, p.indexes[..i])
      {
        assert p.indexes[..i + 1][..i] == p.indexes[..i];
        ApplyMemRow(p, r, p.indexes[i]);
      }
      assert p.indexes[..|p.indexes|] == p.indexes;
      return true;
    }
  }
}
