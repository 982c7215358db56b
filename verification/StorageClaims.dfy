/** `_reject_duplicate_storage_claims`: no two locals may claim the same bits or the same stack bytes. */
module StorageClaims {
  import opened Basics
  import opened Bits
  import opened RegisterSurvival

  datatype Kind = RegisterKind | StackKind | ConstantKind | UnknownKind

  datatype Reason = Proved | AmbiguousRegister | UnresolvedStack | Other(text: string)

  datatype Evidence = Evidence(kind: Kind, register: Option<RegisterSpec>, stackOffset: Option<int>, width: int,
                               reason: Reason)

  /** The evidence dictionary in insertion order. */
  type Claims = seq<(nat, Evidence)>

  ghost predicate DistinctKeys(claims: Claims)
  {
    forall i, j :: 0 <= i < j < |claims| ==> claims[i].0 != claims[j].0
  }

  predicate RangesMeet(start: int, length: int, other: int, otherLength: int)
  {
    start < other + otherLength && other < start + length
  }

  predicate SameRegisterBits(left: Evidence, right: Evidence)
  {
    && left.kind == RegisterKind && right.kind == RegisterKind && left.register.Some? && right.register.Some?
    && left.register.value.full == right.register.value.full
    && RangesMeet(left.register.value.offset, 8 * left.width, right.register.value.offset, 8 * right.width)
  }

  predicate SameStackBytes(left: Evidence, right: Evidence)
  {
    && left.kind == StackKind && right.kind == StackKind && left.stackOffset.Some? && right.stackOffset.Some?
    && RangesMeet(left.stackOffset.value, left.width, right.stackOffset.value, right.width)
  }

  predicate Clash(left: Evidence, right: Evidence)
  {
    SameRegisterBits(left, right) || SameStackBytes(left, right)
  }

  function ReasonFor(kind: Kind): Reason
  {
    if kind == RegisterKind then AmbiguousRegister else UnresolvedStack
  }

  function Rejected(reason: Reason): Evidence
  {
    Evidence(UnknownKind, None, None, 0, reason)
  }

  /** Some other claim of the dictionary overlaps claim `i`. */
  ghost predicate Contested(claims: Claims, i: nat)
    requires i < |claims|
  {
    exists j :: 0 <= j < |claims| && j != i && Clash(claims[i].1, claims[j].1)
  }

  /** The loops have compared `i` and `j`, when they stand at row `a` and column `b`. */
  predicate Compared(i: nat, j: nat, a: nat, b: nat)
  {
    var low, high := if i < j then i else j, if i < j then j else i;
    low < a || (low == a && high < b)
  }

  ghost predicate ContestedSoFar(claims: Claims, i: nat, a: nat, b: nat)
    requires i < |claims|
  {
    exists j :: 0 <= j < |claims| && j != i && Compared(i, j, a, b) && Clash(claims[i].1, claims[j].1)
  }

  /** `rejected` names exactly the claims found contested so far, with the reason of their kind. */
  ghost predicate Records(claims: Claims, rejected: map<nat, Reason>, a: nat, b: nat)
  {
    forall i :: 0 <= i < |claims| ==>
      && (claims[i].0 in rejected <==> ContestedSoFar(claims, i, a, b))
      && (claims[i].0 in rejected ==> rejected[claims[i].0] == ReasonFor(claims[i].1.kind))
  }

  lemma ClashIsSymmetric(left: Evidence, right: Evidence)
    ensures Clash(left, right) ==>
            Clash(right, left) && left.kind == right.kind && left.kind in {RegisterKind, StackKind}
  {
  }

  /** One more comparison. */
  lemma RecordPair(claims: Claims, rejected: map<nat, Reason>, a: nat, b: nat)
    requires DistinctKeys(claims) && a < b < |claims| && Records(claims, rejected, a, b)
    ensures var reason := ReasonFor(claims[a].1.kind);
            var rejected' := if Clash(claims[a].1, claims[b].1)
              then rejected[claims[a].0 := reason][claims[b].0 := reason] else rejected;
            Records(claims, rejected', a, b + 1)
  {
    ClashIsSymmetric(claims[a].1, claims[b].1);
    forall i | 0 <= i < |claims|
      ensures ContestedSoFar(claims, i, a, b + 1) <==>
                ContestedSoFar(claims, i, a, b) || ((i == a || i == b) && Clash(claims[a].1, claims[b].1))
    {
      ContestedNext(claims, i, a, b);
    }
  }

  lemma ContestedNext(claims: Claims, i: nat, a: nat, b: nat)
    requires i < |claims| && a < b < |claims|
    ensures ContestedSoFar(claims, i, a, b + 1) <==>
              ContestedSoFar(claims, i, a, b) || ((i == a || i == b) && Clash(claims[a].1, claims[b].1))
  {
    ClashIsSymmetric(claims[a].1, claims[b].1);
    ClashIsSymmetric(claims[b].1, claims[a].1);
    if ContestedSoFar(claims, i, a, b) {
      var j :| 0 <= j < |claims| && j != i && Compared(i, j, a, b) && Clash(claims[i].1, claims[j].1);
      assert Compared(i, j, a, b + 1);
    }
    if i == a && Clash(claims[a].1, claims[b].1) {
      assert Compared(i, b, a, b + 1);
    }
    if i == b && Clash(claims[a].1, claims[b].1) {
      assert Compared(i, a, a, b + 1);
    }
  }

  lemma NextRow(claims: Claims, rejected: map<nat, Reason>, a: nat)
    requires a < |claims| && Records(claims, rejected, a, |claims|)
    ensures Records(claims, rejected, a + 1, a + 2)
  {
    forall i | 0 <= i < |claims|
      ensures ContestedSoFar(claims, i, a, |claims|) <==> ContestedSoFar(claims, i, a + 1, a + 2)
    {
      forall j | 0 <= j < |claims| && j != i
        ensures Compared(i, j, a, |claims|) <==> Compared(i, j, a + 1, a + 2)
      {
      }
    }
  }

  /** A claim is dropped exactly if it overlapped another claim of its kind; the others are untouched. */
  method RejectDuplicateClaims(claims: Claims) returns (result: Claims)
    requires DistinctKeys(claims)
    ensures |result| == |claims|
    ensures forall i :: 0 <= i < |claims| ==> result[i].0 == claims[i].0
    ensures forall i :: 0 <= i < |claims| ==>
              result[i].1 == if Contested(claims, i) then Rejected(ReasonFor(claims[i].1.kind)) else claims[i].1
  {
    var rejected: map<nat, Reason> := map[];
    for a := 0 to |claims|
      invariant Records(claims, rejected, a, a + 1)
    {
      for b := a + 1 to |claims|
        invariant Records(claims, rejected, a, b)
      {
        RecordPair(claims, rejected, a, b);
        if Clash(claims[a].1, claims[b].1) {
          var reason := ReasonFor(claims[a].1.kind);
          rejected := rejected[claims[a].0 := reason][claims[b].0 := reason];
        }
      }
      NextRow(claims, rejected, a);
    }
    AllCompared(claims, rejected);
    result := [];
    for i := 0 to |claims|
      invariant |result| == i
      invariant forall k :: 0 <= k < i ==>
                  result[k] == (claims[k].0,
                                if Contested(claims, k) then Rejected(ReasonFor(claims[k].1.kind)) else claims[k].1)
    {
      var (key, evidence) := claims[i];
      result := result + [(key, if key in rejected then Rejected(rejected[key]) else evidence)];
    }
  }

  lemma AllCompared(claims: Claims, rejected: map<nat, Reason>)
    requires Records(claims, rejected, |claims|, |claims| + 1)
    ensures forall i :: 0 <= i < |claims| ==>
              && (claims[i].0 in rejected <==> Contested(claims, i))
              && (claims[i].0 in rejected ==> rejected[claims[i].0] == ReasonFor(claims[i].1.kind))
  {
    forall i | 0 <= i < |claims|
      ensures ContestedSoFar(claims, i, |claims|, |claims| + 1) <==> Contested(claims, i)
    {
      if Contested(claims, i) {
        var j :| 0 <= j < |claims| && j != i && Clash(claims[i].1, claims[j].1);
        assert Compared(i, j, |claims|, |claims| + 1);
      }
    }
  }

  // ---------------------------------------------------------------- what overlap means

  /** A bit of a full register that a claim reads. */
  predicate ReadsBit(e: Evidence, full: string, bit: int)
  {
    && e.kind == RegisterKind && e.register.Some? && e.register.value.full == full
    && e.register.value.offset <= bit < e.register.value.offset + 8 * e.width
  }

  /** An address that a claim reads when the stack pointer is `rsp`. */
  predicate ReadsAddress(e: Evidence, rsp: int, address: int)
  {
    && e.kind == StackKind && e.stackOffset.Some?
    && rsp + e.stackOffset.value <= address < rsp + e.stackOffset.value + e.width
  }

  /** Two claims of positive width clash exactly if they share a register bit, or a stack byte at every `rsp`. */
  lemma ClashIsSharing(left: Evidence, right: Evidence, rsp: int)
    requires left.width > 0 && right.width > 0
    ensures Clash(left, right) <==>
              || (exists full, bit :: ReadsBit(left, full, bit) && ReadsBit(right, full, bit))
              || (exists address :: ReadsAddress(left, rsp, address) && ReadsAddress(right, rsp, address))
  {
    if SameRegisterBits(left, right) {
      var l, r := left.register.value, right.register.value;
      var bit := if l.offset < r.offset then r.offset else l.offset;
      assert ReadsBit(left, l.full, bit) && ReadsBit(right, l.full, bit);
    }
    if SameStackBytes(left, right) {
      var l, r := left.stackOffset.value, right.stackOffset.value;
      var address := rsp + if l < r then r else l;
      assert ReadsAddress(left, rsp, address) && ReadsAddress(right, rsp, address);
    }
  }

  /** Claims that do not clash share nothing, whatever their widths. */
  lemma NoClashNoSharing(left: Evidence, right: Evidence)
    requires !Clash(left, right)
    ensures forall full, bit :: !(ReadsBit(left, full, bit) && ReadsBit(right, full, bit))
    ensures forall rsp, address :: !(ReadsAddress(left, rsp, address) && ReadsAddress(right, rsp, address))
  {
  }

  /** What survives is pairwise disjoint: in register bits, and in stack bytes for every `rsp`. */
  lemma SurvivorsAreDisjoint(claims: Claims, i: nat, j: nat)
    requires i < |claims| && j < |claims| && i != j && !Contested(claims, i)
    ensures forall full, bit :: !(ReadsBit(claims[i].1, full, bit) && ReadsBit(claims[j].1, full, bit))
    ensures forall rsp, address :: !(ReadsAddress(claims[i].1, rsp, address) && ReadsAddress(claims[j].1, rsp, address))
  {
    NoClashNoSharing(claims[i].1, claims[j].1);
  }

  /** Whatever happens to the bits of other claims, the value a surviving register claim reads is the same. */
  lemma SurvivorsAreIndependent(claims: Claims, i: nat, before: int, after: int)
    requires i < |claims| && !Contested(claims, i) && claims[i].1.kind == RegisterKind && claims[i].1.register.Some?
    requires claims[i].1.width >= 0
    requires forall bit: nat :: Bit(before, bit) != Bit(after, bit) ==>
               exists j :: 0 <= j < |claims| && j != i && ReadsBit(claims[j].1, claims[i].1.register.value.full, bit)
    ensures var e := claims[i].1;
            Extract(before, e.register.value.offset, e.width) == Extract(after, e.register.value.offset, e.width)
  {
    var e := claims[i].1;
    forall bit: nat | e.register.value.offset <= bit < e.register.value.offset + 8 * e.width
      ensures Bit(before, bit) == Bit(after, bit)
    {
      if Bit(before, bit) != Bit(after, bit) {
        var j :| 0 <= j < |claims| && j != i && ReadsBit(claims[j].1, e.register.value.full, bit);
        SurvivorsAreDisjoint(claims, i, j);
        assert ReadsBit(e, e.register.value.full, bit);
      }
    }
    ExtractDependsOnWindow(before, after, e.register.value.offset, e.width);
  }
}
