/** Two-phase index allocation (internal/controllers/vpc/register.go, internal/nihandler/handler.go):
    request a register for every network instance, then read all of them back. The API server is the
    environment: calls may fail, and between any two calls registers may become ready. */
module Registers {
  import opened Wrappers
  import opened VpcSpec

  /** The network instance names of `GetBdName` and `GetRtName`, and the kind `GetNiKind` gives them. */
  datatype NiName = BdNi(name: string) | RtNi(name: string)

  datatype NiInfo = NiInfo(name: NiName, index: Option<nat>)

  /** A register object: whether its ready condition is true, and the index allocated to it. */
  datatype Register = Register(ready: bool, ni: Option<nat>)

  type RegisterMap = map<NiName, Register>

  predicate Allocated(registers: RegisterMap, n: NiName) {
    n in registers && registers[n].ready && registers[n].ni.Some?
  }

  /** The registry never allocates one index to two network instances. */
  predicate Distinct(registers: RegisterMap) {
    forall m, n | m in registers && n in registers ::
      Allocated(registers, m) && Allocated(registers, n) && registers[m].ni == registers[n].ni ==> m == n
  }

  /** What may happen to the registers as time passes: none goes away, and an allocation is final. */
  predicate Later(a: RegisterMap, b: RegisterMap) {
    a.Keys <= b.Keys && forall n | n in a :: Allocated(a, n) ==> b[n] == a[n]
  }

  class ApiServer {
    var registers: RegisterMap
    var calls: nat
    /** Whether the call with a given number gets through. */
    const up: nat -> bool

    constructor (up: nat -> bool)
      ensures registers == map[] && calls == 0 && this.up == up
    {
      registers := map[];
      calls := 0;
      this.up := up;
    }

    /** Anything may have happened to the registers when the next call is served. */
    method Call() returns (ok: bool)
      requires Distinct(registers)
      modifies this
      ensures Later(old(registers), registers) && Distinct(registers)
      ensures calls == old(calls) + 1 && ok == up(old(calls))
    {
      var later: RegisterMap := *;
      if !Later(registers, later) || !Distinct(later) {
        later := registers;
      }
      ok := up(calls);
      registers, calls := later, calls + 1;
    }

    method CreateNiRegister(niInfo: NiInfo) returns (r: Result<()>)
      requires Distinct(registers)
      modifies this
      ensures Later(old(registers), registers) && Distinct(registers)
      ensures calls == old(calls) + 1 && (r.Ok? <==> up(old(calls)))
      ensures r.Ok? ==> niInfo.name in registers
    {
      var ok := Call();
      if !ok {
        return Err(ApiFailure);
      }
      if niInfo.name !in registers {
        registers := registers[niInfo.name := Register(false, None)];
      }
      return Ok(());
    }

    method GetNiRegister(niInfo: NiInfo) returns (r: Result<nat>)
      requires Distinct(registers)
      modifies this
      ensures Later(old(registers), registers) && Distinct(registers)
      ensures calls == old(calls) + 1
      ensures r.Ok? <==> up(old(calls)) && Allocated(registers, niInfo.name)
      ensures r.Ok? ==> niInfo.name in registers && registers[niInfo.name].ready
      ensures r.Ok? ==> registers[niInfo.name].ni == Some(r.value)
    {
      var ok := Call();
      if !ok || niInfo.name !in registers {
        return Err(ApiFailure);
      }
      var o := registers[niInfo.name];
      if o.ready {
        match o.ni {
          case Some(ni) => return Ok(ni);
          case None => return Err(RegisterUnavailable);
        }
      }
      return Err(RegisterUnavailable);
    }
  }

  ghost predicate AllAllocated(names: set<NiName>, registers: RegisterMap) {
    forall n :: n in names ==> Allocated(registers, n)
  }

  /** Every name with the index its register holds. */
  ghost function Allocation(names: set<NiName>, registers: RegisterMap): map<NiName, NiInfo>
    requires AllAllocated(names, registers)
  {
    map n | n in names :: NiInfo(n, registers[n].ni)
  }

  /** What one pass guarantees, between the registers before and after it. */
  ghost predicate Pass(
    names: set<NiName>, before: RegisterMap, after: RegisterMap, createsUp: bool, allUp: bool,
    r: Result<map<NiName, NiInfo>>)
  {
    && Later(before, after)
    && (createsUp ==> names <= after.Keys)
    && (r.Ok? ==> AllAllocated(names, after) && r.value == Allocation(names, after))
    && (createsUp && allUp && AllAllocated(names, before) ==> r.Ok?)
  }

  ghost predicate Up(up: nat -> bool, from: nat, to: nat) {
    forall k :: from <= k < to ==> up(k)
  }

  function BdNames(vpc: VpcView): set<NiName> {
    set bd | bd in vpc.bridgeDomains :: BdNi(bd)
  }

  function RtNames(vpc: VpcView): set<NiName> {
    set rt | rt in vpc.routingTables :: RtNi(rt)
  }

  /** The network instances of a VPC: one for each bridge domain and routing table. */
  function NiNames(vpc: VpcView): set<NiName> {
    BdNames(vpc) + RtNames(vpc)
  }

  ghost predicate WellNamed(nis: map<NiName, NiInfo>) {
    forall n :: n in nis ==> nis[n].name == n
  }

  ghost predicate HasIndexes(nis: map<NiName, NiInfo>, names: set<NiName>, registers: RegisterMap) {
    forall n :: n in names ==> n in nis && Allocated(registers, n) && nis[n].index == registers[n].ni
  }

  /** The loops that request a register for each name, in any order. */
  method CreateRegisters(api: ApiServer, names: set<NiName>, before: map<NiName, NiInfo>)
    returns (r: Result<()>, nis: map<NiName, NiInfo>)
    requires Distinct(api.registers) && WellNamed(before)
    modifies api
    ensures Distinct(api.registers) && Later(old(api.registers), api.registers) && old(api.calls) <= api.calls
    ensures r.Ok? ==> nis.Keys == before.Keys + names && names <= api.registers.Keys && WellNamed(nis)
    ensures r.Ok? <==> Up(api.up, old(api.calls), api.calls)
  {
    nis := before;
    var rest := names;
    while rest != {}
      invariant rest <= names && WellNamed(nis)
      invariant nis.Keys == before.Keys + (names - rest) && names - rest <= api.registers.Keys
      invariant Distinct(api.registers) && Later(old(api.registers), api.registers)
      invariant old(api.calls) <= api.calls && Up(api.up, old(api.calls), api.calls)
      decreases rest
    {
      var n :| n in rest;
      var ni := NiInfo(n, None);
      nis := nis[n := ni];
      ghost var call := api.calls;
      var created := api.CreateNiRegister(ni);
      if created.Err? {
        assert !api.up(call);
        return Err(created.error), nis;
      }
      rest := rest - {n};
    }
    r := Ok(());
  }

  /** The loops that read the registers back and fill in the index of each entry. */
  method ReadRegisters(api: ApiServer, names: set<NiName>, before: map<NiName, NiInfo>, ghost read: set<NiName>)
    returns (r: Result<()>, nis: map<NiName, NiInfo>)
    requires Distinct(api.registers) && WellNamed(before) && names <= before.Keys
    requires HasIndexes(before, read, api.registers)
    modifies api
    ensures Distinct(api.registers) && Later(old(api.registers), api.registers) && old(api.calls) <= api.calls
    ensures r.Ok? ==> nis.Keys == before.Keys && WellNamed(nis) && HasIndexes(nis, read + names, api.registers)
    ensures AllAllocated(names, old(api.registers)) && Up(api.up, old(api.calls), api.calls) ==> r.Ok?
  {
    nis := before;
    var rest := names;
    while rest != {}
      invariant rest <= names && WellNamed(nis) && nis.Keys == before.Keys
      invariant HasIndexes(nis, read + (names - rest), api.registers)
      invariant Distinct(api.registers) && Later(old(api.registers), api.registers) && old(api.calls) <= api.calls
      decreases rest
    {
      var n :| n in rest;
      ghost var call := api.calls;
      var index := api.GetNiRegister(nis[n]);
      if index.Err? {
        assert !api.up(call) || !Allocated(api.registers, n);
        return Err(index.error), nis;
      }
      nis := nis[n := nis[n].(index := Some(index.value))];
      rest := rest - {n};
    }
    assert names - rest == names;
    r := Ok(());
  }

  /** The first half of `allocateNiIndexes`: bridge domains, then routing tables. */
  method RequestAll(api: ApiServer, bdNames: set<NiName>, rtNames: set<NiName>)
    returns (r: Result<()>, nis: map<NiName, NiInfo>)
    requires Distinct(api.registers)
    modifies api
    ensures Distinct(api.registers) && Later(old(api.registers), api.registers) && old(api.calls) <= api.calls
    ensures r.Ok? ==> nis.Keys == bdNames + rtNames && bdNames + rtNames <= api.registers.Keys && WellNamed(nis)
    ensures r.Ok? <==> Up(api.up, old(api.calls), api.calls)
  {
    r, nis := CreateRegisters(api, bdNames, map[]);
    if r.Ok? {
      r, nis := CreateRegisters(api, rtNames, nis);
    }
  }

  /** The second half, in the same order. */
  method ReadAll(api: ApiServer, bdNames: set<NiName>, rtNames: set<NiName>, requested: map<NiName, NiInfo>)
    returns (r: Result<()>, nis: map<NiName, NiInfo>)
    requires Distinct(api.registers) && requested.Keys == bdNames + rtNames && WellNamed(requested)
    modifies api
    ensures Distinct(api.registers) && Later(old(api.registers), api.registers) && old(api.calls) <= api.calls
    ensures r.Ok? ==>
      AllAllocated(bdNames + rtNames, api.registers) && nis == Allocation(bdNames + rtNames, api.registers)
    ensures AllAllocated(bdNames + rtNames, old(api.registers)) && Up(api.up, old(api.calls), api.calls) ==> r.Ok?
  {
    r, nis := ReadRegisters(api, bdNames, requested, {});
    if r.Ok? {
      r, nis := ReadRegisters(api, rtNames, nis, {} + bdNames);
      if r.Ok? {
        assert {} + bdNames + rtNames == bdNames + rtNames;
        FilledIsAllocation(nis, bdNames + rtNames, api.registers);
      }
    }
  }

  /** `allocateNiIndexes`; `mid` is the number of the first call after the requests. */
  method AllocateNiIndexes(api: ApiServer, vpc: VpcView) returns (r: Result<map<NiName, NiInfo>>, ghost mid: nat)
    requires Distinct(api.registers)
    modifies api
    ensures Distinct(api.registers) && old(api.calls) <= mid <= api.calls
    ensures Pass(NiNames(vpc), old(api.registers), api.registers,
              Up(api.up, old(api.calls), mid), Up(api.up, mid, api.calls), r)
    ensures r.Ok? ==>
      && r.value.Keys == NiNames(vpc)
      && forall ni :: ni in r.value ==>
           && r.value[ni].name == ni && r.value[ni].index.Some?
           && ni in api.registers && api.registers[ni].ready && api.registers[ni].ni == r.value[ni].index
  {
    var requested, nis := RequestAll(api, BdNames(vpc), RtNames(vpc));
    mid := api.calls;
    if requested.Err? {
      return Err(requested.error), mid;
    }
    var read;
    read, nis := ReadAll(api, BdNames(vpc), RtNames(vpc), nis);
    if read.Err? {
      return Err(read.error), mid;
    }
    return Ok(nis), mid;
  }

  lemma FilledIsAllocation(nis: map<NiName, NiInfo>, names: set<NiName>, registers: RegisterMap)
    requires nis.Keys == names && WellNamed(nis) && HasIndexes(nis, names, registers)
    ensures AllAllocated(names, registers) && nis == Allocation(names, registers)
  {
    forall n | n in names
      ensures nis[n] == NiInfo(n, registers[n].ni)
    {
      assert nis[n].name == n;
    }
  }

  // ---------- over several passes ----------

  lemma AllocationIsFinal(names: set<NiName>, a: RegisterMap, b: RegisterMap)
    requires AllAllocated(names, a) && Later(a, b)
    ensures AllAllocated(names, b) && Allocation(names, b) == Allocation(names, a)
  {
    forall n | n in names
      ensures Allocated(b, n) && b[n] == a[n]
    {
      assert Allocated(a, n);
    }
  }

  /** One pass whose requests get through asks for every register, even if it fails later. Once the
      registers asked for are allocated, the next pass whose calls get through returns exactly the
      network instances of the VPC, each with its index, and so does every pass after it. */
  lemma TwoPassesSuffice(
    names: set<NiName>, s0: RegisterMap, s1: RegisterMap, up1: bool, r1: Result<map<NiName, NiInfo>>,
    s2: RegisterMap, s3: RegisterMap, r2: Result<map<NiName, NiInfo>>,
    s4: RegisterMap, s5: RegisterMap, up3: bool, up3': bool, r3: Result<map<NiName, NiInfo>>)
    requires Pass(names, s0, s1, true, up1, r1)
    requires Later(s1, s2) && forall n :: n in s1 ==> Allocated(s2, n)
    requires Pass(names, s2, s3, true, true, r2)
    requires Later(s3, s4) && Pass(names, s4, s5, up3, up3', r3)
    ensures AllAllocated(names, s2) && r2 == Ok(Allocation(names, s2))
    ensures r1.Ok? ==> r1 == r2
    ensures r3.Ok? ==> r3 == r2
    ensures up3 && up3' ==> r3.Ok?
  {
    AllocationIsFinal(names, s2, s3);
    AllocationIsFinal(names, s3, s4);
    AllocationIsFinal(names, s4, s5);
    if r1.Ok? {
      AllocationIsFinal(names, s1, s2);
    }
  }

  /** Distinct network instances get distinct indexes. */
  lemma AllocationInjective(names: set<NiName>, registers: RegisterMap, m: NiName, n: NiName)
    requires Distinct(registers) && AllAllocated(names, registers)
    requires m in names && n in names && Allocation(names, registers)[m].index == Allocation(names, registers)[n].index
    ensures m == n
  {
    assert Allocated(registers, m) && Allocated(registers, n);
  }
}
