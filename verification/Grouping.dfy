/** Grouping registers by slave and splitting each slave's sorted list into address-continuous runs. */
module Grouping {
  import opened Bytes

  datatype Status = Unread | Valid | Invalid(error: Error)

  /** The fields of a DeviceRegister that grouping and group reads use. */
  datatype Register = Register(
    tag: string,
    slaverId: byte,
    functionCode: byte,
    readAddress: uint16,
    readQuantity: uint16,
    value: seq<byte>,
    status: Status
  )

  // ----- Runs -----

  /** The test the splitting loop makes on neighbours, in uint16. */
  predicate Joinable(a: Register, b: Register) {
    a.readQuantity != 0 && b.readAddress == Wrap16(a.readAddress as nat + a.readQuantity)
  }

  predicate Chained(g: seq<Register>) {
    forall i :: 0 < i < |g| ==> Joinable(g[i - 1], g[i])
  }

  predicate Sorted(regs: seq<Register>) {
    forall i, j :: 0 <= i < j < |regs| ==> regs[i].readAddress <= regs[j].readAddress
  }

  predicate OneSlave(g: seq<Register>, slave: byte) {
    forall i :: 0 <= i < |g| ==> g[i].slaverId == slave
  }

  function Flatten<T>(groups: seq<seq<T>>): seq<T> {
    if groups == [] then [] else Flatten(groups[..|groups| - 1]) + groups[|groups| - 1]
  }

  lemma FlattenSnoc<T>(groups: seq<seq<T>>, g: seq<T>)
    ensures Flatten(groups + [g]) == Flatten(groups) + g
  {
    assert (groups + [g])[..|groups|] == groups;
  }

  lemma {:induction false} FlattenConcat<T>(a: seq<seq<T>>, b: seq<seq<T>>)
    ensures Flatten(a + b) == Flatten(a) + Flatten(b)
    decreases |b|
  {
    if b == [] {
      assert a + b == a;
    } else {
      var init, last := b[..|b| - 1], b[|b| - 1];
      assert a + b == (a + init) + [last] && b == init + [last];
      FlattenSnoc(a + init, last);
      FlattenSnoc(init, last);
      FlattenConcat(a, init);
      hide Flatten;
      assert (Flatten(a) + Flatten(init)) + last == Flatten(a) + (Flatten(init) + last);
    }
  }

  /** What the splitting loop makes of a list. */
  function Split(regs: seq<Register>): (groups: seq<seq<Register>>)
    ensures regs == [] <==> groups == []
    ensures groups != [] ==> groups[|groups| - 1] != []
    ensures groups != [] ==> groups[|groups| - 1][|groups[|groups| - 1]| - 1] == regs[|regs| - 1]
    decreases |regs|
  {
    if regs == [] then []
    else if |regs| == 1 then [regs]
    else
      var n, last := |regs|, regs[|regs| - 1];
      var front := Split(regs[..n - 1]);
      if Joinable(regs[n - 2], last) then front[..|front| - 1] + [front[|front| - 1] + [last]]
      else front + [[last]]
  }

  /** Every group is a non-empty run, and neighbouring groups cannot be joined. */
  predicate Maximal(groups: seq<seq<Register>>) {
    && (forall k :: 0 <= k < |groups| ==> groups[k] != [] && Chained(groups[k]))
    && (forall k :: 0 < k < |groups| ==> !Joinable(groups[k - 1][|groups[k - 1]| - 1], groups[k][0]))
  }

  lemma FlattenExtend<T>(groups: seq<seq<T>>, x: T)
    requires groups != []
    ensures Flatten(groups[..|groups| - 1] + [groups[|groups| - 1] + [x]]) == Flatten(groups) + [x]
  {
    hide Flatten;
    var init, g := groups[..|groups| - 1], groups[|groups| - 1];
    LastOf(groups);
    FlattenSnoc(init, g + [x]);
    FlattenSnoc(init, g);
    Associative(Flatten(init), g, [x]);
  }

  lemma Associative<T>(a: seq<T>, b: seq<T>, c: seq<T>)
    ensures a + (b + c) == (a + b) + c
  {
  }

  lemma SplitStep(regs: seq<Register>)
    requires |regs| > 1
    ensures var n := |regs|;
            var front := Split(regs[..n - 1]);
            front != [] &&
            Split(regs) == if Joinable(regs[n - 2], regs[n - 1])
                           then front[..|front| - 1] + [front[|front| - 1] + [regs[n - 1]]]
                           else front + [[regs[n - 1]]]
  {
    hide Joinable;
  }

  lemma SplitOne(regs: seq<Register>)
    requires |regs| == 1
    ensures Split(regs) == [regs] && Flatten([regs]) == regs
  {
    assert Flatten([regs][..0]) == [];
  }

  lemma {:induction false} SplitConserves(regs: seq<Register>)
    ensures Flatten(Split(regs)) == regs
    decreases |regs|
  {
    if regs != [] {
      hide Joinable, Split, Flatten;
      if |regs| == 1 {
        SplitOne(regs);
      } else {
        var n, last := |regs|, regs[|regs| - 1];
        var front := Split(regs[..n - 1]);
        SplitStep(regs);
        SplitConserves(regs[..n - 1]);
        FlattenExtend(front, last);
        FlattenSnoc(front, [last]);
        LastOf(regs);
      }
    }
  }

  lemma LastOf<T>(s: seq<T>)
    requires s != []
    ensures s == s[..|s| - 1] + [s[|s| - 1]]
  {
  }

  lemma {:induction false} SplitIsMaximal(regs: seq<Register>)
    ensures Maximal(Split(regs))
    decreases |regs|
  {
    if |regs| > 1 {
      var n, last := |regs|, regs[|regs| - 1];
      var front := Split(regs[..n - 1]);
      SplitIsMaximal(regs[..n - 1]);
      hide Joinable, Split;
      var init, g := front[..|front| - 1], front[|front| - 1];
      assert g[|g| - 1] == regs[n - 2];
      if Joinable(regs[n - 2], last) {
        MaximalExtend(front, last);
      } else {
        MaximalAppend(front, last);
      }
    }
  }

  lemma MaximalExtend(groups: seq<seq<Register>>, last: Register)
    requires Maximal(groups) && groups != []
    requires var g := groups[|groups| - 1]; Joinable(g[|g| - 1], last)
    ensures Maximal(groups[..|groups| - 1] + [groups[|groups| - 1] + [last]])
  {
    hide Joinable;
  }

  lemma MaximalAppend(groups: seq<seq<Register>>, last: Register)
    requires Maximal(groups) && groups != []
    requires var g := groups[|groups| - 1]; !Joinable(g[|g| - 1], last)
    ensures Maximal(groups + [[last]])
  {
    hide Joinable;
  }

  // ----- Optimality -----

  /** The number of neighbours that cannot be joined. */
  function Breaks(regs: seq<Register>): nat {
    if |regs| <= 1 then 0
    else
      Breaks(regs[..|regs| - 1]) + (if Joinable(regs[|regs| - 2], regs[|regs| - 1]) then 0 else 1)
  }

  lemma {:induction false} SplitSize(regs: seq<Register>)
    requires regs != []
    ensures |Split(regs)| == 1 + Breaks(regs)
    decreases |regs|
  {
    if |regs| > 1 {
      SplitSize(regs[..|regs| - 1]);
    }
  }

  lemma {:induction false} BreaksConcat(a: seq<Register>, g: seq<Register>)
    requires Chained(g)
    ensures Breaks(a + g) <= Breaks(a) + (if a == [] then 0 else 1)
    decreases |g|
  {
    if g == [] {
      assert a + g == a;
    } else {
      var init := g[..|g| - 1];
      assert (a + g)[..|a + g| - 1] == a + init;
      BreaksConcat(a, init);
      if |g| == 1 {
        assert a + init == a;
      } else {
        assert Joinable(g[|g| - 2], g[|g| - 1]);
      }
    }
  }

  lemma {:induction false} RunsCoverBreaks(groups: seq<seq<Register>>)
    requires forall k :: 0 <= k < |groups| ==> groups[k] != [] && Chained(groups[k])
    ensures groups != [] ==> Breaks(Flatten(groups)) + 1 <= |groups|
    decreases |groups|
  {
    if groups != [] {
      var init, g := groups[..|groups| - 1], groups[|groups| - 1];
      RunsCoverBreaks(init);
      BreaksConcat(Flatten(init), g);
      hide Chained, Breaks;
      if init == [] {
        BreaksOfEmpty();
      }
    }
  }

  lemma BreaksOfEmpty()
    ensures Breaks([]) == 0
  {
  }

  /** No way of cutting the list into runs uses fewer groups. */
  lemma SplitIsOptimal(regs: seq<Register>, groups: seq<seq<Register>>)
    requires Flatten(groups) == regs
    requires forall k :: 0 <= k < |groups| ==> groups[k] != [] && Chained(groups[k])
    ensures |Split(regs)| <= |groups|
  {
    RunsCoverBreaks(groups);
    if regs != [] {
      SplitSize(regs);
    }
  }

  // ----- Continuity as true integers -----

  /** b starts where a ends, as true integers, and a is not empty. */
  predicate Follows(a: Register, b: Register) {
    a.readQuantity != 0 && b.readAddress as nat == a.readAddress as nat + a.readQuantity
  }

  /** In particular only the last register of a run can have quantity zero. */
  predicate Continuous(g: seq<Register>) {
    forall i :: 0 < i < |g| ==> Follows(g[i - 1], g[i])
  }

  /** On a sorted list the uint16 test never joins across the wrap. */
  lemma JoinedWithoutWrap(a: Register, b: Register)
    requires a.readAddress <= b.readAddress
    ensures Joinable(a, b) <==> Follows(a, b)
  {
  }

  /** In uint16 the test would join across the end of the address space. */
  lemma WrapWouldJoin(a: Register, b: Register)
    requires a.readQuantity != 0 && b.readAddress as nat + 0x1_0000 == a.readAddress as nat + a.readQuantity
    ensures Joinable(a, b) && !Follows(a, b)
  {
  }

  lemma {:induction false} GroupsOfSorted(groups: seq<seq<Register>>, k: nat)
    requires Sorted(Flatten(groups)) && k < |groups| && Chained(groups[k])
    ensures Continuous(groups[k]) && Sorted(groups[k])
    ensures forall r :: r in groups[k] ==> r in Flatten(groups)
    decreases |groups|
  {
    var init, last := groups[..|groups| - 1], groups[|groups| - 1];
    var all := Flatten(groups);
    assert all == Flatten(init) + last;
    if k < |init| {
      assert forall i, j :: 0 <= i < j < |Flatten(init)| ==> all[i] == Flatten(init)[i] && all[j] == Flatten(init)[j];
      GroupsOfSorted(init, k);
    } else {
      var base := |Flatten(init)|;
      forall i, j | 0 <= i < j < |last|
        ensures last[i].readAddress <= last[j].readAddress
      {
        assert all[base + i] == last[i] && all[base + j] == last[j];
      }
      forall i | 0 < i < |last|
        ensures Follows(last[i - 1], last[i])
      {
        JoinedWithoutWrap(last[i - 1], last[i]);
      }
    }
  }

  // ----- The whole grouping -----

  /** The registers of one slave, in their original order. */
  function OfSlave(regs: seq<Register>, slave: byte): seq<Register> {
    if regs == [] then []
    else
      var rest := OfSlave(regs[..|regs| - 1], slave);
      if regs[|regs| - 1].slaverId == slave then rest + [regs[|regs| - 1]] else rest
  }

  function SlavesOf(regs: seq<Register>): set<byte> {
    set i | 0 <= i < |regs| :: regs[i].slaverId
  }

  function SplitAll(lists: seq<seq<Register>>): seq<seq<Register>> {
    if lists == [] then [] else SplitAll(lists[..|lists| - 1]) + Split(lists[|lists| - 1])
  }

  /** One sorted list per slave, in any order of slaves and of equal addresses. */
  predicate SortedLists(registers: seq<Register>, lists: seq<seq<Register>>) {
    && (forall k :: 0 <= k < |lists| ==> lists[k] != [] && Sorted(lists[k]) && OneSlave(lists[k], lists[k][0].slaverId))
    && (forall j, k :: 0 <= j < k < |lists| ==> lists[j][0].slaverId != lists[k][0].slaverId)
    && multiset(Flatten(lists)) == multiset(registers)
  }

  predicate IsLeast(regs: seq<Register>, k: nat) {
    k < |regs| && forall j :: 0 <= j < |regs| ==> regs[k].readAddress <= regs[j].readAddress
  }

  predicate Below(a: seq<Register>, b: seq<Register>) {
    forall i, j :: 0 <= i < |a| && 0 <= j < |b| ==> a[i].readAddress <= b[j].readAddress
  }

  /** The selection rule of sort.Slice, which is not stable: any least element may come next. */
  method SortByReadAddress(regs: seq<Register>) returns (sorted: seq<Register>)
    ensures multiset(sorted) == multiset(regs) && Sorted(sorted)
  {
    var rest := regs;
    sorted := [];
    while rest != []
      invariant multiset(sorted) + multiset(rest) == multiset(regs)
      invariant Sorted(sorted)
      invariant Below(sorted, rest)
      decreases |rest|
    {
      hide Sorted, Below;
      ghost var least := LeastIndex(rest);
      var k: nat :| k < |rest| && IsLeast(rest, k);
      TakeLeast(sorted, rest, k);
      sorted := sorted + [rest[k]];
      rest := rest[..k] + rest[k + 1..];
    }
  }

  lemma TakeLeast(sorted: seq<Register>, rest: seq<Register>, k: nat)
    requires Sorted(sorted) && Below(sorted, rest) && IsLeast(rest, k)
    ensures Sorted(sorted + [rest[k]]) && Below(sorted + [rest[k]], rest[..k] + rest[k + 1..])
    ensures multiset(sorted + [rest[k]]) + multiset(rest[..k] + rest[k + 1..]) == multiset(sorted) + multiset(rest)
  {
    AppendLeast(sorted, rest, k);
    MoveOne(sorted, rest, k);
    hide Sorted, Below, IsLeast;
  }

  lemma AppendLeast(sorted: seq<Register>, rest: seq<Register>, k: nat)
    requires Sorted(sorted) && Below(sorted, rest) && IsLeast(rest, k)
    ensures Sorted(sorted + [rest[k]]) && Below(sorted + [rest[k]], rest[..k] + rest[k + 1..])
  {
    var others := rest[..k] + rest[k + 1..];
    assert forall j :: 0 <= j < |others| ==> others[j] == if j < k then rest[j] else rest[j + 1];
  }

  lemma MoveOne<T>(a: seq<T>, b: seq<T>, k: nat)
    requires k < |b|
    ensures multiset(a + [b[k]]) + multiset(b[..k] + b[k + 1..]) == multiset(a) + multiset(b)
  {
    assert b == b[..k] + ([b[k]] + b[k + 1..]);
  }

  lemma {:induction false} LeastIndex(regs: seq<Register>) returns (k: nat)
    requires regs != []
    ensures IsLeast(regs, k)
    decreases |regs|
  {
    var last := |regs| - 1;
    k := last;
    if last > 0 {
      var least := LeastIndex(regs[..last]);
      assert forall j :: 0 <= j < last ==> regs[..last][j] == regs[j];
      if regs[least].readAddress <= regs[last].readAddress {
        k := least;
      }
    }
  }

  /** The splitting loop on one slave's sorted list. */
  method SplitRuns(regs: seq<Register>) returns (groups: seq<seq<Register>>)
    requires regs != []
    ensures groups == Split(regs)
  {
    hide Joinable, Split;
    groups := [];
    var currentGroup := [regs[0]];
    SplitOne(regs[..1]);
    assert regs[..1] == currentGroup && groups + [currentGroup] == [currentGroup];
    for i := 1 to |regs|
      invariant groups + [currentGroup] == Split(regs[..i])
    {
      SplitNext(regs, i, groups, currentGroup);
      groups, currentGroup := Advance(regs, i, groups, currentGroup);
    }
    assert regs[..|regs|] == regs;
    groups := groups + [currentGroup];
  }

  /** The body of the splitting loop. */
  method Advance(regs: seq<Register>, i: nat, before: seq<seq<Register>>, current: seq<Register>)
    returns (groups: seq<seq<Register>>, currentGroup: seq<Register>)
    requires 1 <= i < |regs|
    ensures groups + [currentGroup] == if Joinable(regs[i - 1], regs[i]) then before + [current + [regs[i]]]
                                       else (before + [current]) + [[regs[i]]]
  {
    groups, currentGroup := before, current;
    JoinableParts(regs[i - 1], regs[i]);
    hide Joinable;
    if regs[i - 1].readQuantity == 0 {
      groups := groups + [currentGroup];
      currentGroup := [regs[i]];
    } else if regs[i].readAddress == Wrap16(regs[i - 1].readAddress as nat + regs[i - 1].readQuantity) {
      currentGroup := currentGroup + [regs[i]];
    } else {
      groups := groups + [currentGroup];
      currentGroup := [regs[i]];
    }
  }

  lemma SplitNext(regs: seq<Register>, i: nat, groups: seq<seq<Register>>, currentGroup: seq<Register>)
    requires 1 <= i < |regs| && groups + [currentGroup] == Split(regs[..i])
    ensures Split(regs[..i + 1]) == if Joinable(regs[i - 1], regs[i]) then groups + [currentGroup + [regs[i]]]
                                    else (groups + [currentGroup]) + [[regs[i]]]
  {
    hide Joinable, Split;
    var front := groups + [currentGroup];
    assert front[..|front| - 1] == groups && front[|front| - 1] == currentGroup;
    assert regs[..i + 1][..i] == regs[..i];
    SplitStep(regs[..i + 1]);
  }

  lemma JoinableParts(a: Register, b: Register)
    ensures Joinable(a, b) <==> a.readQuantity != 0 && b.readAddress == Wrap16(a.readAddress as nat + a.readQuantity)
  {
  }

  /** The registers, by slave. */
  method BySlave(registers: seq<Register>) returns (slaverGroups: map<byte, seq<Register>>)
    ensures slaverGroups.Keys == SlavesOf(registers)
    ensures forall s :: s in slaverGroups ==> slaverGroups[s] == OfSlave(registers, s)
  {
    slaverGroups := map[];
    for k := 0 to |registers|
      invariant slaverGroups.Keys == SlavesOf(registers[..k])
      invariant forall s :: s in slaverGroups ==> slaverGroups[s] == OfSlave(registers[..k], s)
    {
      var reg := registers[k];
      assert registers[..k + 1][..k] == registers[..k];
      OfSlaveNonEmpty(registers[..k], reg.slaverId);
      SlavesSnoc(registers[..k], reg);
      assert registers[..k + 1] == registers[..k] + [reg];
      var before := if reg.slaverId in slaverGroups then slaverGroups[reg.slaverId] else [];
      slaverGroups := slaverGroups[reg.slaverId := before + [reg]];
    }
    assert registers[..|registers|] == registers;
  }

  lemma SlavesSnoc(regs: seq<Register>, r: Register)
    ensures SlavesOf(regs + [r]) == SlavesOf(regs) + {r.slaverId}
  {
    var all := regs + [r];
    forall s | s in SlavesOf(regs)
      ensures s in SlavesOf(all)
    {
      var i :| 0 <= i < |regs| && regs[i].slaverId == s;
      assert all[i].slaverId == s;
    }
    assert all[|regs|].slaverId == r.slaverId;
  }

  lemma {:induction false} OfSlaveNonEmpty(regs: seq<Register>, slave: byte)
    ensures OfSlave(regs, slave) != [] <==> slave in SlavesOf(regs)
    ensures OneSlave(OfSlave(regs, slave), slave)
    decreases |regs|
  {
    if regs != [] {
      var init, last := regs[..|regs| - 1], regs[|regs| - 1];
      OfSlaveNonEmpty(init, slave);
      SlavesSnoc(init, last);
      assert regs == init + [last];
    }
  }

  /** The lists of the slaves done so far hold exactly their registers. */
  ghost predicate GroupedSoFar(registers: seq<Register>, slaves: set<byte>, lists: seq<seq<Register>>) {
    ListsOf(lists, slaves) && multiset(Flatten(lists)) == multiset(OfSlaves(registers, slaves))
  }

  /** GroupDeviceRegisterWithLogicalContinuity, for every order in which the map may be traversed. */
  method GroupDeviceRegisters(registers: seq<Register>)
    returns (result: seq<seq<Register>>, ghost lists: seq<seq<Register>>)
    ensures SortedLists(registers, lists) && result == SplitAll(lists)
    ensures multiset(Flatten(result)) == multiset(registers)
  {
    hide Split, SplitAll, OfSlave, SlavesOf, GroupedSoFar, SortedLists;
    result, lists := [], [];
    NoneGrouped(registers);
    if registers == [] {
      AllGrouped(registers, lists);
      GroupsPartition(registers, lists);
      return;
    }
    var slaverGroups := BySlave(registers);
    var remaining := slaverGroups.Keys;
    ghost var done: set<byte> := {};
    while remaining != {}
      invariant done + remaining == SlavesOf(registers) && done !! remaining
      invariant result == SplitAll(lists)
      invariant GroupedSoFar(registers, done, lists)
      decreases |remaining|
    {
      var s :| s in remaining;
      var groups, regs := GroupsOfSlave(registers, slaverGroups[s], s, done, lists);
      result := result + groups;
      lists := lists + [regs];
      done := done + {s};
      remaining := remaining - {s};
    }
    assert done == SlavesOf(registers);
    AllGrouped(registers, lists);
    GroupsPartition(registers, lists);
  }

  /** Step 2 of the grouping: one slave's registers are sorted and split. */
  method GroupsOfSlave(ghost registers: seq<Register>, regs: seq<Register>, s: byte,
                       ghost done: set<byte>, ghost lists: seq<seq<Register>>)
    returns (groups: seq<seq<Register>>, ghost sorted: seq<Register>)
    requires s !in done && s in SlavesOf(registers) && GroupedSoFar(registers, done, lists)
    requires regs == OfSlave(registers, s)
    ensures GroupedSoFar(registers, done + {s}, lists + [sorted])
    ensures SplitAll(lists + [sorted]) == SplitAll(lists) + groups
  {
    hide Split, SplitAll, OfSlave, Sorted, GroupedSoFar;
    var sortedRegs := SortByReadAddress(regs);
    AddList(registers, lists, done, sortedRegs, s);
    groups := SplitRuns(sortedRegs);
    sorted := sortedRegs;
  }

  ghost function OfSlaves(regs: seq<Register>, slaves: set<byte>): seq<Register> {
    if regs == [] then []
    else
      var rest := OfSlaves(regs[..|regs| - 1], slaves);
      if regs[|regs| - 1].slaverId in slaves then rest + [regs[|regs| - 1]] else rest
  }

  /** Sorted non-empty lists, one for each of the given slaves. */
  ghost predicate ListsOf(lists: seq<seq<Register>>, slaves: set<byte>) {
    && (forall k :: 0 <= k < |lists| ==>
          && lists[k] != [] && Sorted(lists[k]) && OneSlave(lists[k], lists[k][0].slaverId)
          && lists[k][0].slaverId in slaves)
    && (forall j, k :: 0 <= j < k < |lists| ==> lists[j][0].slaverId != lists[k][0].slaverId)
  }

  lemma NoneGrouped(registers: seq<Register>)
    ensures GroupedSoFar(registers, {}, []) && SplitAll([]) == []
    ensures registers == [] ==> SlavesOf(registers) == {}
  {
    NoSlaves(registers);
  }

  lemma AllGrouped(registers: seq<Register>, lists: seq<seq<Register>>)
    requires GroupedSoFar(registers, SlavesOf(registers), lists)
    ensures SortedLists(registers, lists)
  {
    OfAllSlaves(registers, SlavesOf(registers));
  }

  lemma PermutedSlave(regs: seq<Register>, permuted: seq<Register>, slave: byte)
    requires multiset(permuted) == multiset(regs) && OneSlave(regs, slave) && regs != []
    ensures OneSlave(permuted, slave) && permuted != []
  {
    assert |permuted| == |multiset(permuted)| == |multiset(regs)| == |regs|;
    forall i | 0 <= i < |permuted|
      ensures permuted[i].slaverId == slave
    {
      assert permuted[i] in multiset(regs);
    }
  }

  lemma {:induction false} OfSlavesAdd(regs: seq<Register>, slaves: set<byte>, s: byte)
    requires s !in slaves
    ensures multiset(OfSlaves(regs, slaves + {s})) == multiset(OfSlaves(regs, slaves)) + multiset(OfSlave(regs, s))
    decreases |regs|
  {
    if regs != [] {
      OfSlavesAdd(regs[..|regs| - 1], slaves, s);
    }
  }

  lemma AddList(registers: seq<Register>, lists: seq<seq<Register>>, slaves: set<byte>, regs: seq<Register>, s: byte)
    requires s !in slaves && GroupedSoFar(registers, slaves, lists) && s in SlavesOf(registers)
    requires Sorted(regs) && multiset(regs) == multiset(OfSlave(registers, s))
    ensures regs != [] && GroupedSoFar(registers, slaves + {s}, lists + [regs])
    ensures SplitAll(lists + [regs]) == SplitAll(lists) + Split(regs)
  {
    hide Sorted, OfSlaves, OfSlave, Split;
    OfSlaveNonEmpty(registers, s);
    PermutedSlave(OfSlave(registers, s), regs, s);
    OfSlavesAdd(registers, slaves, s);
    FlattenSnoc(lists, regs);
    assert (lists + [regs])[..|lists|] == lists;
  }

  lemma {:induction false} OfAllSlaves(regs: seq<Register>, slaves: set<byte>)
    requires SlavesOf(regs) <= slaves
    ensures OfSlaves(regs, slaves) == regs
    decreases |regs|
  {
    if regs != [] {
      var init, last := regs[..|regs| - 1], regs[|regs| - 1];
      assert regs == init + [last];
      SlavesSnoc(init, last);
      OfAllSlaves(init, slaves);
    }
  }

  lemma {:induction false} NoSlaves(regs: seq<Register>)
    ensures OfSlaves(regs, {}) == []
    decreases |regs|
  {
    if regs != [] {
      NoSlaves(regs[..|regs| - 1]);
    }
  }

  /** Two groups that follow one another cannot be joined, unless the slave changes between them. */
  predicate Separate(a: seq<Register>, b: seq<Register>) {
    a != [] && b != [] && a[0].slaverId == b[0].slaverId ==> !Joinable(a[|a| - 1], b[0])
  }

  predicate Separated(groups: seq<seq<Register>>) {
    forall k :: 0 < k < |groups| ==> Separate(groups[k - 1], groups[k])
  }

  /**
   The groups are a partition of the input into single-slave, truly continuous runs, and consecutive groups of one
   slave cannot be joined.
   */
  lemma GroupsPartition(registers: seq<Register>, lists: seq<seq<Register>>)
    requires SortedLists(registers, lists)
    ensures multiset(Flatten(SplitAll(lists))) == multiset(registers)
    ensures forall g: seq<Register> :: g in SplitAll(lists) ==>
              g != [] && OneSlave(g, g[0].slaverId) && Sorted(g) && Continuous(g)
    ensures Separated(SplitAll(lists))
  {
    SplitAllConserves(lists);
    SplitAllSeparated(lists);
    hide Split, Sorted, OneSlave, Flatten;
    forall g: seq<Register> | g in SplitAll(lists)
      ensures g != [] && OneSlave(g, g[0].slaverId) && Sorted(g) && Continuous(g)
    {
      var k := SplitAllFrom(lists, g);
      SplitGroup(lists[k], g, lists[k][0].slaverId);
    }
  }

  lemma {:induction false} SplitAllConserves(lists: seq<seq<Register>>)
    ensures Flatten(SplitAll(lists)) == Flatten(lists)
    decreases |lists|
  {
    if lists != [] {
      var init, last := lists[..|lists| - 1], lists[|lists| - 1];
      SplitAllConserves(init);
      SplitConserves(last);
      FlattenConcat(SplitAll(init), Split(last));
    }
  }

  lemma {:induction false} SplitAllFrom(lists: seq<seq<Register>>, g: seq<Register>) returns (k: nat)
    requires g in SplitAll(lists)
    ensures k < |lists| && g in Split(lists[k])
    decreases |lists|
  {
    hide Split;
    if g in Split(lists[|lists| - 1]) {
      k := |lists| - 1;
    } else {
      k := SplitAllFrom(lists[..|lists| - 1], g);
    }
  }

  lemma SplitGroup(regs: seq<Register>, g: seq<Register>, slave: byte)
    requires g in Split(regs) && Sorted(regs) && OneSlave(regs, slave)
    ensures g != [] && OneSlave(g, slave) && Sorted(g) && Continuous(g)
  {
    SplitIsMaximal(regs);
    SplitConserves(regs);
    var k :| 0 <= k < |Split(regs)| && Split(regs)[k] == g;
    GroupsOfSorted(Split(regs), k);
    forall i | 0 <= i < |g|
      ensures g[i].slaverId == slave
    {
      assert g[i] in regs;
    }
  }

  lemma {:induction false} SplitAllSeparated(lists: seq<seq<Register>>)
    requires forall k :: 0 <= k < |lists| ==> lists[k] != [] && OneSlave(lists[k], lists[k][0].slaverId)
    requires forall j, k :: 0 <= j < k < |lists| ==> lists[j][0].slaverId != lists[k][0].slaverId
    ensures Separated(SplitAll(lists))
    decreases |lists|
  {
    if lists != [] {
      var n := |lists| - 1;
      SplitAllSeparated(lists[..n]);
      SplitSeparated(lists[n]);
      hide Separated, Split, OneSlave;
      var a, b := SplitAll(lists[..n]), Split(lists[n]);
      if a != [] && b != [] {
        var k := SplitAllFrom(lists[..n], a[|a| - 1]);
        SplitSlave(lists[k], a[|a| - 1], lists[k][0].slaverId);
        SplitSlave(lists[n], b[0], lists[n][0].slaverId);
      }
      JoinSeparated(a, b);
    }
  }

  lemma JoinSeparated(a: seq<seq<Register>>, b: seq<seq<Register>>)
    requires Separated(a) && Separated(b) && (a != [] && b != [] ==> Separate(a[|a| - 1], b[0]))
    ensures Separated(a + b)
  {
    hide Separate;
    forall k | 0 < k < |a + b|
      ensures Separate((a + b)[k - 1], (a + b)[k])
    {
      if k > |a| {
        assert Separate(b[k - |a| - 1], b[k - |a|]);
      } else if k < |a| {
        assert Separate(a[k - 1], a[k]);
      }
    }
  }

  lemma SplitSeparated(regs: seq<Register>)
    ensures Separated(Split(regs))
  {
    SplitIsMaximal(regs);
    hide Split, Joinable, Chained;
  }

  lemma SplitSlave(regs: seq<Register>, g: seq<Register>, slave: byte)
    requires g in Split(regs) && OneSlave(regs, slave)
    ensures g != [] && g[0].slaverId == slave
  {
    SplitIsMaximal(regs);
    SplitConserves(regs);
    hide Split, Joinable, Chained;
    var k :| 0 <= k < |Split(regs)| && Split(regs)[k] == g;
    FlattenHas(Split(regs), k);
    assert g[0] in regs;
  }

  lemma {:induction false} FlattenHas<T>(groups: seq<seq<T>>, k: nat)
    requires k < |groups|
    ensures forall x :: x in groups[k] ==> x in Flatten(groups)
    decreases |groups|
  {
    if k < |groups| - 1 {
      FlattenHas(groups[..|groups| - 1], k);
    }
  }
}
