/** Grouping, then reading every group: the whole batch against reading each register alone. */
module Batch {
  import opened Bytes
  import opened Words
  import opened Line
  import opened Grouping
  import opened GroupReads
  import opened GroupValues
  import C = Client

  function ErrorsOf(outcomes: seq<Result<()>>): seq<Error> {
    if outcomes == [] then []
    else
      var last := outcomes[|outcomes| - 1];
      ErrorsOf(outcomes[..|outcomes| - 1]) + (if last.Err? then [last.error] else [])
  }

  lemma {:induction false} ErrorsConcat(a: seq<Result<()>>, b: seq<Result<()>>)
    ensures ErrorsOf(a + b) == ErrorsOf(a) + ErrorsOf(b)
    decreases |b|
  {
    if b == [] {
      assert a + b == a;
    } else {
      ErrorsConcat(a, b[..|b| - 1]);
      assert (a + b)[..|a + b| - 1] == a + b[..|b| - 1];
    }
  }

  /** One error for each failure, in the order of the groups. */
  lemma ErrorsInOrder(a: seq<Result<()>>, e: Error, b: seq<Result<()>>)
    ensures ErrorsOf(a + ([Ok(())] + b)) == ErrorsOf(a) + ErrorsOf(b)
    ensures ErrorsOf(a + ([Err(e)] + b)) == ErrorsOf(a) + ([e] + ErrorsOf(b))
  {
    hide ErrorsOf;
    ErrorsOfOne(e);
    ErrorsConcat([Ok(())], b);
    ErrorsConcat([Err(e)], b);
    ErrorsConcat(a, [Ok(())] + b);
    ErrorsConcat(a, [Err(e)] + b);
    assert [] + ErrorsOf(b) == ErrorsOf(b);
  }

  lemma ErrorsOfOne(e: Error)
    ensures ErrorsOf([Ok(())]) == [] && ErrorsOf([Err(e)]) == [e]
  {
  }

  predicate AllOk(outcomes: seq<Result<()>>) {
    forall k :: 0 <= k < |outcomes| ==> outcomes[k].Ok?
  }

  ghost function Contents(grouped: seq<array<Register>>): (groups: seq<seq<Register>>)
    reads grouped
    ensures |groups| == |grouped| && forall k :: 0 <= k < |grouped| ==> groups[k] == grouped[k][..]
  {
    if grouped == [] then []
    else Contents(grouped[..|grouped| - 1]) + [grouped[|grouped| - 1][..]]
  }

  /** No group before the k-th is answered with an exception on an RTU line, which alone can leave a byte there. */
  predicate CleanBefore(framing: Framing, bus: Bus, groups: seq<seq<Register>>, k: nat) {
    forall j :: 0 <= j < k && j < |groups| ==> !GroupMeetsException(framing, bus, groups[j])
  }

  lemma CleanNext(framing: Framing, bus: Bus, groups: seq<seq<Register>>, k: nat)
    requires k < |groups|
    ensures CleanBefore(framing, bus, groups, k + 1)
            <==> CleanBefore(framing, bus, groups, k) && !GroupMeetsException(framing, bus, groups[k])
  {
    hide GroupMeetsException;
  }

  /** Only over RTU can an earlier group disturb a later one. */
  lemma OnlyRtuDisturbs(framing: Framing, bus: Bus, groups: seq<seq<Register>>, k: nat)
    requires !framing.RtuFraming?
    ensures CleanBefore(framing, bus, groups, k)
  {
  }

  lemma CleanAtFirst(framing: Framing, bus: Bus, groups: seq<seq<Register>>)
    ensures CleanBefore(framing, bus, groups, 0)
  {
  }

  /** What is known of the k-th group once it is read: its array, its place in the list, and how its read ended. */
  ghost predicate ReadOk(framing: Framing, bus: Bus, idle: bool, groups: seq<seq<Register>>, k: nat,
                         after: seq<Register>, list: seq<Register>, outcome: Result<()>)
    requires k < |groups|
  {
    && list == Returned(groups[k], after)
    && (idle && CleanBefore(framing, bus, groups, k) ==> GroupRead(bus, groups[k], after, outcome))
    && (idle && framing.TcpFraming? ==> (list, outcome) == Sequential(bus, groups[k]))
  }

  lemma ReadOkMeans(framing: Framing, bus: Bus, idle: bool, groups: seq<seq<Register>>, k: nat,
                    after: seq<Register>, list: seq<Register>, outcome: Result<()>)
    requires k < |groups| && ReadOk(framing, bus, idle, groups, k, after, list, outcome)
    ensures list == Returned(groups[k], after)
    ensures idle && CleanBefore(framing, bus, groups, k) ==> GroupRead(bus, groups[k], after, outcome)
    ensures idle && framing.TcpFraming? ==> (list, outcome) == Sequential(bus, groups[k])
  {
  }

  /** One more group, in a state in which the line is idle as long as all groups before it were clean. */
  method ReadNext(client: C.Client, group: array<Register>, ghost bus: Bus, ghost idle: bool,
                  ghost groups: seq<seq<Register>>, ghost k: nat)
    returns (list: seq<Register>, r: Result<()>)
    requires k < |groups| && group[..] == groups[k]
    requires idle && CleanBefore(client.port.framing, bus, groups, k) ==>
               client.port.pending == [] && client.port.bus == bus
    modifies client.rtu, client.ascii, client.tcp, client.port, group
    ensures ReadOk(client.port.framing, bus, idle, groups, k, group[..], list, r)
    ensures idle && CleanBefore(client.port.framing, bus, groups, k + 1) ==>
              client.port.pending == [] && client.port.bus == bus
  {
    hide GroupRead, GroupMeetsException, CleanBefore, Sequential;
    CleanNext(client.port.framing, bus, groups, k);
    if client.port.framing.TcpFraming? {
      OnlyRtuDisturbs(client.port.framing, bus, groups, k);
    }
    list, r := ReadGroup(client, group);
  }

  /**
   ReadGroupedDataSequential: one group after another, each read in place, each failure one error. The results are
   those of conforming devices as long as no earlier group met an exception on an RTU line.
   */
  method ReadGroupedDataSequential(client: C.Client, grouped: seq<array<Register>>)
    returns (result: seq<seq<Register>>, errors: seq<Error>, ghost outcomes: seq<Result<()>>)
    requires forall i, j :: 0 <= i < j < |grouped| ==> grouped[i] != grouped[j]
    modifies client.rtu, client.ascii, client.tcp, client.port, set k | 0 <= k < |grouped| :: grouped[k]
    ensures |outcomes| == |grouped| == |result| && errors == ErrorsOf(outcomes)
    ensures forall k :: 0 <= k < |grouped| ==> result[k] == Returned(old(grouped[k][..]), grouped[k][..])
    ensures old(client.port.pending) == [] ==>
              forall k {:trigger outcomes[k]} :: 0 <= k < |grouped| ==>
                CleanBefore(client.port.framing, old(client.port.bus), old(Contents(grouped)), k) ==>
                  GroupRead(old(client.port.bus), old(grouped[k][..]), grouped[k][..], outcomes[k])
    ensures old(client.port.pending) == [] && client.port.framing.TcpFraming? ==>
              forall k :: 0 <= k < |grouped| ==>
                (result[k], outcomes[k]) == Sequential(old(client.port.bus), old(grouped[k][..]))
  {
    hide ReadOk, Contents, CleanBefore, GroupRead, Sequential, Returned;
    ghost var framing, bus, groups := client.port.framing, client.port.bus, Contents(grouped);
    ghost var idle := client.port.pending == [];
    result, errors, outcomes := [], [], [];
    CleanAtFirst(framing, bus, groups);
    for i := 0 to |grouped|
      invariant |outcomes| == |result| == i && errors == ErrorsOf(outcomes)
      invariant forall k :: i <= k < |grouped| ==> grouped[k][..] == groups[k]
      invariant idle && CleanBefore(framing, bus, groups, i) ==> client.port.pending == [] && client.port.bus == bus
      invariant forall k {:trigger outcomes[k]} :: 0 <= k < i ==>
                  ReadOk(framing, bus, idle, groups, k, grouped[k][..], result[k], outcomes[k])
    {
      var list, r := ReadNext(client, grouped[i], bus, idle, groups, i);
      if r.Err? {
        errors := errors + [r.error];
      }
      ghost var before := outcomes;
      outcomes := outcomes + [r];
      result := result + [list];
      assert outcomes[..i] == before;
    }
    forall k | 0 <= k < |grouped|
      ensures result[k] == Returned(groups[k], grouped[k][..])
      ensures idle && CleanBefore(framing, bus, groups, k) ==> GroupRead(bus, groups[k], grouped[k][..], outcomes[k])
      ensures idle && framing.TcpFraming? ==> (result[k], outcomes[k]) == Sequential(bus, groups[k])
    {
      ReadOkMeans(framing, bus, idle, groups, k, grouped[k][..], result[k], outcomes[k]);
    }
  }

  // ----- The batch as a whole -----

  /** A possible result of reading one register alone. */
  ghost predicate AloneRead(bus: Bus, x: Register, alone: Register) {
    exists r :: GroupRead(bus, [x], [alone], r)
  }

  /** What a batch gives where reading alone gives alone: a register of quantity zero is valid and empty. */
  function Batched(x: Register, alone: Register): Register {
    if x.readQuantity == 0 then x.(value := [], status := Valid) else alone
  }

  function BatchedAll(registers: seq<Register>, alones: seq<Register>): (r: seq<Register>)
    requires |registers| == |alones|
    ensures |r| == |registers|
  {
    seq(|registers|, i requires 0 <= i < |registers| => Batched(registers[i], alones[i]))
  }

  /** A group the client can read in one request: one word-reading function, 1 to 125 registers, existing cells. */
  predicate Readable(bus: Bus, g: seq<Register>) {
    && g != [] && IsWord(g[0].functionCode)
    && (forall i :: 0 <= i < |g| ==> g[i].functionCode == g[0].functionCode)
    && Serves(bus, g)
  }

  /** The register with its own cells, if they exist. */
  function Owned(bus: Bus, x: Register): Register {
    if x.slaverId in bus && HasCells(bus[x.slaverId], x) then Own(bus[x.slaverId], x) else x
  }

  function OwnedAll(bus: Bus, regs: seq<Register>): (r: seq<Register>)
    ensures |r| == |regs|
  {
    seq(|regs|, i requires 0 <= i < |regs| => Owned(bus, regs[i]))
  }

  lemma OwnedConcat(bus: Bus, a: seq<Register>, b: seq<Register>)
    ensures OwnedAll(bus, a + b) == OwnedAll(bus, a) + OwnedAll(bus, b)
  {
    hide Owned;
  }

  /** Filling registers with their own cells respects permutation. */
  lemma {:induction false} OwnedOfPermutation(bus: Bus, a: seq<Register>, b: seq<Register>)
    requires multiset(a) == multiset(b)
    ensures multiset(OwnedAll(bus, a)) == multiset(OwnedAll(bus, b))
    decreases |a|
  {
    hide Owned, OwnedAll;
    if a == [] {
      assert |multiset(b)| == |b|;
    } else {
      var k := SameButOne(a, b);
      OwnedOfPermutation(bus, a[..0] + a[1..], b[..k] + b[k + 1..]);
      OwnedRemoved(bus, a, 0);
      OwnedRemoved(bus, b, k);
    }
  }

  lemma SameButOne<T>(a: seq<T>, b: seq<T>) returns (k: nat)
    requires multiset(a) == multiset(b) && a != []
    ensures k < |b| && b[k] == a[0] && multiset(a[..0] + a[1..]) == multiset(b[..k] + b[k + 1..])
  {
    assert a[0] in multiset(a);
    k := IndexOf(b, a[0]);
    RemoveAt(a, 0);
    RemoveAt(b, k);
  }

  lemma IndexOf<T>(s: seq<T>, x: T) returns (k: nat)
    requires x in multiset(s)
    ensures k < |s| && s[k] == x
  {
    k :| 0 <= k < |s| && s[k] == x;
  }

  lemma RemoveAt<T>(s: seq<T>, k: nat)
    requires k < |s|
    ensures multiset(s[..k] + s[k + 1..]) == multiset(s) - multiset{s[k]}
  {
    assert s == s[..k] + ([s[k]] + s[k + 1..]);
  }

  lemma OwnedRemoved(bus: Bus, s: seq<Register>, k: nat)
    requires k < |s|
    ensures multiset(OwnedAll(bus, s)) == multiset(OwnedAll(bus, s[..k] + s[k + 1..])) + multiset(OwnedAll(bus, [s[k]]))
  {
    hide Owned, OwnedAll;
    assert s == s[..k] + ([s[k]] + s[k + 1..]);
    OwnedConcat(bus, s[..k], [s[k]] + s[k + 1..]);
    OwnedConcat(bus, [s[k]], s[k + 1..]);
    OwnedConcat(bus, s[..k], s[k + 1..]);
  }

  lemma GroupIsOwned(bus: Bus, g: seq<Register>, after: seq<Register>, r: Result<()>)
    requires Continuous(g) && Readable(bus, g) && OneSlave(g, g[0].slaverId)
    requires GroupRead(bus, g, after, r)
    ensures r.Ok? && after == OwnedAll(bus, g)
  {
    hide GroupRead, TrueTotal, Continuous, Own, HasCells;
    GroupReadIff(bus, g, after, r);
    assert forall i :: 0 <= i < |g| ==> after[i] == Owned(bus, g[i]);
  }

  lemma {:induction false} GroupsAreOwned(bus: Bus, groups: seq<seq<Register>>, afters: seq<seq<Register>>,
                                          outcomes: seq<Result<()>>)
    requires |afters| == |groups| == |outcomes|
    requires forall k :: 0 <= k < |groups| ==>
               && groups[k] != [] && Continuous(groups[k]) && Readable(bus, groups[k])
               && OneSlave(groups[k], groups[k][0].slaverId)
               && GroupRead(bus, groups[k], afters[k], outcomes[k])
    ensures AllOk(outcomes) && Flatten(afters) == OwnedAll(bus, Flatten(groups))
    decreases |groups|
  {
    hide OwnedAll, GroupRead, Readable, Continuous, OneSlave;
    if groups == [] {
      NoneOwned(bus);
    } else {
      var n := |groups| - 1;
      GroupsAreOwned(bus, groups[..n], afters[..n], outcomes[..n]);
      GroupIsOwned(bus, groups[n], afters[n], outcomes[n]);
      OwnedConcat(bus, Flatten(groups[..n]), groups[n]);
      assert forall k :: 0 <= k < n ==> outcomes[k] == outcomes[..n][k];
    }
  }

  lemma NoneOwned(bus: Bus)
    ensures OwnedAll(bus, []) == [] && Flatten<Register>([]) == []
  {
  }

  // ----- Register by register -----

  /** A register of a readable group: alone it is refused if empty, and otherwise holds its own cells. */
  predicate ReadableAlone(bus: Bus, x: Register) {
    IsWord(x.functionCode) && x.readQuantity <= 125 && x.slaverId in bus && HasCells(bus[x.slaverId], x)
  }

  lemma OwnedIsBatched(bus: Bus, x: Register, alone: Register)
    requires ReadableAlone(bus, x) && AloneRead(bus, x, alone)
    ensures Owned(bus, x) == Batched(x, alone) && Owned(bus, x).status == Valid
    ensures x.readQuantity == 0 ==> alone.status.Invalid?
  {
    hide GroupRead;
    var r :| GroupRead(bus, [x], [alone], r);
    AloneReadIff(bus, x, [alone], r);
    if x.readQuantity == 0 {
      assert WordBytes([]) == [];
    }
    hide WordBytes;
  }

  lemma {:induction false} MemberOfGroup(groups: seq<seq<Register>>, x: Register) returns (k: nat, i: nat)
    requires x in Flatten(groups)
    ensures k < |groups| && i < |groups[k]| && groups[k][i] == x
    decreases |groups|
  {
    var n := |groups| - 1;
    if x in groups[n] {
      k := n;
      i :| 0 <= i < |groups[n]| && groups[n][i] == x;
    } else {
      k, i := MemberOfGroup(groups[..n], x);
    }
  }

  lemma AllReadableAlone(bus: Bus, registers: seq<Register>, groups: seq<seq<Register>>)
    requires multiset(Flatten(groups)) == multiset(registers)
    requires forall k :: 0 <= k < |groups| ==>
               && groups[k] != [] && Continuous(groups[k]) && Readable(bus, groups[k])
               && OneSlave(groups[k], groups[k][0].slaverId)
    ensures forall i :: 0 <= i < |registers| ==> ReadableAlone(bus, registers[i])
  {
    hide Flatten, TrueTotal, Continuous;
    forall i | 0 <= i < |registers|
      ensures ReadableAlone(bus, registers[i])
    {
      assert registers[i] in multiset(registers);
      assert registers[i] in Flatten(groups);
      var k, j := MemberOfGroup(groups, registers[i]);
      ServesMember(bus, groups[k], j);
    }
  }

  ghost predicate AllReadAlone(bus: Bus, registers: seq<Register>, alones: seq<Register>) {
    |alones| == |registers| && forall i :: 0 <= i < |registers| ==> AloneRead(bus, registers[i], alones[i])
  }

  lemma OwnedAllIsBatchedAll(bus: Bus, registers: seq<Register>, alones: seq<Register>)
    requires AllReadAlone(bus, registers, alones)
    requires forall i :: 0 <= i < |registers| ==> ReadableAlone(bus, registers[i])
    ensures OwnedAll(bus, registers) == BatchedAll(registers, alones)
    ensures multiset(OwnedAll(bus, registers)) == multiset(alones) <==>
            forall i :: 0 <= i < |registers| ==> registers[i].readQuantity > 0
  {
    hide ReadableAlone, AloneRead, Owned;
    forall i | 0 <= i < |registers|
      ensures OwnedAll(bus, registers)[i] == BatchedAll(registers, alones)[i]
      ensures OwnedAll(bus, registers)[i].status == Valid
      ensures registers[i].readQuantity == 0 ==> alones[i].status.Invalid?
    {
      OwnedIsBatched(bus, registers[i], alones[i]);
    }
    if i :| 0 <= i < |registers| && registers[i].readQuantity == 0 {
      InvalidTellsApart(OwnedAll(bus, registers), alones, i);
    } else {
      assert BatchedAll(registers, alones) == alones;
    }
  }

  lemma InvalidTellsApart(valid: seq<Register>, s: seq<Register>, i: nat)
    requires forall k :: 0 <= k < |valid| ==> valid[k].status == Valid
    requires i < |s| && s[i].status.Invalid?
    ensures multiset(valid) != multiset(s)
  {
    assert s[i] in multiset(s);
    assert s[i] !in multiset(valid);
  }

  /** A readable group never meets an exception, so in any framing it leaves a clean line to the groups after it. */
  lemma ReadableIsClean(framing: Framing, bus: Bus, g: seq<Register>)
    requires Readable(bus, g)
    ensures !GroupMeetsException(framing, bus, g)
  {
    hide TrueTotal;
  }

  lemma ReadableLeavesClean(framing: Framing, bus: Bus, groups: seq<seq<Register>>, k: nat)
    requires k <= |groups| && forall j :: 0 <= j < k ==> Readable(bus, groups[j])
    ensures CleanBefore(framing, bus, groups, k)
  {
    hide Readable, GroupMeetsException;
    forall j | 0 <= j < k
      ensures !GroupMeetsException(framing, bus, groups[j])
    {
      ReadableIsClean(framing, bus, groups[j]);
    }
  }

  /** One group that is readable: its read succeeds and gives what reading its registers one by one gives. */
  lemma GroupRefinesIndividualReads(bus: Bus, g: seq<Register>, after: seq<Register>, r: Result<()>,
                                    alones: seq<Register>)
    requires Continuous(g) && Readable(bus, g) && OneSlave(g, g[0].slaverId)
    requires GroupRead(bus, g, after, r) && AllReadAlone(bus, g, alones)
    ensures r.Ok? && after == BatchedAll(g, alones)
    ensures after == alones <==> forall i :: 0 <= i < |g| ==> g[i].readQuantity > 0
  {
    GroupIsOwned(bus, g, after, r);
    hide GroupRead, AloneRead, TrueTotal, OwnedAll, BatchedAll, ReadableAlone, Owned, Continuous;
    forall i | 0 <= i < |g|
      ensures ReadableAlone(bus, g[i])
    {
      MemberReadableAlone(bus, g, i);
    }
    OwnedAllIsBatchedAll(bus, g, alones);
    EqualMultisets(bus, g, alones);
  }

  lemma MemberReadableAlone(bus: Bus, g: seq<Register>, i: nat)
    requires Continuous(g) && Readable(bus, g) && OneSlave(g, g[0].slaverId) && i < |g|
    ensures ReadableAlone(bus, g[i])
  {
    hide TrueTotal, Continuous;
    ServesMember(bus, g, i);
  }

  lemma EqualMultisets(bus: Bus, g: seq<Register>, alones: seq<Register>)
    requires |alones| == |g| && OwnedAll(bus, g) == BatchedAll(g, alones)
    ensures OwnedAll(bus, g) == alones ==> multiset(OwnedAll(bus, g)) == multiset(alones)
    ensures (forall i :: 0 <= i < |g| ==> g[i].readQuantity > 0) ==> BatchedAll(g, alones) == alones
  {
  }

  /**
   A readable group of a list in which other groups may fail: in every framing, if no earlier group met an RTU
   exception (and over TCP and ASCII in any case), the batch reads it to what reading its registers alone gives.
   */
  lemma ReadableGroupOfAny(registers: seq<Register>, lists: seq<seq<Register>>, k: nat, bus: Bus, after: seq<Register>,
                           r: Result<()>, alones: seq<Register>)
    requires SortedLists(registers, lists) && k < |SplitAll(lists)| && Readable(bus, SplitAll(lists)[k])
    requires GroupRead(bus, SplitAll(lists)[k], after, r) && AllReadAlone(bus, SplitAll(lists)[k], alones)
    ensures r.Ok? && after == BatchedAll(SplitAll(lists)[k], alones)
    ensures forall x :: x in SplitAll(lists)[k] ==> x in registers
  {
    GroupsPartition(registers, lists);
    var groups := SplitAll(lists);
    hide SortedLists, SplitAll, Readable, GroupRead, Continuous, OneSlave, Sorted, AllReadAlone, BatchedAll, Separated;
    assert groups[k] in groups;
    GroupRefinesIndividualReads(bus, groups[k], after, r, alones);
    forall x | x in groups[k]
      ensures x in registers
    {
      InFlatten(groups, k, x);
      assert x in multiset(registers);
    }
  }

  lemma {:induction false} InFlatten(groups: seq<seq<Register>>, k: nat, x: Register)
    requires k < |groups| && x in groups[k]
    ensures x in Flatten(groups)
    decreases |groups|
  {
    if k < |groups| - 1 {
      InFlatten(groups[..|groups| - 1], k, x);
    }
  }

  /**
   For every register list and every way the grouping may order it: if each group is readable in one request,
   reading the groups succeeds and yields, as a multiset, exactly what reading the registers one by one yields, but
   for registers of quantity zero, which the batch marks valid; it is the same if and only if there are none.
   */
  lemma BatchRefinesIndividualReads(bus: Bus, registers: seq<Register>, lists: seq<seq<Register>>,
                                    afters: seq<seq<Register>>, outcomes: seq<Result<()>>, alones: seq<Register>)
    requires SortedLists(registers, lists)
    requires |afters| == |SplitAll(lists)| == |outcomes|
    requires forall k :: 0 <= k < |afters| ==>
               Readable(bus, SplitAll(lists)[k]) && GroupRead(bus, SplitAll(lists)[k], afters[k], outcomes[k])
    requires AllReadAlone(bus, registers, alones)
    ensures AllOk(outcomes)
    ensures multiset(Flatten(afters)) == multiset(BatchedAll(registers, alones))
    ensures multiset(Flatten(afters)) == multiset(alones) <==>
            forall i :: 0 <= i < |registers| ==> registers[i].readQuantity > 0
  {
    GroupsPartition(registers, lists);
    var groups := SplitAll(lists);
    hide SortedLists, SplitAll, Readable, GroupRead, Continuous, OneSlave, Sorted, Flatten, OwnedAll, BatchedAll,
      AloneRead, ReadableAlone, Separated;
    assert forall k :: 0 <= k < |groups| ==> groups[k] in groups;
    GroupsAreOwned(bus, groups, afters, outcomes);
    OwnedOfPermutation(bus, Flatten(groups), registers);
    AllReadableAlone(bus, registers, groups);
    OwnedAllIsBatchedAll(bus, registers, alones);
  }
}
