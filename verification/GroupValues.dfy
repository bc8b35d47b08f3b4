/** What a group read leaves in its registers, for every device, and how that compares with reading each one alone. */
module GroupValues {
  import opened Bytes
  import opened Words
  import opened Device
  import opened Requests
  import opened Line
  import opened Grouping
  import opened GroupReads
  import C = Client

  // ----- A register's own cells -----

  function TableSize(m: Memory, functionCode: byte): nat {
    if functionCode == 1 then |m.coils|
    else if functionCode == 2 then |m.discretes|
    else if functionCode == 3 then |m.holding|
    else if functionCode == 4 then |m.inputs|
    else 0
  }

  /** The cells the register's own function addresses exist. */
  predicate HasCells(m: Memory, r: Register) {
    1 <= r.functionCode <= 4 && r.readAddress as nat + r.readQuantity <= TableSize(m, r.functionCode)
  }

  function WordTable(m: Memory, functionCode: byte): seq<uint16>
    requires IsWord(functionCode)
  {
    if functionCode == 3 then m.holding else m.inputs
  }

  /** The bytes of those cells, as the client's read method returns them. */
  function OwnBytes(m: Memory, r: Register): seq<byte>
    requires HasCells(m, r)
  {
    if r.functionCode == 1 then PackBits(Slice(m.coils, r.readAddress, r.readQuantity))
    else if r.functionCode == 2 then PackBits(Slice(m.discretes, r.readAddress, r.readQuantity))
    else WordBytes(Slice(WordTable(m, r.functionCode), r.readAddress, r.readQuantity))
  }

  predicate IsWord(functionCode: byte) {
    functionCode == 3 || functionCode == 4
  }

  /** The register filled from a table of words. */
  function Filled(cells: seq<uint16>, r: Register): Register
    requires r.readAddress as nat + r.readQuantity <= |cells|
  {
    r.(value := WordBytes(Slice(cells, r.readAddress, r.readQuantity)), status := Valid)
  }

  predicate AllWithin(g: seq<Register>, size: nat) {
    forall i :: 0 <= i < |g| ==> g[i].readAddress as nat + g[i].readQuantity <= size
  }

  function FilledAll(cells: seq<uint16>, g: seq<Register>): (r: seq<Register>)
    requires AllWithin(g, |cells|)
    ensures |r| == |g|
  {
    seq(|g|, i requires 0 <= i < |g| => Filled(cells, g[i]))
  }

  // ----- What the slices need -----

  /** The bytes the slices of a group need, as an integer. */
  function Needed(g: seq<Register>): nat {
    if g == [] then 0 else ExpectedLength(g[0]) + Needed(g[1..])
  }

  lemma {:induction false} SlicesFit(g: seq<Register>, data: seq<byte>, offset: nat)
    requires offset <= |data|
    ensures Distribute(g, data, offset).1.Ok? <==> offset + Needed(g) <= |data|
    ensures Distribute(g, data, offset).1.Ok? ==> Distribute(g, data, offset).1 == Ok(())
    decreases |g|
  {
    if g != [] {
      hide ExpectedLength;
      if offset + ExpectedLength(g[0]) <= |data| {
        SlicesFit(g[1..], data, offset + ExpectedLength(g[0]));
      }
    }
  }

  lemma NeededPrefix(g: seq<Register>, i: nat)
    requires 0 < i <= |g|
    ensures Needed(g[..i]) == ExpectedLength(g[0]) + Needed(g[1..][..i - 1])
  {
    assert g[..i][0] == g[0] && g[..i][1..] == g[1..][..i - 1];
  }

  /**
   Register by register: a slice that fits starts where the slices before it end; the first one that does not leaves
   its register invalid with the value it had, and every later register untouched.
   */
  lemma {:induction false} SliceAt(g: seq<Register>, data: seq<byte>, offset: nat, i: nat)
    requires offset <= |data| && i < |g|
    ensures |Distribute(g, data, offset).0| == |g|
    ensures var after, from, to := Distribute(g, data, offset).0, offset + Needed(g[..i]), offset + Needed(g[..i + 1]);
            && from <= to == from + ExpectedLength(g[i])
            && (to <= |data| ==> after[i] == g[i].(value := data[from..to], status := Valid))
            && (from <= |data| < to ==> after[i] == g[i].(status := Invalid(OutOfBounds)))
            && (|data| < from ==> after[i] == g[i])
    decreases i
  {
    hide ExpectedLength;
    var end := offset + ExpectedLength(g[0]);
    DistributeLength(g, data, offset);
    NeededPrefix(g, i + 1);
    if i == 0 {
      assert g[..0] == [] && g[1..][..0] == [];
    } else {
      NeededPrefix(g, i);
      hide Needed;
      if end <= |data| {
        SliceAt(g[1..], data, end, i - 1);
      } else {
        SlicesGrow(g, i);
      }
    }
  }

  lemma {:induction false} NeededUpTo(g: seq<Register>, i: nat)
    requires i <= |g|
    ensures Needed(g[..i]) <= Needed(g)
  {
    if i > 0 {
      NeededUpTo(g[1..], i - 1);
      NeededPrefix(g, i);
    }
  }

  lemma SlicesGrow(g: seq<Register>, i: nat)
    requires i < |g|
    ensures Needed(g[..i + 1]) == Needed(g[..i]) + ExpectedLength(g[i])
  {
    assert g[..i + 1] == g[..i] + [g[i]];
    NeededSnoc(g[..i], g[i]);
  }

  lemma {:induction false} NeededSnoc(g: seq<Register>, last: Register)
    ensures Needed(g + [last]) == Needed(g) + ExpectedLength(last)
  {
    hide ExpectedLength;
    if g == [] {
      assert [last][1..] == [];
    } else {
      assert (g + [last])[1..] == g[1..] + [last];
      NeededSnoc(g[1..], last);
    }
  }

  /** Whatever wraps, the slices need twice the requested quantity modulo 65536. */
  lemma {:induction false} NeededIsTwice(g: seq<Register>)
    ensures Needed(g) % 0x1_0000 == (2 * TrueTotal(g)) % 0x1_0000
    decreases |g|
  {
    if g != [] {
      var init, last := g[..|g| - 1], g[|g| - 1];
      NeededIsTwice(init);
      NeededSnoc(init, last);
      assert g == init + [last];
      SumsModulo(Needed(init), 2 * TrueTotal(init), 2 * last.readQuantity as nat);
      hide Needed;
    }
  }

  lemma SumsModulo(a: nat, b: nat, x: nat)
    requires a % 0x1_0000 == b % 0x1_0000
    ensures (a + Wrap16(x)) % 0x1_0000 == (b + x) % 0x1_0000
  {
  }

  lemma TwiceAtLeast(needed: nat, total: nat)
    requires needed % 0x1_0000 == (2 * total) % 0x1_0000 && Wrap16(total) <= 2000
    ensures needed >= 2 * Wrap16(total) as nat
  {
    assert (2 * total) % 0x1_0000 == 2 * (total % 0x1_0000);
  }

  predicate AllSmall(g: seq<Register>) {
    forall i :: 0 <= i < |g| ==> g[i].readQuantity < 0x8000
  }

  /** The uint16 doubling wraps exactly from 0x8000 on; the slices lose 0x10000 bytes for each such register. */
  lemma {:induction false} NeededExact(g: seq<Register>)
    ensures AllSmall(g) ==> Needed(g) == 2 * TrueTotal(g)
    ensures !AllSmall(g) && TrueTotal(g) < 0x1_0000 ==> Needed(g) == 2 * TrueTotal(g) - 0x1_0000
    decreases |g|
  {
    if g != [] {
      var init, last := g[..|g| - 1], g[|g| - 1];
      NeededExact(init);
      NeededSnoc(init, last);
      LastOf(g);
      SmallSnoc(init, last);
      NeededStep(Needed(init), TrueTotal(init), last.readQuantity, AllSmall(init));
      assert TrueTotal(g) == TrueTotal(init) + last.readQuantity;
      hide Needed, TrueTotal, AllSmall;
    }
  }

  /** The step as arithmetic: small says that no quantity so far was 0x8000 or more. */
  lemma NeededStep(needed: nat, total: nat, quantity: uint16, small: bool)
    requires if small then needed == 2 * total
             else total >= 0x8000 && (total < 0x1_0000 ==> needed == 2 * total - 0x1_0000)
    ensures var needed', total' := needed + Wrap16(2 * quantity as nat), total + quantity;
            if small && quantity < 0x8000 then needed' == 2 * total'
            else total' < 0x1_0000 ==> needed' == 2 * total' - 0x1_0000
  {
  }

  lemma SmallSnoc(init: seq<Register>, last: Register)
    ensures AllSmall(init + [last]) <==> AllSmall(init) && last.readQuantity < 0x8000
    ensures !AllSmall(init) ==> TrueTotal(init) >= 0x8000
  {
    assert forall i :: 0 <= i < |init| ==> (init + [last])[i] == init[i];
    assert (init + [last])[|init|] == last;
    if !AllSmall(init) {
      var j :| 0 <= j < |init| && init[j].readQuantity >= 0x8000;
      QuantityAtMostTotal(init, j);
    }
  }

  lemma {:induction false} QuantityAtMostTotal(g: seq<Register>, i: nat)
    requires i < |g|
    ensures g[i].readQuantity as nat <= TrueTotal(g)
    decreases |g|
  {
    if i < |g| - 1 {
      QuantityAtMostTotal(g[..|g| - 1], i);
    }
  }

  lemma SmallTotal(g: seq<Register>)
    requires TrueTotal(g) < 0x8000
    ensures AllSmall(g) && Needed(g) == 2 * TrueTotal(g)
  {
    forall i | 0 <= i < |g|
      ensures g[i].readQuantity < 0x8000
    {
      QuantityAtMostTotal(g, i);
    }
    NeededExact(g);
  }

  // ----- The client call of a word group -----

  function WordRequest(functionCode: byte, address: uint16, quantity: uint16): Request {
    if functionCode == 3 then ReadHoldingRegisters(address, quantity) else ReadInputRegisters(address, quantity)
  }

  lemma WordOutcome(bus: Bus, slave: byte, functionCode: byte, address: uint16, quantity: uint16,
                    read: Result<seq<byte>>)
    requires IsWord(functionCode)
    requires C.Outcome(WordRequest(functionCode, address, quantity), slave, bus, bus, read)
    ensures read.Ok? <==>
            1 <= quantity <= 125 && slave in bus && address as nat + quantity <= TableSize(bus[slave], functionCode)
    ensures read.Ok? ==> read.value == WordBytes(Slice(WordTable(bus[slave], functionCode), address, quantity))
    ensures !(1 <= quantity <= 125) ==> read == Err(BadQuantity)
  {
    hide WordBytes;
  }

  /**
   For every group read as words and every device: the read succeeds exactly when the total, as the uint16 sum
   wraps it, is 1 to 125, that many cells exist from the first address on, and the slices need no more bytes.
   */
  lemma GroupReadSucceedsIff(bus: Bus, g: seq<Register>, after: seq<Register>, r: Result<()>)
    requires g != [] && IsWord(g[0].functionCode) && GroupRead(bus, g, after, r)
    ensures var quantity: nat := Wrap16(TrueTotal(g));
            r.Ok? <==>
            && 1 <= quantity <= 125
            && g[0].slaverId in bus
            && g[0].readAddress as nat + quantity <= TableSize(bus[g[0].slaverId], g[0].functionCode)
            && Needed(g) <= 2 * quantity
    ensures r.Ok? ==> r == Ok(())
  {
    var read := CallOf(bus, g, after, r);
    hide TrueTotal, Distribute, C.Outcome, AllInvalid, Needed, WordBytes;
    WordOutcome(bus, g[0].slaverId, g[0].functionCode, g[0].readAddress, Wrap16(TrueTotal(g)), read);
    if read.Ok? {
      SlicesFit(g, read.value, 0);
    }
  }

  /** The client call behind a group read. */
  lemma CallOf(bus: Bus, g: seq<Register>, after: seq<Register>, r: Result<()>) returns (read: Result<seq<byte>>)
    requires g != [] && IsWord(g[0].functionCode) && GroupRead(bus, g, after, r)
    ensures var request := WordRequest(g[0].functionCode, g[0].readAddress, Wrap16(TrueTotal(g)));
            C.Outcome(request, g[0].slaverId, bus, bus, read)
    ensures (after, r) == Finish(g, read)
  {
    hide C.Outcome, Finish, TrueTotal;
    read :| C.Outcome(GroupRequest(g), g[0].slaverId, bus, bus, read) && (after, r) == Finish(g, read);
  }

  // ----- Every group and every device -----

  /** The call behind the group read succeeds. */
  predicate CallServed(bus: Bus, g: seq<Register>) {
    && Requestable(g) && Admit(GroupRequest(g)).Ok?
    && g[0].slaverId in bus && Served(GroupRequest(g), bus[g[0].slaverId])
  }

  /** A failed call leaves every register with the value it had, invalid with the call's error. */
  lemma FailedCallInvalidates(bus: Bus, g: seq<Register>, after: seq<Register>, r: Result<()>)
    requires Requestable(g) && GroupRead(bus, g, after, r) && !CallServed(bus, g)
    ensures r.Err? && |after| == |g|
    ensures forall i :: 0 <= i < |g| ==> after[i] == g[i].(status := Invalid(r.error))
  {
    hide GroupRequest, Admit, Served, Answer, Effect;
  }

  /**
   A served call fills the registers from the reply's data as far as it reaches: the registers whose slices fit are
   valid, the next one is invalid with the value it had, and those behind it are untouched.
   */
  lemma ServedCallFills(bus: Bus, g: seq<Register>, after: seq<Register>, r: Result<()>, i: nat)
    requires GroupRead(bus, g, after, r) && CallServed(bus, g) && i < |g|
    ensures |after| == |g|
    ensures var data := Answer(GroupRequest(g), bus[g[0].slaverId]);
            var from, to := Needed(g[..i]), Needed(g[..i + 1]);
            && (r == if Needed(g) <= |data| then Ok(()) else Err(OutOfBounds))
            && from <= to
            && (to <= |data| ==> after[i] == g[i].(value := data[from..to], status := Valid))
            && (from <= |data| < to ==> after[i] == g[i].(status := Invalid(OutOfBounds)))
            && (|data| < from ==> after[i] == g[i])
  {
    hide GroupRequest, Admit, Served, Answer, Effect, Distribute, Needed, AllInvalid, ExpectedLength;
    var data := Answer(GroupRequest(g), bus[g[0].slaverId]);
    SliceAt(g, data, 0, i);
    SlicesFit(g, data, 0);
    FailsOutOfBounds(g, data, 0);
  }

  lemma {:induction false} FailsOutOfBounds(g: seq<Register>, data: seq<byte>, offset: nat)
    requires offset <= |data|
    ensures Distribute(g, data, offset).1.Err? ==> Distribute(g, data, offset).1 == Err(OutOfBounds)
    decreases |g|
  {
    hide ExpectedLength;
    if g != [] && offset + ExpectedLength(g[0]) <= |data| {
      FailsOutOfBounds(g[1..], data, offset + ExpectedLength(g[0]));
    }
  }

  // ----- Runs read as words -----

  /** A run of the grouping whose first register is read as words; the others may have any function. */
  predicate WordHead(g: seq<Register>) {
    g != [] && Continuous(g) && OneSlave(g, g[0].slaverId) && IsWord(g[0].functionCode)
  }

  /** The ranges of a continuous run tile [start, start + total). */
  lemma {:induction false} RunTiles(g: seq<Register>)
    requires Continuous(g) && g != []
    ensures forall i :: 0 <= i < |g| ==>
              g[0].readAddress <= g[i].readAddress
              && g[i].readAddress as nat + g[i].readQuantity <= g[0].readAddress as nat + TrueTotal(g)
    ensures g[|g| - 1].readAddress as nat + g[|g| - 1].readQuantity == g[0].readAddress as nat + TrueTotal(g)
    decreases |g|
  {
    if |g| > 1 {
      var init := g[..|g| - 1];
      RunTiles(init);
      assert Follows(g[|g| - 2], g[|g| - 1]);
      assert forall i :: 0 <= i < |init| ==> init[i] == g[i];
    } else {
      assert g[..0] == [];
    }
  }

  lemma SliceOfSlice(s: seq<uint16>, from: nat, to: nat, lo: nat, hi: nat)
    requires lo <= hi <= to - from && to <= |s|
    ensures s[from..to][lo..hi] == s[from + lo..from + hi]
  {
    assert |s[from..to][lo..hi]| == hi - lo == |s[from + lo..from + hi]|;
    assert forall k :: 0 <= k < hi - lo ==> s[from..to][lo..hi][k] == s[from + lo..from + hi][k];
  }

  /** The group can be read in one request: 1 to 125 units, all in the table of the first register's function. */
  predicate Serves(bus: Bus, g: seq<Register>)
    requires g != []
  {
    && 1 <= TrueTotal(g) <= 125 && g[0].slaverId in bus
    && g[0].readAddress as nat + TrueTotal(g) <= TableSize(bus[g[0].slaverId], g[0].functionCode)
  }

  // ----- Any successful read, whatever wraps -----

  /** Where the slice of a register lies: 0x8000 too low once a doubled quantity before it has wrapped. */
  function Source(g: seq<Register>, i: nat): int
    requires i < |g|
  {
    g[i].readAddress - (if AllSmall(g[..i]) then 0 else 0x8000)
  }

  lemma {:induction false} AddressIs(g: seq<Register>, i: nat)
    requires Continuous(g) && i < |g|
    ensures g[i].readAddress as nat == g[0].readAddress as nat + TrueTotal(g[..i])
  {
    if i > 0 {
      AddressIs(g, i - 1);
      assert Follows(g[i - 1], g[i]);
      assert g[..i][..i - 1] == g[..i - 1];
    }
  }

  lemma SliceStart(g: seq<Register>, i: nat)
    requires Continuous(g) && i < |g|
    ensures Source(g, i) >= g[0].readAddress
    ensures Needed(g[..i]) == 2 * (Source(g, i) - g[0].readAddress)
  {
    AddressIs(g, i);
    NeededExact(g[..i]);
    hide TrueTotal, Needed, Continuous, AllSmall;
  }

  /** What a successful call brings: the slices fit into it. */
  lemma CallBrings(bus: Bus, g: seq<Register>, after: seq<Register>) returns (cells: seq<uint16>, quantity: nat)
    requires WordHead(g) && GroupRead(bus, g, after, Ok(()))
    ensures g[0].slaverId in bus && cells == WordTable(bus[g[0].slaverId], g[0].functionCode)
    ensures quantity == Wrap16(TrueTotal(g)) <= 125 && g[0].readAddress as nat + quantity <= |cells|
    ensures Distribute(g, WordBytes(Slice(cells, g[0].readAddress, quantity)), 0) == (after, Ok(()))
    ensures Needed(g) <= 2 * quantity
  {
    var read := CallOf(bus, g, after, Ok(()));
    hide TrueTotal, Distribute, C.Outcome, AllInvalid, Needed, WordBytes, GroupRead, Continuous, OneSlave;
    WordOutcome(bus, g[0].slaverId, g[0].functionCode, g[0].readAddress, Wrap16(TrueTotal(g)), read);
    GroupReadSucceedsIff(bus, g, after, Ok(()));
    TableIsTable(bus[g[0].slaverId], g[0].functionCode);
    cells, quantity := WordTable(bus[g[0].slaverId], g[0].functionCode), Wrap16(TrueTotal(g));
  }

  /** The bytes of a slice that lies two bytes per cell into the reply. */
  lemma CellsAt(cells: seq<uint16>, start: nat, quantity: nat, address: nat, n: nat, offset: nat)
    requires start + quantity <= |cells| && start <= address && offset == 2 * (address - start)
    requires offset + 2 * n <= 2 * quantity
    ensures WordBytes(Slice(cells, start, quantity))[offset..offset + 2 * n] == WordBytes(Slice(cells, address, n))
  {
    hide WordBytes;
    WordBytesSlice(cells[start..start + quantity], address - start, address - start + n);
    SliceOfSlice(cells, start, start + quantity, address - start, address - start + n);
  }

  lemma ValueIs(r: Register, cells: seq<uint16>, start: nat, quantity: nat, source: nat, from: nat, value: seq<byte>)
    requires start + quantity <= |cells| && start <= source && from == 2 * (source - start) && r.readQuantity < 0x8000
    requires from + ExpectedLength(r) <= 2 * quantity
    requires value == WordBytes(Slice(cells, start, quantity))[from..from + ExpectedLength(r)]
    ensures source + r.readQuantity <= |cells| && value == WordBytes(Slice(cells, source, r.readQuantity))
  {
    hide WordBytes;
    CellsAt(cells, start, quantity, source, r.readQuantity, from);
  }

  /** When all slices fit, each is as long as its register asks and lies behind those before it. */
  lemma SliceTaken(g: seq<Register>, data: seq<byte>, after: seq<Register>, i: nat)
    requires Distribute(g, data, 0) == (after, Ok(())) && Needed(g) <= |data| && i < |g|
    ensures var from := Needed(g[..i]);
            && |after| == |g| && from + ExpectedLength(g[i]) <= |data|
            && after[i] == g[i].(value := data[from..from + ExpectedLength(g[i])], status := Valid)
  {
    hide Needed, Distribute, ExpectedLength;
    SliceAt(g, data, 0, i);
    NeededUpTo(g, i + 1);
  }

  /**
   For every run and every device, a successful read fills register i from the table of the first register's
   function: with the cells at its own address, or 0x8000 below if a register before it has a quantity of 0x8000 or
   more. A register of such a quantity gets 0x10000 bytes less than its cells have.
   */
  lemma FirstFunctionServesAll(bus: Bus, g: seq<Register>, after: seq<Register>, i: nat)
    requires WordHead(g) && GroupRead(bus, g, after, Ok(())) && i < |g|
    ensures |after| == |g| && g[0].slaverId in bus
    ensures after[i] == g[i].(value := after[i].value, status := Valid)
    ensures |after[i].value| == ExpectedLength(g[i]) <= 250 && Source(g, i) >= 0
    ensures g[i].readQuantity < 0x8000 ==>
              var cells := WordTable(bus[g[0].slaverId], g[0].functionCode);
              && Source(g, i) + g[i].readQuantity <= |cells|
              && after[i].value == WordBytes(Slice(cells, Source(g, i), g[i].readQuantity))
  {
    hide TrueTotal, GroupRead, WordBytes, Needed, Source, Continuous, OneSlave, Distribute, Slice;
    var cells, quantity := CallBrings(bus, g, after);
    SliceTaken(g, WordBytes(Slice(cells, g[0].readAddress, quantity)), after, i);
    SliceStart(g, i);
    if g[i].readQuantity < 0x8000 {
      ValueIs(g[i], cells, g[0].readAddress, quantity, Source(g, i), Needed(g[..i]), after[i].value);
    }
    hide ExpectedLength;
  }

  /**
   For every run and every device: after a successful read every value has two bytes per unit exactly when the total
   is at most 125. A total that wraps to 1 to 125 never gives that.
   */
  lemma SizesIff(bus: Bus, g: seq<Register>, after: seq<Register>)
    requires WordHead(g) && GroupRead(bus, g, after, Ok(()))
    ensures |after| == |g|
    ensures (forall i :: 0 <= i < |g| ==> |after[i].value| == 2 * g[i].readQuantity as nat) <==> TrueTotal(g) <= 125
  {
    hide TrueTotal, GroupRead, WordBytes, Needed, Source, Continuous, OneSlave, Distribute, Slice;
    var cells, quantity := CallBrings(bus, g, after);
    FirstFunctionServesAll(bus, g, after, 0);
    forall i | 0 <= i < |g|
      ensures |after[i].value| == 2 * g[i].readQuantity as nat <==> g[i].readQuantity < 0x8000
    {
      FirstFunctionServesAll(bus, g, after, i);
    }
    NeededExact(g);
    if TrueTotal(g) <= 125 {
      SmallTotal(g);
    }
  }

  lemma TableIsTable(m: Memory, functionCode: byte)
    requires IsWord(functionCode)
    ensures TableSize(m, functionCode) == |WordTable(m, functionCode)|
  {
  }

  lemma RunSucceedsIff(bus: Bus, g: seq<Register>, after: seq<Register>, r: Result<()>)
    requires WordHead(g) && GroupRead(bus, g, after, r)
    ensures Serves(bus, g) ==> r == Ok(())
    ensures r.Ok? && TrueTotal(g) <= 0x1_0000 ==> Serves(bus, g)
  {
    hide TrueTotal, GroupRead, Continuous, OneSlave, Needed, TableSize;
    GroupReadSucceedsIff(bus, g, after, r);
    if TrueTotal(g) <= 125 {
      SmallTotal(g);
    }
  }

  /** A served call of a run whose total does not wrap has all the run's cells. */
  lemma ServedServes(bus: Bus, g: seq<Register>)
    requires WordHead(g) && CallServed(bus, g) && TrueTotal(g) <= 0x1_0000
    ensures Serves(bus, g)
  {
    hide TrueTotal, Continuous, OneSlave;
  }

  lemma FailsOnlyByCall(bus: Bus, g: seq<Register>, after: seq<Register>, r: Result<()>)
    requires WordHead(g) && GroupRead(bus, g, after, r) && r.Err? && TrueTotal(g) <= 0x1_0000
    ensures |after| == |g| && forall i :: 0 <= i < |g| ==> after[i] == g[i].(status := Invalid(r.error))
  {
    RunSucceedsIff(bus, g, after, r);
    hide TrueTotal, GroupRead, Continuous, OneSlave, CallServed, Serves;
    if CallServed(bus, g) {
      ServedServes(bus, g);
    } else {
      FailedCallInvalidates(bus, g, after, r);
    }
  }

  lemma QuantityRefused(bus: Bus, g: seq<Register>, after: seq<Register>, r: Result<()>)
    requires WordHead(g) && GroupRead(bus, g, after, r) && !(1 <= Wrap16(TrueTotal(g)) <= 125)
    ensures r == Err(BadQuantity)
  {
    hide TrueTotal, Continuous, OneSlave, AllInvalid;
  }

  /**
   For every run and every device: if the slave is there, the total is 1 to 125 and the run's cells exist in the table
   of the first register's function, the read succeeds and fills every register from that table. If the total does
   not wrap it succeeds only then, and otherwise leaves every register invalid.
   */
  lemma RunReadIff(bus: Bus, g: seq<Register>, after: seq<Register>, r: Result<()>)
    requires WordHead(g) && GroupRead(bus, g, after, r)
    ensures TrueTotal(g) <= 0x1_0000 ==> (r.Ok? <==> Serves(bus, g))
    ensures Serves(bus, g) ==>
              && r == Ok(()) && AllWithin(g, |WordTable(bus[g[0].slaverId], g[0].functionCode)|)
              && after == FilledAll(WordTable(bus[g[0].slaverId], g[0].functionCode), g)
    ensures r.Err? && TrueTotal(g) <= 0x1_0000 ==>
              |after| == |g| && forall i :: 0 <= i < |g| ==> after[i] == g[i].(status := Invalid(r.error))
    ensures !(1 <= Wrap16(TrueTotal(g)) <= 125) ==> r == Err(BadQuantity)
  {
    RunSucceedsIff(bus, g, after, r);
    if r.Err? && TrueTotal(g) <= 0x1_0000 {
      FailsOnlyByCall(bus, g, after, r);
    }
    if !(1 <= Wrap16(TrueTotal(g)) <= 125) {
      QuantityRefused(bus, g, after, r);
    }
    hide TrueTotal, GroupRead, Continuous, OneSlave, FilledAll, TableSize;
    if Serves(bus, g) {
      FilledFromTable(bus, g, after);
    }
  }

  lemma FilledFromTable(bus: Bus, g: seq<Register>, after: seq<Register>)
    requires WordHead(g) && GroupRead(bus, g, after, Ok(())) && TrueTotal(g) <= 125
    ensures g[0].slaverId in bus && AllWithin(g, |WordTable(bus[g[0].slaverId], g[0].functionCode)|)
    ensures after == FilledAll(WordTable(bus[g[0].slaverId], g[0].functionCode), g)
  {
    hide TrueTotal, GroupRead, WordBytes, Continuous, OneSlave, ExpectedLength, Slice;
    SmallTotal(g);
    FirstFunctionServesAll(bus, g, after, 0);
    forall i | 0 <= i < |g|
      ensures g[i].readAddress as nat + g[i].readQuantity <= |WordTable(bus[g[0].slaverId], g[0].functionCode)|
      ensures after[i] == Filled(WordTable(bus[g[0].slaverId], g[0].functionCode), g[i])
    {
      FirstFunctionServesAll(bus, g, after, i);
    }
  }

  /** A run that runs past the address space can make the total wrap, and then succeed with wrong values. */
  lemma WrappedTotalReads(bus: Bus, slave: byte, status: Status) returns (g: seq<Register>, after: seq<Register>)
    requires slave in bus && |bus[slave].holding| >= 101
    ensures WordHead(g) && |g| == 2 && TrueTotal(g) == 0x1_0001
    ensures GroupRead(bus, g, after, Ok(()))
    ensures |after| == 2 && after[0].value == [] && after[0].status == Valid && g[0].readQuantity == 0x8000
  {
    var a := Register("a", slave, 3, 100, 0x8000, [], status);
    var b := Register("b", slave, 3, 100 + 0x8000, 0x8001, [], status);
    g := [a, b];
    assert g[..1] == [a] && [a][..0] == [] && TrueTotal([a]) == 0x8000;
    var request := ReadHoldingRegisters(100, 1);
    assert GroupRequest(g) == request;
    var data := Answer(request, bus[slave]);
    assert C.Outcome(request, slave, bus, bus, Ok(data)) && |data| == 2;
    assert g[1..] == [b] && [b][1..] == [];
    after := Finish(g, Ok(data)).0;
    TwoSlices(a, b, data);
  }

  lemma TwoSlices(a: Register, b: Register, data: seq<byte>)
    requires a.readQuantity == 0x8000 && b.readQuantity == 0x8001 && |data| == 2
    ensures var (after, r) := Distribute([a, b], data, 0);
            |after| == 2 && after[0].value == [] && after[0].status == Valid && r == Ok(())
  {
    assert [a, b][1..] == [b] && [b][1..] == [];
    assert Distribute([], data, 2) == ([], Ok(()));
    assert Distribute([b], data, 0).1 == Ok(());
  }

  // ----- One function for the whole group -----

  /** What the grouping makes of registers that all use function 3 or all use function 4. */
  predicate WordGroup(g: seq<Register>) {
    WordHead(g) && forall i :: 0 <= i < |g| ==> g[i].functionCode == g[0].functionCode
  }

  /** The register with the bytes of its own cells. */
  function Own(m: Memory, r: Register): Register
    requires HasCells(m, r)
  {
    r.(value := OwnBytes(m, r), status := Valid)
  }

  predicate AllHaveCells(m: Memory, g: seq<Register>) {
    forall i :: 0 <= i < |g| ==> HasCells(m, g[i])
  }

  function OwnAll(m: Memory, g: seq<Register>): (r: seq<Register>)
    requires AllHaveCells(m, g)
    ensures |r| == |g|
  {
    seq(|g|, i requires 0 <= i < |g| => Own(m, g[i]))
  }

  /**
   For every group with one word function, any total and every device: after a successful read every register has
   existing cells and holds the big-endian bytes of exactly those if and only if the total is at most 125.
   */
  lemma OwnIff(bus: Bus, g: seq<Register>, after: seq<Register>)
    requires WordGroup(g) && GroupRead(bus, g, after, Ok(()))
    ensures g[0].slaverId in bus
    ensures AllHaveCells(bus[g[0].slaverId], g) && after == OwnAll(bus[g[0].slaverId], g) <==> TrueTotal(g) <= 125
  {
    hide TrueTotal, WordBytes, GroupRead, Continuous;
    SizesIff(bus, g, after);
    if TrueTotal(g) <= 125 {
      FilledFromTable(bus, g, after);
    } else {
      FirstFunctionServesAll(bus, g, after, 0);
      if AllHaveCells(bus[g[0].slaverId], g) && after == OwnAll(bus[g[0].slaverId], g) {
        assert forall i :: 0 <= i < |g| ==> after[i] == Own(bus[g[0].slaverId], g[i]);
      }
    }
  }

  /**
   Such a read succeeds when the group can be read in one request, and if the total does not wrap only then. The
   values of a success are right exactly for a total of at most 125. A failure invalidates all registers.
   */
  lemma GroupReadIff(bus: Bus, g: seq<Register>, after: seq<Register>, r: Result<()>)
    requires WordGroup(g) && GroupRead(bus, g, after, r)
    ensures Serves(bus, g) ==> r == Ok(())
    ensures TrueTotal(g) <= 0x1_0000 ==> (r.Ok? <==> Serves(bus, g))
    ensures r.Ok? ==> g[0].slaverId in bus
    ensures r.Ok? ==>
              (AllHaveCells(bus[g[0].slaverId], g) && after == OwnAll(bus[g[0].slaverId], g) <==> TrueTotal(g) <= 125)
    ensures r.Err? && TrueTotal(g) <= 0x1_0000 ==>
              |after| == |g| && forall i :: 0 <= i < |g| ==> after[i] == g[i].(status := Invalid(r.error))
    ensures !(1 <= Wrap16(TrueTotal(g)) <= 125) ==> r == Err(BadQuantity)
  {
    hide TrueTotal, WordBytes, GroupRead, AllInvalid, AllHaveCells, OwnAll;
    RunReadIff(bus, g, after, r);
    GroupReadSucceedsIff(bus, g, after, r);
    if r.Ok? {
      OwnIff(bus, g, after);
    }
  }

  lemma SingleGroup(r: Register)
    ensures TrueTotal([r]) == r.readQuantity
    ensures IsWord(r.functionCode) ==> WordGroup([r])
  {
    assert [r][..0] == [];
  }

  /** Reading one register alone succeeds exactly when it has a quantity of 1 to 125 and its cells exist. */
  lemma AloneReadIff(bus: Bus, x: Register, alone: seq<Register>, r: Result<()>)
    requires IsWord(x.functionCode) && GroupRead(bus, [x], alone, r)
    ensures r.Ok? <==> 1 <= x.readQuantity <= 125 && x.slaverId in bus && HasCells(bus[x.slaverId], x)
    ensures r.Ok? ==> alone == [Own(bus[x.slaverId], x)]
    ensures r.Err? ==> |alone| == 1 && alone[0].status == Invalid(r.error)
  {
    SingleGroup(x);
    hide TrueTotal, OwnBytes, GroupRead;
    GroupReadIff(bus, [x], alone, r);
  }

  /** Every member of a group that can be read has cells of its own and at most the group's quantity. */
  lemma ServesMember(bus: Bus, g: seq<Register>, i: nat)
    requires WordGroup(g) && Serves(bus, g) && i < |g|
    ensures g[i].slaverId == g[0].slaverId && g[i].readQuantity <= 125 && HasCells(bus[g[0].slaverId], g[i])
  {
    RunTiles(g);
    hide TrueTotal;
  }

  /**
   A register of a successful batch equals what reading it alone gives only if it has a quantity of 1 to 125: a
   register of quantity zero or of more than 125, which the batch marks valid, is refused when read alone. Unless the
   total wrapped, every register of positive quantity does.
   */
  lemma BatchRefinesSingle(bus: Bus, g: seq<Register>, after: seq<Register>, i: nat, alone: seq<Register>,
                           r: Result<()>)
    requires WordGroup(g) && GroupRead(bus, g, after, Ok(()))
    requires i < |g| && GroupRead(bus, [g[i]], alone, r)
    ensures |after| == |g|
    ensures alone == [after[i]] || r.Ok? ==> 1 <= g[i].readQuantity <= 125
    ensures TrueTotal(g) <= 0x1_0000 ==> (alone == [after[i]] <==> g[i].readQuantity > 0)
    ensures TrueTotal(g) <= 0x1_0000 ==> (r.Ok? <==> g[i].readQuantity > 0)
  {
    hide GroupRead, TrueTotal, OwnBytes, Continuous, OneSlave, WordBytes;
    GroupReadIff(bus, g, after, Ok(()));
    FirstFunctionServesAll(bus, g, after, i);
    AloneReadIff(bus, g[i], alone, r);
    if TrueTotal(g) <= 0x1_0000 {
      ServesMember(bus, g, i);
      assert after[i] == Own(bus[g[0].slaverId], g[i]);
    }
  }

  /** All registers of positive quantity equal what reading them alone gives exactly when the total is at most 125. */
  lemma BatchRefinesAllIff(bus: Bus, g: seq<Register>, after: seq<Register>, alones: seq<Register>,
                           outcomes: seq<Result<()>>)
    requires WordGroup(g) && GroupRead(bus, g, after, Ok(()))
    requires |alones| == |outcomes| == |g|
    requires forall i :: 0 <= i < |g| ==> GroupRead(bus, [g[i]], [alones[i]], outcomes[i])
    ensures |after| == |g|
    ensures (forall i :: 0 <= i < |g| && g[i].readQuantity > 0 ==> alones[i] == after[i]) <==> TrueTotal(g) <= 125
  {
    hide GroupRead, TrueTotal, Continuous, OneSlave, ExpectedLength;
    SizesIff(bus, g, after);
    forall i | 0 <= i < |g|
      ensures TrueTotal(g) <= 125 && g[i].readQuantity > 0 ==> alones[i] == after[i]
      ensures alones[i] == after[i] ==> g[i].readQuantity <= 125
    {
      BatchRefinesSingle(bus, g, after, i, [alones[i]], outcomes[i]);
    }
    if forall i :: 0 <= i < |g| && g[i].readQuantity > 0 ==> alones[i] == after[i] {
      SmallSuccess(bus, g, after);
    }
  }

  lemma SmallSuccess(bus: Bus, g: seq<Register>, after: seq<Register>)
    requires WordHead(g) && GroupRead(bus, g, after, Ok(())) && AllSmall(g)
    ensures TrueTotal(g) <= 125
  {
    hide TrueTotal, GroupRead, Needed, Continuous, OneSlave, WordBytes, Distribute, Slice;
    var cells, quantity := CallBrings(bus, g, after);
    NeededExact(g);
  }

  // ----- Mixed groups: grouping ignores the function code -----

  predicate HoldsOwn(bus: Bus, g: seq<Register>, after: seq<Register>, i: nat)
    requires i < |g|
  {
    && |after| == |g| && g[0].slaverId in bus
    && (HasCells(bus[g[0].slaverId], g[i]) ==> after[i].value == OwnBytes(bus[g[0].slaverId], g[i]))
  }

  /** Whatever the devices hold, a successful read fills register i with its own cells where they exist. */
  ghost predicate AlwaysOwn(g: seq<Register>, i: nat)
    requires i < |g|
  {
    forall bus, after :: GroupRead(bus, g, after, Ok(())) ==> HoldsOwn(bus, g, after, i)
  }

  /** Some device lets the read succeed. */
  predicate CanRead(g: seq<Register>) {
    1 <= Wrap16(TrueTotal(g)) <= 125 && Needed(g) <= 2 * Wrap16(TrueTotal(g)) as nat
  }

  /** The register's function is the first one's, and no doubled quantity up to it wraps. */
  predicate RightSlice(g: seq<Register>, i: nat)
    requires i < |g|
  {
    g[i].functionCode == g[0].functionCode && AllSmall(g[..i + 1])
  }

  /**
   In a run of any functions and any total, over all devices, a successful read always fills register i with its own
   cells exactly when its quantity is zero or its function is the first register's and no register up to it has a
   quantity of 0x8000 or more (or no device lets the read succeed).
   */
  lemma MixedGroupRightIff(g: seq<Register>, i: nat)
    requires WordHead(g) && i < |g| && 1 <= g[i].functionCode <= 4
    ensures AlwaysOwn(g, i) <==> !CanRead(g) || g[i].readQuantity == 0 || RightSlice(g, i)
  {
    hide GroupRead, TrueTotal, Needed, HoldsOwn, RightSlice, WordHead;
    if CanRead(g) && g[i].readQuantity != 0 && !RightSlice(g, i) {
      var after := FullDeviceReads(g);
      FullDeviceDiffers(g, after, i);
    } else {
      forall bus, after | GroupRead(bus, g, after, Ok(()))
        ensures HoldsOwn(bus, g, after, i)
      {
        SuccessCanRead(bus, g, after);
        RightSliceHoldsOwn(bus, g, after, i);
      }
    }
  }

  lemma SuccessCanRead(bus: Bus, g: seq<Register>, after: seq<Register>)
    requires WordHead(g) && GroupRead(bus, g, after, Ok(()))
    ensures CanRead(g)
  {
    hide GroupRead, TrueTotal, Needed;
    GroupReadSucceedsIff(bus, g, after, Ok(()));
  }

  lemma RightSliceHoldsOwn(bus: Bus, g: seq<Register>, after: seq<Register>, i: nat)
    requires WordHead(g) && GroupRead(bus, g, after, Ok(())) && i < |g|
    requires g[i].readQuantity == 0 || RightSlice(g, i)
    ensures HoldsOwn(bus, g, after, i)
  {
    hide TrueTotal, GroupRead, Continuous, WordBytes, PackBits, OneSlave;
    FirstFunctionServesAll(bus, g, after, i);
    if g[i].readQuantity == 0 {
      NoBytes();
    } else {
      UpToSmall(g, i);
    }
  }

  lemma NoBytes()
    ensures PackBits([]) == [] && WordBytes([]) == []
  {
  }

  lemma UpToSmall(g: seq<Register>, i: nat)
    requires i < |g|
    ensures AllSmall(g[..i + 1]) <==> AllSmall(g[..i]) && g[i].readQuantity < 0x8000
  {
    assert g[..i + 1] == g[..i] + [g[i]];
    SmallSnoc(g[..i], g[i]);
    hide AllSmall;
  }

  /** A device whose word tables tell the two tables, and the two halves of the address space, apart. */
  function FullMemory(): Memory {
    Memory(seq(0x2_0000, _ => false), seq(0x2_0000, _ => false),
           seq(0x2_0000, a => if a < 0x8000 then 0 else 1), seq(0x2_0000, a => if a < 0x8000 then 2 else 3))
  }

  lemma CellOf(functionCode: byte, address: nat)
    requires IsWord(functionCode) && address < 0x2_0000
    ensures WordTable(FullMemory(), functionCode)[address]
            == (if functionCode == 3 then 0 else 2) + (if address < 0x8000 then 0 else 1)
  {
  }

  lemma FullDeviceReads(g: seq<Register>) returns (after: seq<Register>)
    requires WordHead(g) && CanRead(g)
    ensures GroupRead(map[g[0].slaverId := FullMemory()], g, after, Ok(()))
  {
    hide TrueTotal, WordBytes, Continuous, OneSlave, Finish, Needed;
    var slave, request := g[0].slaverId, GroupRequest(g);
    var bus := map[slave := FullMemory()];
    assert Served(request, bus[slave]);
    var read := Ok(Answer(request, bus[slave]));
    assert C.Outcome(request, slave, bus, bus, read);
    hide C.Outcome, Answer, Served;
    after := Finish(g, read).0;
    assert GroupRead(bus, g, after, Finish(g, read).1);
    GroupReadSucceedsIff(bus, g, after, Finish(g, read).1);
  }

  lemma FullDeviceDiffers(g: seq<Register>, after: seq<Register>, i: nat)
    requires WordHead(g) && CanRead(g) && i < |g| && 1 <= g[i].functionCode <= 4
    requires g[i].readQuantity != 0 && !RightSlice(g, i)
    requires GroupRead(map[g[0].slaverId := FullMemory()], g, after, Ok(()))
    ensures !AlwaysOwn(g, i)
  {
    hide TrueTotal, Needed, GroupRead, Continuous, WordBytes, PackBits, OneSlave, FullMemory, OwnBytes;
    var bus := map[g[0].slaverId := FullMemory()];
    FirstFunctionServesAll(bus, g, after, i);
    UpToSmall(g, i);
    ValuesDiffer(g[0].functionCode, Source(g, i), g[i], after[i].value);
    assert !HoldsOwn(bus, g, after, i);
  }

  lemma ValuesDiffer(functionCode: byte, source: int, r: Register, value: seq<byte>)
    requires IsWord(functionCode) && 1 <= r.functionCode <= 4 && r.readQuantity > 0
    requires |value| == ExpectedLength(r) <= 250
    requires 0 <= source && (source == r.readAddress as int || source == r.readAddress - 0x8000)
    requires r.readQuantity >= 0x8000 || source != r.readAddress as int || r.functionCode != functionCode
    requires r.readQuantity < 0x8000 ==>
               && source + r.readQuantity <= |WordTable(FullMemory(), functionCode)|
               && value == WordBytes(Slice(WordTable(FullMemory(), functionCode), source, r.readQuantity))
    ensures HasCells(FullMemory(), r) && value != OwnBytes(FullMemory(), r)
  {
    var m := FullMemory();
    hide WordBytes, PackBits;
    if r.readQuantity < 0x8000 && IsWord(r.functionCode) {
      var own, other := Slice(WordTable(m, r.functionCode), r.readAddress, r.readQuantity),
                        Slice(WordTable(m, functionCode), source, r.readQuantity);
      CellOf(r.functionCode, r.readAddress);
      CellOf(functionCode, source);
      assert own[0] != other[0];
      WordBytesAt(own, 0);
      WordBytesAt(other, 0);
    }
  }

  // ----- Bit groups -----

  lemma BitOutcome(request: Request, slave: byte, bus: Bus, data: seq<byte>)
    requires request.ReadCoils? || request.ReadDiscreteInputs?
    requires C.Outcome(request, slave, bus, bus, Ok(data))
    ensures 1 <= request.quantity <= 2000 && |data| == CeilDiv8(request.quantity)
  {
    hide PackBits;
  }

  /**
   A group of coils or discrete inputs never reads successfully: one bit per unit comes back and two bytes per
   unit are sliced, so for every group and every device some register is out of bounds.
   */
  lemma BitGroupNeverReads(bus: Bus, g: seq<Register>, after: seq<Register>, r: Result<()>)
    requires g != [] && 1 <= g[0].functionCode <= 2 && GroupRead(bus, g, after, r)
    ensures r.Err?
  {
    var request := GroupRequest(g);
    hide TrueTotal, Distribute, C.Outcome, AllInvalid;
    var read: Result<seq<byte>> :|
      C.Outcome(request, g[0].slaverId, bus, bus, read) && (after, r) == Finish(g, read);
    if read.Ok? {
      BitOutcome(request, g[0].slaverId, bus, read.value);
      NeededIsTwice(g);
      TwiceAtLeast(Needed(g), TrueTotal(g));
      SlicesFit(g, read.value, 0);
    }
  }
}
