/** Whole runs of the concurrent reader: they end, without deadlock, in the sequential result. */
module ConcurrentRuns {
  import opened Bytes
  import opened Device
  import opened Requests
  import opened Line
  import opened Grouping
  import opened GroupReads
  import opened Transports
  import opened TcpCall
  import opened GroupCalls
  import opened Concurrent
  import Tcp
  import B = Batch
  import C = Client

  // ----- What a finished run returns -----

  /** The failures in the order in which ReadGroupedDataSequential reports them. */
  function SequentialErrors(c: Config, n: nat): seq<GroupError>
    requires n <= |c.groups|
  {
    if n == 0 then []
    else
      var outcome := Sequential(c.bus, c.groups[n - 1]).1;
      SequentialErrors(c, n - 1) + (if outcome.Err? then [GroupError(n - 1, outcome.error)] else [])
  }

  predicate DistinctErrors(e: seq<GroupError>) {
    forall j, k :: 0 <= j < k < |e| ==> e[j].groupIndex != e[k].groupIndex
  }

  lemma {:induction false} SequentialErrorsAscend(c: Config, n: nat)
    requires n <= |c.groups|
    ensures forall k :: 0 <= k < |SequentialErrors(c, n)| ==> SequentialErrors(c, n)[k].groupIndex < n
    ensures DistinctErrors(SequentialErrors(c, n))
  {
    hide Sequential;
    if n > 0 {
      SequentialErrorsAscend(c, n - 1);
    }
  }

  lemma {:induction false} SequentialErrorsMembers(c: Config, n: nat, x: GroupError)
    requires n <= |c.groups|
    ensures x in SequentialErrors(c, n) <==>
            x.groupIndex < n && Sequential(c.bus, c.groups[x.groupIndex]).1 == Err(x.error)
  {
    hide Sequential;
    if n > 0 {
      SequentialErrorsMembers(c, n - 1, x);
    }
  }

  lemma {:induction false} CountDistinct(e: seq<GroupError>, x: GroupError)
    requires DistinctErrors(e)
    ensures multiset(e)[x] == if x in e then 1 else 0
    decreases |e|
  {
    if e != [] {
      var init, last := e[..|e| - 1], e[|e| - 1];
      assert e == init + [last];
      CountDistinct(init, x);
      assert last !in init;
    }
  }

  lemma SameErrors(a: seq<GroupError>, b: seq<GroupError>)
    requires DistinctErrors(a) && DistinctErrors(b) && forall x :: x in a <==> x in b
    ensures multiset(a) == multiset(b)
  {
    forall x
      ensures multiset(a)[x] == multiset(b)[x]
    {
      CountDistinct(a, x);
      CountDistinct(b, x);
    }
  }

  /** The concurrent reader returns what the sequential one does, its errors in some order. */
  predicate AsSequential(c: Config, s: State) {
    && |s.results| == |c.groups|
    && (forall i :: 0 <= i < |c.groups| ==> s.results[i] == Sequential(c.bus, c.groups[i]).0)
    && multiset(s.collected) == multiset(SequentialErrors(c, |c.groups|))
  }

  lemma ErrorMembers(c: Config, s: State, x: GroupError)
    requires |s.procs| == |c.groups| && ErrorsOk(c, s) && AllDone(s)
    ensures x in AllErrors(s) <==>
            x.groupIndex < |c.groups| && Sequential(c.bus, c.groups[x.groupIndex]).1 == Err(x.error)
  {
    hide Sequential, AllErrors;
    var e := AllErrors(s);
    if x.groupIndex < |c.groups| && Sequential(c.bus, c.groups[x.groupIndex]).1 == Err(x.error) {
      assert Failed(c, x.groupIndex);
      var k :| 0 <= k < |e| && e[k].groupIndex == x.groupIndex;
      assert e[k] == x;
    }
  }

  lemma FinishedErrors(c: Config, s: State)
    requires |s.procs| == |c.groups| && ErrorsOk(c, s) && AllDone(s) && s.channel == []
    ensures multiset(s.collected) == multiset(SequentialErrors(c, |c.groups|))
  {
    assert AllErrors(s) == s.collected;
    assert DistinctErrors(AllErrors(s));
    forall x
      ensures x in s.collected <==> x in SequentialErrors(c, |c.groups|)
    {
      ErrorMembers(c, s, x);
      SequentialErrorsMembers(c, |c.groups|, x);
    }
    SequentialErrorsAscend(c, |c.groups|);
    hide ErrorsOk, Sequential, AllErrors, SequentialErrors;
    SameErrors(s.collected, SequentialErrors(c, |c.groups|));
  }

  /** Every run that returns, under any interleaving, returns the sequential result. */
  lemma ConcurrentIsSequential(c: Config, slave: byte, s: State, schedule: seq<Action>, end: State)
    requires OneSlaveGroups(c.groups, slave) && Initial(c, s) && Execution(c, s, schedule, end) && end.finished
    ensures AsSequential(c, end)
  {
    InitialInv(c, slave, s);
    ExecutionKeepsInv(c, slave, s, schedule, end);
    InvStored(c, slave, end);
    hide Sequential, SequentialErrors, ErrorsOk, ProcOk;
    FinishedErrors(c, end);
  }

  function SequentialOutcomes(bus: Bus, groups: seq<seq<Register>>): (r: seq<Result<()>>)
    ensures |r| == |groups| && forall k :: 0 <= k < |groups| ==> r[k] == Sequential(bus, groups[k]).1
  {
    seq(|groups|, k requires 0 <= k < |groups| => Sequential(bus, groups[k]).1)
  }

  lemma NoErrors(c: Config, s: State)
    requires AsSequential(c, s) && B.AllOk(SequentialOutcomes(c.bus, c.groups))
    ensures s.collected == []
  {
    hide Sequential;
    assert |multiset(s.collected)| == |s.collected|;
    var e := SequentialErrors(c, |c.groups|);
    if e != [] {
      hide SequentialErrors;
      SequentialErrorsMembers(c, |c.groups|, e[0]);
    }
  }

  /**
   For every register list on one slave, every grouping of it into readable groups and every interleaving:
   a finished concurrent batch has no errors and holds, as a multiset, what reading the registers one by one yields,
   but for registers of quantity zero; it is the same if and only if there are none.
   */
  lemma ConcurrentBatchRefinesIndividualReads(bus: Bus, registers: seq<Register>, lists: seq<seq<Register>>,
                                              s: State, schedule: seq<Action>, end: State, alones: seq<Register>)
    requires SortedLists(registers, lists)
    requires forall k :: 0 <= k < |SplitAll(lists)| ==> B.Readable(bus, SplitAll(lists)[k])
    requires exists slave :: OneSlaveGroups(SplitAll(lists), slave)
    requires Initial(Config(bus, SplitAll(lists)), s) && Execution(Config(bus, SplitAll(lists)), s, schedule, end)
    requires end.finished && B.AllReadAlone(bus, registers, alones)
    ensures end.collected == []
    ensures multiset(Flatten(end.results)) == multiset(B.BatchedAll(registers, alones))
    ensures multiset(Flatten(end.results)) == multiset(alones) <==>
            forall i :: 0 <= i < |registers| ==> registers[i].readQuantity > 0
  {
    var groups := SplitAll(lists);
    hide SortedLists, SplitAll, Sequential, Initial, Execution, B.Readable, B.BatchedAll, B.AllReadAlone,
      SequentialOutcomes, GroupRead, AsSequential, Flatten;
    var slave :| OneSlaveGroups(groups, slave);
    ConcurrentIsSequential(Config(bus, groups), slave, s, schedule, end);
    AllGroupReads(bus, groups, end);
    B.BatchRefinesIndividualReads(bus, registers, lists, end.results, SequentialOutcomes(bus, groups), alones);
    NoErrors(Config(bus, groups), end);
  }

  lemma AllGroupReads(bus: Bus, groups: seq<seq<Register>>, end: State)
    requires AsSequential(Config(bus, groups), end)
    requires forall k :: 0 <= k < |groups| ==> B.Readable(bus, groups[k])
    ensures |end.results| == |groups|
    ensures forall k :: 0 <= k < |groups| ==>
              GroupRead(bus, groups[k], end.results[k], SequentialOutcomes(bus, groups)[k])
  {
    assert forall k :: 0 <= k < |groups| ==> Requestable(groups[k]);
    hide Sequential, B.Readable, SequentialErrors, Requestable, GroupRead;
    forall k | 0 <= k < |groups|
      ensures GroupRead(bus, groups[k], end.results[k], SequentialOutcomes(bus, groups)[k])
    {
      SequentialIsGroupRead(bus, groups[k]);
    }
  }

  // ----- Every run can return, and none runs for ever -----

  /** Until it has returned, some step is always possible: no goroutine waits for ever. */
  lemma NoDeadlock(c: Config, slave: byte, s: State) returns (a: Action)
    requires Inv(c, slave, s) && !s.finished
    ensures Enabled(c, s, a)
  {
    if s.channel != [] {
      a := Collect;
    } else if AllDone(s) {
      a := if s.closed then Return else Close;
    } else if s.holder >= 0 {
      a := Run(s.holder);
      hide ProcOk, ErrorsOk;
    } else {
      var i: nat :| i < |s.procs| && !s.procs[i].Done?;
      a := Run(i);
      hide ProcOk, ErrorsOk;
      if s.procs[i].Stored? {
        SendNeverBlocks(c, slave, s, i);
      }
    }
  }

  /** An upper bound on the steps a goroutine has left. */
  function StepsLeft(p: Proc): nat {
    match p
    case Started => 9
    case Configured => 8
    case Numbered(_) => 7
    case Encoded(_) => 6
    case Locked(_) => 5
    case Sent(_) => 4
    case Received(_, _) => 3
    case Stored(_) => 2
    case Reported => 1
    case Done => 0
  }

  function Work(procs: seq<Proc>): nat {
    if procs == [] then 0 else Work(procs[..|procs| - 1]) + StepsLeft(procs[|procs| - 1])
  }

  lemma {:induction false} WorkUpdate(procs: seq<Proc>, i: nat, p: Proc)
    requires i < |procs|
    ensures Work(procs[i := p]) + StepsLeft(procs[i]) == Work(procs) + StepsLeft(p)
    decreases |procs|
  {
    hide StepsLeft;
    var n := |procs| - 1;
    if i == n {
      assert procs[i := p][..n] == procs[..n];
    } else {
      WorkUpdate(procs[..n], i, p);
      assert procs[i := p][..n] == procs[..n][i := p];
    }
  }

  /** A bound on the steps still to come: each report also means one error to collect. */
  function Left(s: State): nat {
    2 * Work(s.procs) + |s.channel| + (if s.closed then 0 else 1) + (if s.finished then 0 else 1)
  }

  lemma RunChangesOne(c: Config, s: State, i: nat)
    requires Enabled(c, s, Run(i)) && (s.procs[i].Numbered? || s.procs[i].Received? ==> Answerable(c.groups[i]))
    ensures var s' := RunStep(c, s, i);
            && |s'.procs| == |s.procs| && s'.procs == s.procs[i := s'.procs[i]]
            && StepsLeft(s'.procs[i]) < StepsLeft(s.procs[i])
            && |s'.channel| <= |s.channel| + 1 && s'.closed == s.closed && s'.finished == s.finished
  {
    hide Sequential, Reply, ReadReply, RequestFrame, Answerable, Complete, Tcp.NextCounter;
  }

  lemma StepShrinks(c: Config, slave: byte, s: State, a: Action)
    requires Inv(c, slave, s) && Enabled(c, s, a)
    ensures Left(Do(c, s, a)) < Left(s)
  {
    if a.Run? {
      assert ProcOk(c, slave, s, a.i);
      assert s.procs[a.i].Received? ==> Answerable(c.groups[a.i]);
      RunChangesOne(c, s, a.i);
      hide ProcOk, ErrorsOk, RunStep, StepsLeft, Enabled;
      WorkUpdate(s.procs, a.i, RunStep(c, s, a.i).procs[a.i]);
    }
  }

  lemma {:induction false} InitialWork(procs: seq<Proc>)
    requires forall i :: 0 <= i < |procs| ==> procs[i].Started?
    ensures Work(procs) == 9 * |procs|
    decreases |procs|
  {
    if procs != [] {
      InitialWork(procs[..|procs| - 1]);
    }
  }

  lemma {:induction false} ExecutionShrinks(c: Config, slave: byte, s: State, schedule: seq<Action>, end: State)
    requires Inv(c, slave, s) && OneSlaveGroups(c.groups, slave) && Execution(c, s, schedule, end)
    ensures |schedule| + Left(end) <= Left(s)
    decreases |schedule|
  {
    hide Inv, Do, Enabled, Left;
    if schedule != [] {
      StepKeepsInv(c, slave, s, schedule[0]);
      StepShrinks(c, slave, s, schedule[0]);
      ExecutionShrinks(c, slave, Do(c, s, schedule[0]), schedule[1..], end);
    }
  }

  lemma RunsAreShort(c: Config, slave: byte, s: State, schedule: seq<Action>, end: State)
    requires OneSlaveGroups(c.groups, slave) && Initial(c, s) && Execution(c, s, schedule, end)
    ensures |schedule| <= 18 * |c.groups| + 2
  {
    InitialInv(c, slave, s);
    ExecutionShrinks(c, slave, s, schedule, end);
    InitialWork(s.procs);
    hide Inv, Execution;
  }

  /** From every state a run can reach, it can be continued until it returns. */
  lemma {:induction false} RunCanReturn(c: Config, slave: byte, s: State) returns (schedule: seq<Action>, end: State)
    requires Inv(c, slave, s) && OneSlaveGroups(c.groups, slave)
    ensures Execution(c, s, schedule, end) && end.finished
    decreases Left(s)
  {
    hide Inv, Do, Enabled, Left;
    if s.finished {
      schedule, end := [], s;
    } else {
      var a := NoDeadlock(c, slave, s);
      StepKeepsInv(c, slave, s, a);
      StepShrinks(c, slave, s, a);
      var rest;
      rest, end := RunCanReturn(c, slave, Do(c, s, a));
      schedule := [a] + rest;
      assert schedule[1..] == rest;
    }
  }

  // ----- Groups of several slaves -----

  /** Every result stored so far is the sequential one. */
  predicate StoredAsSequential(c: Config, s: State)
  {
    && |s.procs| == |s.results| == |c.groups|
    && forall i :: 0 <= i < |c.groups| && (s.procs[i].Stored? || Past(s.procs[i])) ==>
         s.results[i] == Sequential(c.bus, c.groups[i]).0
  }

  /** Whatever the devices hold and however the goroutines interleave, only sequential results are stored. */
  ghost predicate AlwaysAsSequential(groups: seq<seq<Register>>) {
    forall bus, s, schedule, end ::
      Initial(Config(bus, groups), s) && Execution(Config(bus, groups), s, schedule, end) ==>
        StoredAsSequential(Config(bus, groups), end)
  }

  lemma StoredOk(c: Config, slave: byte, s: State, i: nat)
    requires i < |s.procs| == |s.results| == |c.groups| && ProcOk(c, slave, s, i)
    requires s.procs[i].Stored? || Past(s.procs[i])
    ensures s.results[i] == Sequential(c.bus, c.groups[i]).0
  {
    hide Sequential, FrameFor;
  }

  lemma InvStored(c: Config, slave: byte, s: State)
    requires Inv(c, slave, s)
    ensures StoredAsSequential(c, s)
  {
    hide Sequential, ErrorsOk, ProcOk;
    forall i | 0 <= i < |c.groups| && (s.procs[i].Stored? || Past(s.procs[i]))
      ensures s.results[i] == Sequential(c.bus, c.groups[i]).0
    {
      StoredOk(c, slave, s, i);
    }
  }

  lemma OneSlaveSuffices(groups: seq<seq<Register>>, slave: byte)
    requires OneSlaveGroups(groups, slave)
    ensures AlwaysAsSequential(groups)
  {
    hide Inv, StoredAsSequential, Execution;
    forall bus, s, schedule, end |
      Initial(Config(bus, groups), s) && Execution(Config(bus, groups), s, schedule, end)
      ensures StoredAsSequential(Config(bus, groups), end)
    {
      InitialInv(Config(bus, groups), slave, s);
      ExecutionKeepsInv(Config(bus, groups), slave, s, schedule, end);
      InvStored(Config(bus, groups), slave, end);
    }
  }

  lemma ExecutionStep(c: Config, s: State, a: Action, schedule: seq<Action>, end: State)
    requires Enabled(c, s, a) && Execution(c, Do(c, s, a), schedule, end)
    ensures Execution(c, s, [a] + schedule, end)
  {
    hide Do, Enabled;
    assert ([a] + schedule)[1..] == schedule;
  }

  /** Left alone from encoding on, a goroutine stores what the slave selected at that moment answers. */
  lemma UndisturbedRead(c: Config, s: State, i: nat) returns (schedule: seq<Action>, end: State)
    requires i < |s.procs| == |s.results| == |c.groups| && Answerable(c.groups[i])
    requires s.procs[i].Encoded? && s.procs[i].adu == RequestFrame(c.groups[i], Wrap16(s.counter), s.slaveId)
    requires s.holder == -1 && s.wire == []
    ensures Execution(c, s, schedule, end)
    ensures |end.procs| == |end.results| == |c.groups| && end.procs[i].Stored?
    ensures end.results[i] == Complete(c.groups[i], s.procs[i].adu, ReadReply(Reply(c.bus, s.procs[i].adu)).0).0
  {
    hide Sequential, Reply, ReadReply, RequestFrame, Answerable, Complete, Tcp.NextCounter, Execution;
    var adu := s.procs[i].adu;
    var s1 := Do(c, s, Run(i));
    var s2 := Do(c, s1, Run(i));
    assert [] + Reply(c.bus, adu) == Reply(c.bus, adu);
    var s3 := Do(c, s2, Run(i));
    end := Do(c, s3, Run(i));
    Stay(c, end);
    ExecutionStep(c, s3, Run(i), [], end);
    ExecutionStep(c, s2, Run(i), [Run(i)] + [], end);
    ExecutionStep(c, s1, Run(i), [Run(i)] + ([Run(i)] + []), end);
    ExecutionStep(c, s, Run(i), [Run(i)] + ([Run(i)] + ([Run(i)] + [])), end);
    schedule := [Run(i)] + ([Run(i)] + ([Run(i)] + ([Run(i)] + [])));
  }

  lemma Stay(c: Config, s: State)
    ensures Execution(c, s, [], s)
  {
  }

  function Start(groups: seq<seq<Register>>): State {
    State(0, 0, -1, [], seq(|groups|, i => Started), seq(|groups|, i => []), [], false, [], false)
  }

  /** Goroutine j selects its slave after goroutine i selected its own and before i encodes its request. */
  lemma Overtaken(c: Config, i: nat, j: nat) returns (schedule: seq<Action>, end: State, transaction: uint16)
    requires i < |c.groups| && j < |c.groups| && i != j && Answerable(c.groups[i]) && c.groups[j] != []
    ensures Execution(c, Start(c.groups), schedule, end)
    ensures |end.procs| == |end.results| == |c.groups| && end.procs[i].Stored?
    ensures var adu := RequestFrame(c.groups[i], transaction, c.groups[j][0].slaverId);
            end.results[i] == Complete(c.groups[i], adu, ReadReply(Reply(c.bus, adu)).0).0
  {
    assert c.groups[i] != [];
    hide Sequential, Reply, ReadReply, RequestFrame, Answerable, Complete, Tcp.NextCounter, Execution;
    var s0 := Start(c.groups);
    var s1 := Do(c, s0, Run(i));
    var s2 := Do(c, s1, Run(j));
    var s3 := Do(c, s2, Run(i));
    var s4 := Do(c, s3, Run(i));
    transaction := Wrap16(s3.counter);
    var rest;
    rest, end := UndisturbedRead(c, s4, i);
    ExecutionStep(c, s3, Run(i), rest, end);
    ExecutionStep(c, s2, Run(i), [Run(i)] + rest, end);
    ExecutionStep(c, s1, Run(j), [Run(i)] + ([Run(i)] + rest), end);
    ExecutionStep(c, s0, Run(i), [Run(j)] + ([Run(i)] + ([Run(i)] + rest)), end);
    schedule := [Run(i)] + ([Run(j)] + ([Run(i)] + ([Run(i)] + rest)));
  }

  /** One device, with no cells at all. */
  function EmptyDevice(slave: byte): Bus {
    map[slave := Memory([], [], [], [])]
  }

  lemma EmptyDeviceRefuses(slave: byte, request: Request)
    requires Admit(request).Ok? && IsRead(request)
    ensures var r := C.Call(EmptyDevice(slave), 0, slave, request); r.Err? && r.error.Exception?
  {
    var m := Memory([], [], [], []);
    RequestMeaning(request, m);
    ReadSize(request);
    CallOnDevice(EmptyDevice(slave), 0, slave, request);
    hide Serve, RequestPdu, Respond, Accept, Answer, Effect, C.Call, Tcp.Frame;
  }

  lemma AbsentTimesOut(bus: Bus, slave: byte, request: Request)
    requires slave !in bus && Admit(request).Ok? && IsRead(request)
    ensures C.Call(bus, 0, slave, request) == Err(Timeout)
  {
    ReadSize(request);
    RequestAnswered(TcpFraming, bus, 0, slave, RequestPdu(request));
    NothingArrives(request, Tcp.Frame(0, slave, RequestPdu(request)));
    hide RequestPdu, Respond, C.CallResult, Tcp.Frame, ReadReply;
  }

  /** A group read from another slave than its own can differ: one slave refuses, the other is not there. */
  lemma SlavesDiffer(g: seq<Register>, slave: byte)
    requires Answerable(g) && slave != g[0].slaverId
    ensures var bus := EmptyDevice(g[0].slaverId);
            Finish(g, C.Call(bus, 0, slave, GroupRequest(g))).0 != Sequential(bus, g).0
  {
    var bus, request := EmptyDevice(g[0].slaverId), GroupRequest(g);
    assert IsRead(request);
    hide GroupRequest, C.Call, Admit;
    EmptyDeviceRefuses(g[0].slaverId, request);
    AbsentTimesOut(bus, slave, request);
    assert Finish(g, Err(Timeout)).0[0].status == Invalid(Timeout);
    var e := C.Call(bus, 0, g[0].slaverId, request).error;
    assert Sequential(bus, g).0[0].status == Invalid(e);
  }

  lemma TwoSlavesRace(groups: seq<seq<Register>>, i: nat, j: nat)
    requires i < |groups| && j < |groups| && Answerable(groups[i]) && groups[j] != []
    requires groups[i][0].slaverId != groups[j][0].slaverId
    ensures !AlwaysAsSequential(groups)
  {
    var g, slave := groups[i], groups[j][0].slaverId;
    var bus := EmptyDevice(g[0].slaverId);
    var c := Config(bus, groups);
    SlavesDiffer(g, slave);
    hide Sequential, Reply, ReadReply, RequestFrame, Complete, Execution, C.Call, GroupRequest, Finish;
    var schedule, end, transaction := Overtaken(c, i, j);
    CallIsOfSlave(bus, g, transaction, slave);
    assert Initial(c, Start(groups));
    assert !StoredAsSequential(c, end);
  }

  /**
   For every list of groups: all devices and all interleavings give the sequential results if and only if, when
   some group gets as far as a request, all the groups select one slave.
   */
  lemma SequentialIff(groups: seq<seq<Register>>)
    ensures AlwaysAsSequential(groups) <==> exists slave :: OneSlaveGroups(groups, slave)
  {
    hide AlwaysAsSequential, Answerable;
    if slave :| OneSlaveGroups(groups, slave) {
      OneSlaveSuffices(groups, slave);
    } else {
      assert !OneSlaveGroups(groups, 0);
      var i, k :| 0 <= i < |groups| && 0 <= k < |groups| && !Agree(groups[i], groups[k], 0);
      NonEmpty(groups[i]);
      assert !OneSlaveGroups(groups, groups[i][0].slaverId);
      var i', j :| 0 <= i' < |groups| && 0 <= j < |groups| && !Agree(groups[i'], groups[j], groups[i][0].slaverId);
      NonEmpty(groups[i']);
      if groups[i'][0].slaverId != groups[j][0].slaverId {
        TwoSlavesRace(groups, i', j);
      } else {
        TwoSlavesRace(groups, i, j);
      }
    }
  }

  lemma NonEmpty(g: seq<Register>)
    requires Answerable(g)
    ensures g != []
  {
  }
}
