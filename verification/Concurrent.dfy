/**
 ReadGroupedDataConcurrently as a step system: one goroutine per group over one TCP client, with its shared
 slave id, atomic transaction counter, connection mutex and wire, and the buffered error channel with its closer
 and its collector. Any goroutine may take the next step at any time.
 */
module Concurrent {
  import opened Bytes
  import opened Line
  import opened Grouping
  import opened GroupReads
  import opened Transports
  import opened GroupCalls
  import Tcp

  /** Where a goroutine is in readGroup. */
  datatype Proc =
    | Started
    | Configured
    | Numbered(transaction: uint16)
    | Encoded(adu: seq<byte>)
    | Locked(adu: seq<byte>)
    | Sent(adu: seq<byte>)
    | Received(adu: seq<byte>, response: Result<seq<byte>>)
    | Stored(outcome: Result<()>)
    | Reported
    | Done

  datatype GroupError = GroupError(groupIndex: nat, error: Error)

  datatype Config = Config(bus: Bus, groups: seq<seq<Register>>)

  datatype State = State(
    slaveId: byte,
    counter: uint32,
    holder: int,                    // the goroutine in the critical section of Send, or -1
    wire: seq<byte>,
    procs: seq<Proc>,
    results: seq<seq<Register>>,
    channel: seq<GroupError>,
    closed: bool,
    collected: seq<GroupError>,
    finished: bool
  )

  datatype Action = Run(i: nat) | Close | Collect | Return

  /** The channel's capacity, and the WaitGroup as the goroutines still to finish. */
  function Capacity(c: Config): nat {
    |c.groups|
  }

  predicate AllDone(s: State) {
    forall i :: 0 <= i < |s.procs| ==> s.procs[i].Done?
  }

  predicate Initial(c: Config, s: State) {
    && |s.procs| == |s.results| == |c.groups|
    && (forall i :: 0 <= i < |s.procs| ==> s.procs[i].Started?)
    && s.holder == -1 && s.wire == [] && s.channel == [] && s.collected == [] && !s.closed && !s.finished
  }

  /** The steps that may have to wait: the mutex and the channel. */
  predicate Enabled(c: Config, s: State, a: Action) {
    && |s.procs| == |s.results| == |c.groups|
    && match a
    case Run(i) =>
      && i < |s.procs| && !s.procs[i].Done?
      && (s.procs[i].Encoded? ==> s.holder == -1)
      && (s.procs[i].Stored? && s.procs[i].outcome.Err? ==> |s.channel| < Capacity(c))
    case Close => AllDone(s) && !s.closed
    case Collect => s.channel != []
    case Return => s.channel == [] && s.closed && !s.finished
  }

  function With(s: State, i: nat, p: Proc): State
    requires i < |s.procs|
  {
    s.(procs := s.procs[i := p])
  }

  /** The result slot and the next point of a goroutine whose group read is over. */
  function Store(s: State, i: nat, result: (seq<Register>, Result<()>)): State
    requires i < |s.procs| == |s.results|
  {
    With(s, i, Stored(result.1)).(results := s.results[i := result.0])
  }

  /** SetSlaveId, the quantity check, the atomic increment, and the rest of Encode. */
  function BuildStep(c: Config, s: State, i: nat): State
    requires i < |s.procs| == |s.results| == |c.groups|
  {
    var g := c.groups[i];
    match s.procs[i]
    case Started =>
      if g == [] then Store(s, i, Sequential(c.bus, g)) else With(s, i, Configured).(slaveId := g[0].slaverId)
    case Configured =>
      if !Answerable(g) then Store(s, i, Sequential(c.bus, g))
      else
        var next := Tcp.NextCounter(s.counter);
        With(s, i, Numbered(Wrap16(next))).(counter := next)
    case Numbered(transaction) =>
      if !Answerable(g) then s else With(s, i, Encoded(RequestFrame(g, transaction, s.slaveId)))
    case _ => s
  }

  /** Send: lock, write, read the reply and unlock. */
  function SendStep(c: Config, s: State, i: nat): State
    requires i < |s.procs| == |s.results| == |c.groups|
  {
    match s.procs[i]
    case Encoded(adu) => With(s, i, Locked(adu)).(holder := i)
    case Locked(adu) => With(s, i, Sent(adu)).(wire := s.wire + Reply(c.bus, adu))
    case Sent(adu) =>
      var (response, rest) := ReadReply(s.wire);
      With(s, i, Received(adu, response)).(wire := rest, holder := -1)
    case _ => s
  }

  /** Verify to the end of readGroup with the result slot, then the error channel, then the wait group. */
  function FinishStep(c: Config, s: State, i: nat): State
    requires i < |s.procs| == |s.results| == |c.groups|
  {
    match s.procs[i]
    case Received(adu, response) =>
      if !Answerable(c.groups[i]) then s else Store(s, i, Complete(c.groups[i], adu, response))
    case Stored(outcome) =>
      With(s, i, Reported).(channel := if outcome.Err? then s.channel + [GroupError(i, outcome.error)] else s.channel)
    case Reported => With(s, i, Done)
    case _ => s
  }

  predicate Building(p: Proc) {
    p.Started? || p.Configured? || p.Numbered?
  }

  predicate Sending(p: Proc) {
    p.Encoded? || p.Locked? || p.Sent?
  }

  /** One atomic step of goroutine i. */
  function RunStep(c: Config, s: State, i: nat): State
    requires i < |s.procs| == |s.results| == |c.groups|
  {
    if Building(s.procs[i]) then BuildStep(c, s, i)
    else if Sending(s.procs[i]) then SendStep(c, s, i)
    else FinishStep(c, s, i)
  }

  function Do(c: Config, s: State, a: Action): State
    requires Enabled(c, s, a)
  {
    match a
    case Run(i) => RunStep(c, s, i)
    case Close => s.(closed := true)
    case Collect => s.(channel := s.channel[1..], collected := s.collected + [s.channel[0]])
    case Return => s.(finished := true)
  }

  // ----- What every run keeps, when all groups select one slave -----

  /** Group g is read from the given slave, and no other group selects another slave meanwhile. */
  predicate Agree(g: seq<Register>, other: seq<Register>, slave: byte) {
    Answerable(g) && other != [] ==> other[0].slaverId == slave
  }

  /** If any group gets as far as a request, every group that selects a slave selects the same one. */
  predicate OneSlaveGroups(groups: seq<seq<Register>>, slave: byte) {
    forall i, j :: 0 <= i < |groups| && 0 <= j < |groups| ==> Agree(groups[i], groups[j], slave)
  }

  /** A request frame the group can have been encoded into. */
  ghost predicate FrameFor(g: seq<Register>, slave: byte, adu: seq<byte>) {
    Answerable(g) && exists transaction: uint16 :: adu == RequestFrame(g, transaction, slave)
  }

  /** What is known of goroutine i at each point. */
  ghost predicate ProcOk(c: Config, slave: byte, s: State, i: nat)
    requires i < |s.procs| == |s.results| == |c.groups|
  {
    var g := c.groups[i];
    var p := s.procs[i];
    && (s.holder == i <==> p.Locked? || p.Sent?)
    && (!p.Started? && Answerable(g) ==> s.slaveId == slave)
    && (p.Configured? ==> g != [])
    && (p.Numbered? ==> Answerable(g))
    && (p.Encoded? || p.Locked? || p.Sent? || p.Received? ==> FrameFor(g, slave, p.adu))
    && (p.Sent? ==> s.wire == Reply(c.bus, p.adu))
    && (p.Received? ==> p.response == ReadReply(Reply(c.bus, p.adu)).0)
    && (p.Stored? ==> p.outcome == Sequential(c.bus, g).1)
    && (p.Stored? || p.Reported? || p.Done? ==> s.results[i] == Sequential(c.bus, g).0)
  }

  /** Every error sent so far, collected or still in the channel. */
  function AllErrors(s: State): seq<GroupError> {
    s.collected + s.channel
  }

  /** The channel is first in, first out: a step adds at most the failure of its own goroutine behind the others. */
  lemma ErrorsFifo(c: Config, s: State, a: Action)
    requires Enabled(c, s, a)
    ensures AllErrors(Do(c, s, a))
            == AllErrors(s) + (if a.Run? && s.procs[a.i].Stored? && s.procs[a.i].outcome.Err?
                               then [GroupError(a.i, s.procs[a.i].outcome.error)] else [])
  {
    if a.Collect? {
      assert s.channel == [s.channel[0]] + s.channel[1..];
    } else if a.Run? {
      RunErrors(c, s, a.i);
    }
    hide RunStep;
  }

  lemma RunErrors(c: Config, s: State, i: nat)
    requires i < |s.procs| == |s.results| == |c.groups|
    ensures var p := s.procs[i];
            AllErrors(RunStep(c, s, i))
            == AllErrors(s) + (if p.Stored? && p.outcome.Err? then [GroupError(i, p.outcome.error)] else [])
  {
    hide Sequential, Reply, ReadReply, RequestFrame, Answerable, Complete, Tcp.NextCounter, BuildStep, SendStep;
    BuildKeepsErrors(c, s, i);
    SendKeepsErrors(c, s, i);
    assert AllErrors(s) + [] == AllErrors(s);
  }

  lemma BuildKeepsErrors(c: Config, s: State, i: nat)
    requires i < |s.procs| == |s.results| == |c.groups|
    ensures AllErrors(BuildStep(c, s, i)) == AllErrors(s)
  {
    hide Sequential, RequestFrame, Answerable, Tcp.NextCounter;
  }

  lemma SendKeepsErrors(c: Config, s: State, i: nat)
    requires i < |s.procs| == |s.results| == |c.groups|
    ensures AllErrors(SendStep(c, s, i)) == AllErrors(s)
  {
    hide Reply, ReadReply;
  }

  /** Group i's sequential read is an error. */
  predicate Failed(c: Config, i: nat)
    requires i < |c.groups|
  {
    Sequential(c.bus, c.groups[i]).1.Err?
  }

  predicate Mentions(e: seq<GroupError>, i: nat) {
    exists k :: 0 <= k < |e| && e[k].groupIndex == i
  }

  /** The errors are exactly those of the failed groups that have reported, one each. */
  predicate ErrorsOk(c: Config, s: State)
    requires |s.procs| == |c.groups|
  {
    var e := AllErrors(s);
    && (forall j, k :: 0 <= j < k < |e| ==> e[j].groupIndex != e[k].groupIndex)
    && (forall k :: 0 <= k < |e| ==>
          && e[k].groupIndex < |c.groups|
          && (s.procs[e[k].groupIndex].Reported? || s.procs[e[k].groupIndex].Done?)
          && Sequential(c.bus, c.groups[e[k].groupIndex]).1 == Err(e[k].error))
    && (forall i :: 0 <= i < |c.groups| && (s.procs[i].Reported? || s.procs[i].Done?) && Failed(c, i) ==>
          Mentions(e, i))
  }

  /** Who holds the mutex and what is on the wire. */
  predicate WireOk(s: State) {
    && -1 <= s.holder < |s.procs|
    && (s.holder >= 0 ==> s.procs[s.holder].Locked? || s.procs[s.holder].Sent?)
    && (s.wire != [] ==> s.holder >= 0 && s.procs[s.holder].Sent?)
  }

  ghost predicate Inv(c: Config, slave: byte, s: State) {
    && |s.procs| == |s.results| == |c.groups|
    && WireOk(s)
    && (forall i :: 0 <= i < |c.groups| ==> ProcOk(c, slave, s, i))
    && ErrorsOk(c, s)
    && (s.closed ==> AllDone(s))
    && (s.finished ==> s.closed && s.channel == [])
  }

  lemma InitialInv(c: Config, slave: byte, s: State)
    requires Initial(c, s)
    ensures Inv(c, slave, s)
  {
    hide Sequential, Reply, ReadReply, RequestFrame, Answerable, Complete, Tcp.NextCounter, FrameFor;
  }

  /** A goroutine's step keeps what is known of the others, which share only the slave id, mutex and wire. */
  lemma OthersKept(c: Config, slave: byte, s: State, i: nat, j: nat)
    requires |s.procs| == |s.results| == |c.groups| && i < |c.groups| && j < |c.groups| && j != i
    requires ProcOk(c, slave, s, i) && ProcOk(c, slave, s, j) && Agree(c.groups[j], c.groups[i], slave)
    requires Enabled(c, s, Run(i))
    ensures ProcOk(c, slave, RunStep(c, s, i), j)
  {
    if Building(s.procs[i]) {
      OthersKeptBuilding(c, slave, s, i, j);
    } else if Sending(s.procs[i]) {
      OthersKeptSending(c, slave, s, i, j);
    } else {
      OthersKeptFinishing(c, slave, s, i, j);
    }
    hide ProcOk, BuildStep, SendStep, FinishStep;
  }

  lemma OthersKeptBuilding(c: Config, slave: byte, s: State, i: nat, j: nat)
    requires |s.procs| == |s.results| == |c.groups| && i < |c.groups| && j < |c.groups| && j != i
    requires ProcOk(c, slave, s, j) && Agree(c.groups[j], c.groups[i], slave)
    ensures ProcOk(c, slave, BuildStep(c, s, i), j)
  {
    hide Sequential, Reply, ReadReply, RequestFrame, Answerable, Complete, Tcp.NextCounter, FrameFor;
  }

  lemma OthersKeptSending(c: Config, slave: byte, s: State, i: nat, j: nat)
    requires |s.procs| == |s.results| == |c.groups| && i < |c.groups| && j < |c.groups| && j != i
    requires ProcOk(c, slave, s, i) && ProcOk(c, slave, s, j)
    requires s.procs[i].Encoded? ==> s.holder == -1
    ensures ProcOk(c, slave, SendStep(c, s, i), j)
  {
    hide Sequential, Reply, ReadReply, RequestFrame, Answerable, Complete, Tcp.NextCounter, FrameFor;
  }

  lemma OthersKeptFinishing(c: Config, slave: byte, s: State, i: nat, j: nat)
    requires |s.procs| == |s.results| == |c.groups| && i < |c.groups| && j < |c.groups| && j != i
    requires ProcOk(c, slave, s, j)
    ensures ProcOk(c, slave, FinishStep(c, s, i), j)
  {
    hide Sequential, Reply, ReadReply, RequestFrame, Answerable, Complete, Tcp.NextCounter, FrameFor;
  }

  /** The reply to a goroutine's own frame completes to the sequential result and empties the wire. */
  lemma ReplyMeansSequential(bus: Bus, g: seq<Register>, slave: byte, adu: seq<byte>)
    requires Agree(g, g, slave) && FrameFor(g, slave, adu)
    ensures ReadReply(Reply(bus, adu)).1 == []
    ensures Complete(g, adu, ReadReply(Reply(bus, adu)).0) == Sequential(bus, g)
  {
    var transaction: uint16 :| adu == RequestFrame(g, transaction, slave);
    CallIsSequential(bus, g, transaction);
    hide RequestFrame, Complete, ReadReply, Reply, Sequential;
  }

  lemma FrameMade(g: seq<Register>, slave: byte, transaction: uint16)
    requires Answerable(g)
    ensures FrameFor(g, slave, RequestFrame(g, transaction, slave))
  {
    hide RequestFrame;
  }

  lemma OwnKeptBuilding(c: Config, slave: byte, s: State, i: nat)
    requires |s.procs| == |s.results| == |c.groups| && i < |c.groups|
    requires ProcOk(c, slave, s, i) && Agree(c.groups[i], c.groups[i], slave) && Building(s.procs[i])
    ensures ProcOk(c, slave, BuildStep(c, s, i), i)
  {
    assert Answerable(c.groups[i]) ==> c.groups[i] != [];
    hide Sequential, Reply, ReadReply, RequestFrame, Answerable, Complete, Tcp.NextCounter, FrameFor;
    if s.procs[i].Numbered? {
      FrameMade(c.groups[i], slave, s.procs[i].transaction);
    }
  }

  lemma OwnKeptSending(c: Config, slave: byte, s: State, i: nat)
    requires |s.procs| == |s.results| == |c.groups| && i < |c.groups|
    requires ProcOk(c, slave, s, i) && Sending(s.procs[i]) && (s.procs[i].Locked? ==> s.wire == [])
    ensures ProcOk(c, slave, SendStep(c, s, i), i)
  {
    hide Sequential, Reply, ReadReply, RequestFrame, Answerable, Complete, Tcp.NextCounter, FrameFor;
    assert s.procs[i].Locked? ==> s.wire + Reply(c.bus, s.procs[i].adu) == Reply(c.bus, s.procs[i].adu);
  }

  lemma OwnKeptStoring(c: Config, slave: byte, s: State, i: nat)
    requires |s.procs| == |s.results| == |c.groups| && i < |c.groups|
    requires ProcOk(c, slave, s, i) && Agree(c.groups[i], c.groups[i], slave) && s.procs[i].Received?
    ensures ProcOk(c, slave, FinishStep(c, s, i), i)
  {
    ReplyMeansSequential(c.bus, c.groups[i], slave, s.procs[i].adu);
    assert Answerable(c.groups[i]);
    hide Sequential, Reply, ReadReply, RequestFrame, Answerable, Complete, Tcp.NextCounter, FrameFor, Agree;
  }

  lemma OwnKeptReporting(c: Config, slave: byte, s: State, i: nat)
    requires |s.procs| == |s.results| == |c.groups| && i < |c.groups|
    requires ProcOk(c, slave, s, i) && (s.procs[i].Stored? || s.procs[i].Reported? || s.procs[i].Done?)
    ensures ProcOk(c, slave, FinishStep(c, s, i), i)
  {
    hide Sequential, Reply, ReadReply, RequestFrame, Answerable, Complete, Tcp.NextCounter, FrameFor;
  }

  // ----- Errors -----

  function Below(n: nat): set<nat> {
    if n == 0 then {} else Below(n - 1) + {n - 1}
  }

  /** Distinct indices below n, one of them missing, are fewer than n. */
  lemma {:induction false} MissingIndex(e: seq<GroupError>, n: nat, i: nat)
    requires i < n && !Mentions(e, i)
    requires forall j, k :: 0 <= j < k < |e| ==> e[j].groupIndex != e[k].groupIndex
    requires forall k :: 0 <= k < |e| ==> e[k].groupIndex < n
    ensures |e| < n
  {
    var all := Below(n);
    var used := set k | 0 <= k < |e| :: e[k].groupIndex;
    IndexCount(e);
    BelowSize(n);
    assert used <= all - {i};
    SubsetSize(used, all - {i});
  }

  lemma {:induction false} BelowSize(n: nat)
    ensures |Below(n)| == n
    ensures forall x: nat :: x in Below(n) <==> x < n
  {
    if n > 0 {
      BelowSize(n - 1);
    }
  }

  lemma {:induction false} IndexCount(e: seq<GroupError>)
    requires forall j, k :: 0 <= j < k < |e| ==> e[j].groupIndex != e[k].groupIndex
    ensures |set k | 0 <= k < |e| :: e[k].groupIndex| == |e|
    decreases |e|
  {
    if e != [] {
      var init, last := e[..|e| - 1], e[|e| - 1];
      IndexCount(init);
      var used := set k | 0 <= k < |init| :: init[k].groupIndex;
      assert last.groupIndex !in used;
      assert (set k | 0 <= k < |e| :: e[k].groupIndex) == used + {last.groupIndex} by {
        forall x | x in used + {last.groupIndex}
          ensures x in set k | 0 <= k < |e| :: e[k].groupIndex
        {
          if x == last.groupIndex {
            assert e[|e| - 1].groupIndex == x;
          } else {
            var k :| 0 <= k < |init| && init[k].groupIndex == x;
            assert e[k].groupIndex == x;
          }
        }
      }
    }
  }

  lemma {:induction false} SubsetSize(a: set<nat>, b: set<nat>)
    requires a <= b
    ensures |a| <= |b|
  {
    if a != {} {
      var x :| x in a;
      SubsetSize(a - {x}, b - {x});
    }
  }

  /** A goroutine that has a failure to report always finds room in the channel, which is still open. */
  lemma SendNeverBlocks(c: Config, slave: byte, s: State, i: nat)
    requires Inv(c, slave, s) && i < |s.procs| && s.procs[i].Stored?
    ensures |s.channel| < Capacity(c) && !s.closed
  {
    assert ProcOk(c, slave, s, i);
    hide Sequential, FrameFor;
    assert !Mentions(AllErrors(s), i);
    MissingIndex(AllErrors(s), |c.groups|, i);
  }

  predicate Past(p: Proc) {
    p.Reported? || p.Done?
  }

  lemma ErrorsSame(c: Config, s: State, s': State)
    requires |s.procs| == |s'.procs| == |c.groups| && ErrorsOk(c, s) && AllErrors(s') == AllErrors(s)
    requires forall j :: 0 <= j < |s.procs| ==> Past(s'.procs[j]) == Past(s.procs[j])
    ensures ErrorsOk(c, s')
  {
    hide Sequential, Mentions, AllErrors;
    assert forall j :: 0 <= j < |s.procs| ==> Past(s'.procs[j]) == (s'.procs[j].Reported? || s'.procs[j].Done?);
  }

  lemma ErrorsAdd(c: Config, s: State, s': State, i: nat)
    requires |s.procs| == |s'.procs| == |c.groups| && ErrorsOk(c, s) && i < |s.procs| && !Past(s.procs[i])
    requires s'.procs == s.procs[i := Reported]
    requires var outcome := Sequential(c.bus, c.groups[i]).1;
             AllErrors(s') == if outcome.Err? then AllErrors(s) + [GroupError(i, outcome.error)] else AllErrors(s)
    ensures ErrorsOk(c, s')
  {
    hide Sequential, AllErrors;
    var e, e' := AllErrors(s), AllErrors(s');
    if Failed(c, i) {
      assert e'[|e|].groupIndex == i;
    }
    forall j | 0 <= j < |c.groups| && Past(s'.procs[j]) && Failed(c, j)
      ensures Mentions(e', j)
    {
      if j != i {
        var k :| 0 <= k < |e| && e[k].groupIndex == j;
        assert e'[k].groupIndex == j;
      }
    }
  }

  lemma ErrorsKept(c: Config, slave: byte, s: State, i: nat)
    requires Inv(c, slave, s) && Enabled(c, s, Run(i))
    ensures ErrorsOk(c, RunStep(c, s, i))
  {
    assert ProcOk(c, slave, s, i);
    hide Sequential, ErrorsOk, FrameFor, RunStep, OneSlaveGroups, WireOk, AllDone, AllErrors;
    if s.procs[i].Stored? {
      StoredStep(c, s, i);
      ErrorsAdd(c, s, RunStep(c, s, i), i);
    } else {
      ErrorsUntouched(c, s, i);
      ErrorsSame(c, s, RunStep(c, s, i));
    }
  }

  lemma ErrorsUntouched(c: Config, s: State, i: nat)
    requires |s.procs| == |s.results| == |c.groups| && i < |s.procs| && !s.procs[i].Stored?
    ensures var s' := RunStep(c, s, i);
            && |s'.procs| == |s.procs| && AllErrors(s') == AllErrors(s)
            && forall j :: 0 <= j < |s.procs| ==> Past(s'.procs[j]) == Past(s.procs[j])
  {
    hide Sequential, Reply, ReadReply, RequestFrame, Answerable, Complete, Tcp.NextCounter, BuildStep, SendStep,
      FinishStep;
    if Building(s.procs[i]) {
      BuildTouchesNoErrors(c, s, i);
    } else if Sending(s.procs[i]) {
      SendTouchesNoErrors(c, s, i);
    } else {
      FinishTouchesNoErrors(c, s, i);
    }
  }

  /** Nothing of the error channel changes, and goroutine i stays on its side of having reported. */
  predicate NoErrorsTouched(s: State, s': State, i: nat)
    requires i < |s.procs|
  {
    && s'.channel == s.channel && s'.collected == s.collected
    && |s'.procs| == |s.procs| && s'.procs == s.procs[i := s'.procs[i]] && Past(s'.procs[i]) == Past(s.procs[i])
  }

  lemma BuildTouchesNoErrors(c: Config, s: State, i: nat)
    requires |s.procs| == |s.results| == |c.groups| && i < |s.procs| && Building(s.procs[i])
    ensures NoErrorsTouched(s, BuildStep(c, s, i), i)
  {
    hide Sequential, RequestFrame, Answerable, Tcp.NextCounter;
  }

  lemma SendTouchesNoErrors(c: Config, s: State, i: nat)
    requires |s.procs| == |s.results| == |c.groups| && i < |s.procs| && Sending(s.procs[i])
    ensures NoErrorsTouched(s, SendStep(c, s, i), i)
  {
    hide Reply, ReadReply;
  }

  lemma FinishTouchesNoErrors(c: Config, s: State, i: nat)
    requires |s.procs| == |s.results| == |c.groups| && i < |s.procs|
    requires s.procs[i].Received? || s.procs[i].Reported? || s.procs[i].Done?
    ensures NoErrorsTouched(s, FinishStep(c, s, i), i)
  {
    hide Answerable, Complete;
  }

  lemma StoredStep(c: Config, s: State, i: nat)
    requires |s.procs| == |s.results| == |c.groups| && i < |s.procs| && s.procs[i].Stored?
    ensures RunStep(c, s, i).procs == s.procs[i := Reported]
    ensures var outcome := s.procs[i].outcome;
            AllErrors(RunStep(c, s, i))
            == if outcome.Err? then AllErrors(s) + [GroupError(i, outcome.error)] else AllErrors(s)
  {
    hide Sequential, Reply, ReadReply, RequestFrame, Answerable, Complete, Tcp.NextCounter, FrameFor;
  }

  /** Every step of every goroutine, of the closer and of the collector keeps the invariant. */
  lemma StepKeepsInv(c: Config, slave: byte, s: State, a: Action)
    requires Inv(c, slave, s) && OneSlaveGroups(c.groups, slave) && Enabled(c, s, a)
    ensures Inv(c, slave, Do(c, s, a))
  {
    match a
    case Run(i) =>
      RunKeepsInv(c, slave, s, i);
    case _ =>
      OtherKeepsInv(c, slave, s, a);
  }

  lemma RunKeepsInv(c: Config, slave: byte, s: State, i: nat)
    requires Inv(c, slave, s) && OneSlaveGroups(c.groups, slave) && Enabled(c, s, Run(i))
    ensures Inv(c, slave, RunStep(c, s, i))
  {
    assert ProcOk(c, slave, s, i) && Agree(c.groups[i], c.groups[i], slave);
    assert s.procs[i].Locked? ==> s.wire == [];
    RunKeepsProcs(c, slave, s, i);
    ErrorsKept(c, slave, s, i);
    if s.procs[i].Sent? {
      ReplyMeansSequential(c.bus, c.groups[i], slave, s.procs[i].adu);
    }
    WireKept(c, s, i);
    OpenKept(c, s, i);
    hide RunStep, ProcOk, ErrorsOk, Enabled, AllDone, Agree, WireOk;
  }

  lemma RunKeepsProcs(c: Config, slave: byte, s: State, i: nat)
    requires Enabled(c, s, Run(i)) && OneSlaveGroups(c.groups, slave) && (s.procs[i].Locked? ==> s.wire == [])
    requires forall j :: 0 <= j < |c.groups| ==> ProcOk(c, slave, s, j)
    ensures |RunStep(c, s, i).procs| == |RunStep(c, s, i).results| == |c.groups|
    ensures forall j :: 0 <= j < |c.groups| ==> ProcOk(c, slave, RunStep(c, s, i), j)
  {
    assert ProcOk(c, slave, s, i) && Agree(c.groups[i], c.groups[i], slave);
    hide ProcOk, Enabled, BuildStep, SendStep, FinishStep, Agree;
    StepSizes(c, s, i);
    forall j | 0 <= j < |c.groups|
      ensures ProcOk(c, slave, RunStep(c, s, i), j)
    {
      if j != i {
        OthersKept(c, slave, s, i, j);
      } else if Building(s.procs[i]) {
        OwnKeptBuilding(c, slave, s, i);
      } else if Sending(s.procs[i]) {
        OwnKeptSending(c, slave, s, i);
      } else if s.procs[i].Received? {
        OwnKeptStoring(c, slave, s, i);
      } else {
        OwnKeptReporting(c, slave, s, i);
      }
    }
  }

  lemma StepSizes(c: Config, s: State, i: nat)
    requires i < |s.procs| == |s.results| == |c.groups|
    ensures |RunStep(c, s, i).procs| == |RunStep(c, s, i).results| == |c.groups|
  {
    hide Sequential, Reply, ReadReply, RequestFrame, Answerable, Complete, Tcp.NextCounter, FrameFor;
  }

  lemma WireKept(c: Config, s: State, i: nat)
    requires WireOk(s) && Enabled(c, s, Run(i))
    requires s.procs[i].Sent? ==> ReadReply(s.wire).1 == []
    requires s.holder == i <==> s.procs[i].Locked? || s.procs[i].Sent?
    ensures WireOk(RunStep(c, s, i))
  {
    hide Sequential, Reply, ReadReply, RequestFrame, Answerable, Complete, Tcp.NextCounter;
  }

  /** A goroutine with a step left to take means that the channel is still open. */
  lemma OpenKept(c: Config, s: State, i: nat)
    requires Enabled(c, s, Run(i)) && (s.closed ==> AllDone(s)) && (s.finished ==> s.closed && s.channel == [])
    ensures !RunStep(c, s, i).closed && !RunStep(c, s, i).finished
  {
    assert !AllDone(s);
    hide Sequential, Reply, ReadReply, RequestFrame, Answerable, Complete, Tcp.NextCounter, AllDone;
  }

  lemma OtherKeepsInv(c: Config, slave: byte, s: State, a: Action)
    requires Inv(c, slave, s) && Enabled(c, s, a) && !a.Run?
    ensures Inv(c, slave, Do(c, s, a))
  {
    hide Sequential, Reply, ReadReply, RequestFrame, Answerable, Complete, Tcp.NextCounter, ErrorsOk, FrameFor;
    var s' := Do(c, s, a);
    assert a.Collect? ==> [s.channel[0]] + s.channel[1..] == s.channel;
    assert AllErrors(s') == AllErrors(s);
    ErrorsSame(c, s, s');
    assert forall i :: 0 <= i < |c.groups| ==> ProcOk(c, slave, s, i) ==> ProcOk(c, slave, s', i);
  }

  // ----- Runs -----

  /** end is reached from s by a schedule every step of which is possible. */
  ghost predicate Execution(c: Config, s: State, schedule: seq<Action>, end: State)
    decreases |schedule|
  {
    if schedule == [] then end == s
    else Enabled(c, s, schedule[0]) && Execution(c, Do(c, s, schedule[0]), schedule[1..], end)
  }

  lemma {:induction false} ExecutionKeepsInv(c: Config, slave: byte, s: State, schedule: seq<Action>, end: State)
    requires Inv(c, slave, s) && OneSlaveGroups(c.groups, slave) && Execution(c, s, schedule, end)
    ensures Inv(c, slave, end)
    decreases |schedule|
  {
    hide Inv, Do, Enabled;
    if schedule != [] {
      StepKeepsInv(c, slave, s, schedule[0]);
      ExecutionKeepsInv(c, slave, Do(c, s, schedule[0]), schedule[1..], end);
    }
  }
}
