/** Transaction ids of concurrent reads: the atomic counter gives every goroutine one of its own. */
module ConcurrentIds {
  import opened Bytes
  import opened Grouping
  import opened GroupCalls
  import opened Concurrent
  import opened Requests
  import opened GroupReads
  import opened Transports
  import Tcp

  /** From the atomic increment until the end of Verify a goroutine goes by a transaction id. */
  predicate HasId(p: Proc) {
    p.Numbered? || ((p.Encoded? || p.Locked? || p.Sent? || p.Received?) && |p.adu| >= 2)
  }

  /** The id it goes by: the one it took, then the first two bytes of its request. */
  function IdOf(p: Proc): uint16
    requires HasId(p)
  {
    if p.Numbered? then p.transaction else Get16(p.adu, 0)
  }

  /** How many goroutines have not taken an id yet. */
  function Unnumbered(procs: seq<Proc>): nat {
    if procs == [] then 0
    else
      var last := procs[|procs| - 1];
      Unnumbered(procs[..|procs| - 1]) + (if last.Started? || last.Configured? then 1 else 0)
  }

  /** One of the first n ids after a counter value. */
  ghost predicate Issued(start: uint32, n: nat, id: uint16) {
    exists k :: 1 <= k <= n && id == Wrap16(Tcp.CounterAfter(start, k))
  }

  /** The first n ids have been taken, by different goroutines. */
  ghost predicate IdsInv(start: uint32, n: nat, s: State) {
    && s.counter == Tcp.CounterAfter(start, n)
    && n + Unnumbered(s.procs) <= |s.procs|
    && (forall i :: 0 <= i < |s.procs| && HasId(s.procs[i]) ==> Issued(start, n, IdOf(s.procs[i])))
    && DistinctIds(s.procs)
  }

  predicate DistinctIds(procs: seq<Proc>) {
    forall i, j :: 0 <= i < j < |procs| && HasId(procs[i]) && HasId(procs[j]) ==> IdOf(procs[i]) != IdOf(procs[j])
  }

  lemma {:induction false} UnnumberedStep(procs: seq<Proc>, i: nat, p: Proc)
    requires i < |procs| && !p.Started?
    ensures Unnumbered(procs[i := p]) <= Unnumbered(procs)
            + (if p.Configured? && !procs[i].Started? && !procs[i].Configured? then 1 else 0)
    ensures (procs[i].Started? || procs[i].Configured?) && !p.Configured? ==>
              Unnumbered(procs[i := p]) == Unnumbered(procs) - 1
    decreases |procs|
  {
    var n := |procs| - 1;
    if i < n {
      assert procs[i := p][..n] == procs[..n][i := p];
      UnnumberedStep(procs[..n], i, p);
    } else {
      assert procs[i := p][..n] == procs[..n];
    }
  }

  lemma {:induction false} UnnumberedAtMost(procs: seq<Proc>)
    ensures Unnumbered(procs) <= |procs|
    decreases |procs|
  {
    if procs != [] {
      UnnumberedAtMost(procs[..|procs| - 1]);
    }
  }

  lemma IssuedMore(start: uint32, n: nat, id: uint16)
    requires Issued(start, n, id)
    ensures Issued(start, n + 1, id)
  {
  }

  /** The next id is new as long as at most 65536 are taken. */
  lemma NextIsNew(start: uint32, n: nat, id: uint16)
    requires Issued(start, n, id) && n < 0x1_0000
    ensures id != Wrap16(Tcp.CounterAfter(start, n + 1))
  {
    var k :| 1 <= k <= n && id == Wrap16(Tcp.CounterAfter(start, k));
    Tcp.IdsCollideIff(start, k, n + 1);
    Tcp.Distance(k, n + 1);
    hide Tcp.CounterAfter, Wrap16;
  }

  /** A step that takes no id: the goroutine keeps the one it has, or has none any more. */
  lemma KeptIds(start: uint32, n: nat, s: State, s': State, i: nat, p: Proc)
    requires IdsInv(start, n, s) && i < |s.procs| && s'.procs == s.procs[i := p] && s'.counter == s.counter
    requires !p.Started? && (p.Configured? ==> s.procs[i].Started? || s.procs[i].Configured?)
    requires HasId(p) ==> HasId(s.procs[i]) && IdOf(p) == IdOf(s.procs[i])
    ensures IdsInv(start, n, s')
  {
    UnnumberedStep(s.procs, i, p);
    hide Issued, Unnumbered, HasId, IdOf;
  }

  /** The atomic increment. */
  lemma TakenId(start: uint32, n: nat, s: State, s': State, i: nat)
    requires IdsInv(start, n, s) && i < |s.procs| <= 0x1_0000 && s.procs[i].Configured?
    requires s'.counter == Tcp.NextCounter(s.counter) && s'.procs == s.procs[i := Numbered(Wrap16(s'.counter))]
    ensures IdsInv(start, n + 1, s')
  {
    UnnumberedStep(s.procs, i, Numbered(Wrap16(s'.counter)));
    assert s'.counter == Tcp.CounterAfter(start, n + 1);
    forall j | 0 <= j < |s.procs| && j != i && HasId(s.procs[j])
      ensures Issued(start, n + 1, IdOf(s.procs[j])) && IdOf(s.procs[j]) != Wrap16(s'.counter)
    {
      IssuedMore(start, n, IdOf(s.procs[j]));
      NextIsNew(start, n, IdOf(s.procs[j]));
    }
    assert Issued(start, n + 1, Wrap16(s'.counter));
    hide Issued, Unnumbered, Tcp.CounterAfter, Tcp.NextCounter;
  }

  /** The request carries the id that was taken for it. */
  lemma FrameCarriesId(g: seq<Register>, transaction: uint16, slave: byte)
    requires Answerable(g)
    ensures |RequestFrame(g, transaction, slave)| >= 2 && Get16(RequestFrame(g, transaction, slave), 0) == transaction
  {
    Tcp.FrameHeader(transaction, slave, RequestPdu(GroupRequest(g)));
    hide Tcp.Frame, RequestPdu, GroupRequest;
  }

  /** What any other step does to the goroutine's id. */
  predicate KeepsId(s: State, s': State, i: nat) {
    && i < |s.procs| && i < |s'.procs|
    && s'.counter == s.counter && s'.procs == s.procs[i := s'.procs[i]]
    && !s'.procs[i].Started?
    && (s'.procs[i].Configured? ==> s.procs[i].Started? || s.procs[i].Configured?)
    && (HasId(s'.procs[i]) ==> HasId(s.procs[i]) && IdOf(s'.procs[i]) == IdOf(s.procs[i]))
  }

  lemma BuildingKeepsId(c: Config, s: State, i: nat)
    requires i < |s.procs| == |s.results| == |c.groups| && Building(s.procs[i])
    requires !(s.procs[i].Configured? && Answerable(c.groups[i]))
    ensures KeepsId(s, BuildStep(c, s, i), i)
  {
    var p, g := s.procs[i], c.groups[i];
    if p.Numbered? {
      if Answerable(g) {
        FrameCarriesId(g, p.transaction, s.slaveId);
      }
      Unchanged(s, i);
    }
    hide Sequential, RequestFrame, Complete, Tcp.NextCounter, Answerable;
  }

  lemma SendingKeepsId(c: Config, s: State, i: nat)
    requires i < |s.procs| == |s.results| == |c.groups| && Sending(s.procs[i])
    ensures KeepsId(s, SendStep(c, s, i), i)
  {
    hide Reply, ReadReply;
  }

  lemma FinishingKeepsId(c: Config, s: State, i: nat)
    requires i < |s.procs| == |s.results| == |c.groups| && !Building(s.procs[i]) && !Sending(s.procs[i])
    ensures KeepsId(s, FinishStep(c, s, i), i)
  {
    Unchanged(s, i);
    hide Complete, Answerable;
  }

  lemma RunKeepsIds(c: Config, start: uint32, n: nat, s: State, i: nat) returns (m: nat)
    requires IdsInv(start, n, s) && i < |s.procs| == |s.results| == |c.groups| <= 0x1_0000
    ensures IdsInv(start, m, RunStep(c, s, i))
  {
    m := n;
    if s.procs[i].Configured? && Answerable(c.groups[i]) {
      hide Answerable, IdsInv, Tcp.NextCounter, Sequential;
      m := n + 1;
      TakenId(start, n, s, RunStep(c, s, i), i);
    } else {
      if Building(s.procs[i]) {
        BuildingKeepsId(c, s, i);
      } else if Sending(s.procs[i]) {
        SendingKeepsId(c, s, i);
      } else {
        FinishingKeepsId(c, s, i);
      }
      hide IdsInv, BuildStep, SendStep, FinishStep, HasId, IdOf, Answerable;
      KeptIds(start, n, s, RunStep(c, s, i), i, RunStep(c, s, i).procs[i]);
    }
  }

  lemma Unchanged(s: State, i: nat)
    requires i < |s.procs|
    ensures s.procs[i := s.procs[i]] == s.procs
  {
  }

  lemma StepKeepsIds(c: Config, start: uint32, n: nat, s: State, a: Action) returns (m: nat)
    requires IdsInv(start, n, s) && Enabled(c, s, a) && |c.groups| <= 0x1_0000
    ensures IdsInv(start, m, Do(c, s, a))
  {
    m := n;
    if a.Run? {
      hide IdsInv, RunStep;
      m := RunKeepsIds(c, start, n, s, a.i);
    }
  }

  lemma {:induction false} RunsKeepIds(c: Config, start: uint32, n: nat, s: State, schedule: seq<Action>, end: State)
      returns (m: nat)
    requires IdsInv(start, n, s) && Execution(c, s, schedule, end) && |c.groups| <= 0x1_0000
    ensures IdsInv(start, m, end)
    decreases |schedule|
  {
    hide IdsInv, Enabled, Do;
    m := n;
    if schedule != [] {
      m := StepKeepsIds(c, start, n, s, schedule[0]);
      m := RunsKeepIds(c, start, m, Do(c, s, schedule[0]), schedule[1..], end);
    }
  }

  /**
   For at most 65536 groups, any slaves, any start of the counter and any interleaving: no two goroutines between Encode
   and Verify go by the same transaction id.
   */
  lemma TransactionsDistinct(c: Config, s: State, schedule: seq<Action>, end: State)
    requires Initial(c, s) && Execution(c, s, schedule, end) && |c.groups| <= 0x1_0000
    ensures DistinctIds(end.procs)
  {
    assert Tcp.CounterAfter(s.counter, 0) == s.counter;
    UnnumberedAtMost(s.procs);
    hide Unnumbered, Execution, Issued;
    var m := RunsKeepIds(c, s.counter, 0, s, schedule, end);
  }
}
