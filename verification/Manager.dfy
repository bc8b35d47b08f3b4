/**
 RegisterManager as a step system: callers that hold the mutex for a whole method, the consumer goroutine of one
 Start, the bounded queue and the exit signal. Sends and closes on closed channels are steps that panic.
 */
module Manager {
  import opened Bytes
  import opened Grouping

  type Group = seq<Register>

  /** The fields of the struct; the channels are their contents, capacity and closed flags. */
  datatype Fields = Fields(
    groupedRegisters: seq<Group>,
    closed: bool,
    exitClosed: bool,
    dataQueue: seq<Group>,
    queueSize: nat,
    queueClosed: bool
  )

  /** Which method body the holder of the mutex is in, and what it has left to do. */
  datatype Section = Unlocked | Reading(rest: seq<Group>) | Closing | ClosingQueue | Delivering

  /** The consumer goroutine: in its select, with a group in hand, in the callback, or returned. */
  datatype Consumer = NotStarted | Waiting | InHand(group: Group) | InCallback(group: Group) | Exited

  datatype State = State(
    m: Fields,
    section: Section,
    consumer: Consumer,
    enqueued: seq<Group>,           // every group ever put on the queue
    delivered: seq<Group>,          // every group ever passed to the callback
    panicked: bool
  )

  datatype Action =
    | Start
    | Load(registers: seq<Register>, lists: seq<seq<Register>>)
    | BeginRead(result: seq<Group>)
    | Enqueue | HandOver | Abandon | EndRead
    | BeginStop | CloseExit | CloseQueue
    | Take | SeeExit | SeeClosed | Lock | Deliver

  predicate Initial(s: State) {
    && s.m.groupedRegisters == [] && s.m.dataQueue == []
    && !s.m.closed && !s.m.exitClosed && !s.m.queueClosed && !s.panicked
    && s.section == Unlocked && s.consumer == NotStarted && s.enqueued == [] && s.delivered == []
  }

  predicate DuplicateTags(registers: seq<Register>) {
    exists i, j :: 0 <= i < j < |registers| && registers[i].tag == registers[j].tag
  }

  predicate IsReading(s: State) {
    s.section.Reading? && s.section.rest != []
  }

  /** Steps that wait: for the mutex, for the queue, for the exit signal. A send on a closed channel does not. */
  predicate Enabled(s: State, a: Action) {
    match a
    case Start => s.consumer.NotStarted?
    case Load(registers, lists) => s.section.Unlocked? && SortedLists(registers, lists)
    case BeginRead(result) => s.section.Unlocked? && |result| == |s.m.groupedRegisters|
    case Enqueue => IsReading(s) && (|s.m.dataQueue| < s.m.queueSize || s.m.queueClosed)
    case HandOver => IsReading(s) && s.consumer.Waiting? && s.m.dataQueue == [] && !s.m.queueClosed
    case Abandon => IsReading(s) && s.m.exitClosed
    case EndRead => s.section == Reading([])
    case BeginStop => s.section.Unlocked?
    case CloseExit => s.section.Closing?
    case CloseQueue => s.section.ClosingQueue?
    case Take => s.consumer.Waiting? && s.m.dataQueue != []
    case SeeExit => s.consumer.Waiting? && s.m.exitClosed
    case SeeClosed => s.consumer.Waiting? && s.m.queueClosed && s.m.dataQueue == []
    case Lock => s.consumer.InHand? && s.section.Unlocked?
    case Deliver => s.consumer.InCallback?
  }

  /** What LoadRegisters leaves in the fields. */
  function Loaded(m: Fields, registers: seq<Register>, lists: seq<seq<Register>>): Fields {
    if DuplicateTags(registers) then m else m.(groupedRegisters := SplitAll(lists))
  }

  /** Loading replaces the groups by the new registers, each once, and touches nothing else; a duplicate tag refuses. */
  lemma LoadReplaces(m: Fields, registers: seq<Register>, lists: seq<seq<Register>>)
    requires SortedLists(registers, lists)
    ensures DuplicateTags(registers) ==> Loaded(m, registers, lists) == m
    ensures !DuplicateTags(registers) ==>
              && multiset(Flatten(Loaded(m, registers, lists).groupedRegisters)) == multiset(registers)
              && Loaded(m, registers, lists).(groupedRegisters := m.groupedRegisters) == m
  {
    GroupsPartition(registers, lists);
    hide SortedLists, SplitAll, DuplicateTags, Flatten;
  }

  /** The steps of the callers. */
  function CallerStep(s: State, a: Action): State
    requires Enabled(s, a)
  {
    match a
    case Load(registers, lists) => s.(m := Loaded(s.m, registers, lists))
    case BeginRead(result) => if s.m.closed then s else s.(section := Reading(result))
    case Enqueue =>
      var g := s.section.rest[0];
      if s.m.queueClosed then s.(panicked := true)
      else
        s.(m := s.m.(dataQueue := s.m.dataQueue + [g]), section := Reading(s.section.rest[1..]),
           enqueued := s.enqueued + [g])
    case HandOver =>
      var g := s.section.rest[0];
      s.(consumer := InHand(g), section := Reading(s.section.rest[1..]), enqueued := s.enqueued + [g])
    case Abandon => s.(section := Unlocked)
    case EndRead => s.(section := Unlocked)
    case BeginStop => if s.m.closed then s else s.(m := s.m.(closed := true), section := Closing)
    case CloseExit =>
      s.(m := s.m.(exitClosed := true), section := ClosingQueue, panicked := s.panicked || s.m.exitClosed)
    case CloseQueue =>
      s.(m := s.m.(queueClosed := true), section := Unlocked, panicked := s.panicked || s.m.queueClosed)
    case _ => s
  }

  /** The steps of the consumer goroutine. */
  function ConsumerStep(s: State, a: Action): State
    requires Enabled(s, a)
  {
    match a
    case Start => s.(consumer := Waiting)
    case Take => s.(m := s.m.(dataQueue := s.m.dataQueue[1..]), consumer := InHand(s.m.dataQueue[0]))
    case SeeExit => s.(consumer := Exited)
    case SeeClosed => s.(consumer := Exited)
    case Lock => s.(section := Delivering, consumer := InCallback(s.consumer.group))
    case Deliver => s.(section := Unlocked, consumer := Waiting, delivered := s.delivered + [s.consumer.group])
    case _ => s
  }

  predicate OfConsumer(a: Action) {
    a.Start? || a.Take? || a.SeeExit? || a.SeeClosed? || a.Lock? || a.Deliver?
  }

  function Do(s: State, a: Action): State
    requires Enabled(s, a)
  {
    if OfConsumer(a) then ConsumerStep(s, a) else CallerStep(s, a)
  }

  /** While someone holds the mutex, only the holder's own next steps and steps that need no mutex are possible. */
  lemma OnlyTheHolderMoves(s: State, a: Action)
    requires Enabled(s, a)
    ensures a.Load? || a.BeginRead? || a.BeginStop? || a.Lock? ==> s.section.Unlocked?
    ensures a.Enqueue? || a.HandOver? || a.Abandon? ==> s.section.Reading? && s.section.rest != []
    ensures a.EndRead? ==> s.section == Reading([])
    ensures a.CloseExit? ==> s.section.Closing?
    ensures a.CloseQueue? ==> s.section.ClosingQueue?
    ensures !a.Deliver? && !s.section.Unlocked? && OfConsumer(a) ==> Do(s, a).section == s.section
  {
    hide SortedLists, SplitAll, DuplicateTags;
  }

  ghost predicate Execution(s: State, schedule: seq<Action>, end: State)
    decreases |schedule|
  {
    if schedule == [] then end == s
    else Enabled(s, schedule[0]) && Execution(Do(s, schedule[0]), schedule[1..], end)
  }

  // ----- Safety -----

  function HandOf(c: Consumer): seq<Group> {
    if c.InHand? || c.InCallback? then [c.group] else []
  }

  /** The two channels are closed together with the flag, except inside Stop. */
  predicate FlagsOk(s: State) {
    && s.m.closed == (s.m.exitClosed || s.section.Closing?)
    && s.m.exitClosed == (s.m.queueClosed || s.section.ClosingQueue?)
    && (s.section.Closing? ==> !s.m.exitClosed)
    && (s.section.ClosingQueue? ==> !s.m.queueClosed)
    && (s.section.Reading? ==> !s.m.closed)
  }

  predicate Inv(s: State) {
    && !s.panicked
    && FlagsOk(s)
    && (s.section.Delivering? <==> s.consumer.InCallback?)
    && (s.consumer.Exited? ==> s.m.exitClosed)
    && |s.m.dataQueue| <= s.m.queueSize
    && s.enqueued == s.delivered + HandOf(s.consumer) + s.m.dataQueue
  }

  lemma CallerKeepsInv(s: State, a: Action)
    requires Inv(s) && Enabled(s, a) && !OfConsumer(a)
    ensures Inv(CallerStep(s, a))
  {
    hide SortedLists, SplitAll, DuplicateTags;
  }

  lemma ConsumerKeepsInv(s: State, a: Action)
    requires Inv(s) && Enabled(s, a) && OfConsumer(a)
    ensures Inv(ConsumerStep(s, a))
  {
    hide SortedLists, SplitAll, DuplicateTags;
    var q := s.m.dataQueue;
    if a.Take? {
      assert q == [q[0]] + q[1..];
    }
  }

  lemma StepKeepsInv(s: State, a: Action)
    requires Inv(s) && Enabled(s, a)
    ensures Inv(Do(s, a))
  {
    hide Inv, Enabled, CallerStep, ConsumerStep;
    if OfConsumer(a) {
      ConsumerKeepsInv(s, a);
    } else {
      CallerKeepsInv(s, a);
    }
  }

  /**
   Over every run: no send or close on a closed channel, and what was enqueued is, in order, what was delivered,
   what the consumer has in hand and what is queued.
   */
  lemma {:induction false} RunsKeepInv(s: State, schedule: seq<Action>, end: State)
    requires Inv(s) && Execution(s, schedule, end)
    ensures Inv(end)
    decreases |schedule|
  {
    hide Inv, Enabled, Do;
    if schedule != [] {
      StepKeepsInv(s, schedule[0]);
      RunsKeepInv(Do(s, schedule[0]), schedule[1..], end);
    }
  }

  lemma RunsAreSafe(s: State, schedule: seq<Action>, end: State)
    requires Initial(s) && Execution(s, schedule, end)
    ensures !end.panicked
    ensures end.enqueued == end.delivered + HandOf(end.consumer) + end.m.dataQueue
    ensures |end.m.dataQueue| <= end.m.queueSize
    ensures end.section.Reading? ==> !end.m.exitClosed
  {
    RunsKeepInv(s, schedule, end);
  }

  /** Once the consumer has returned, nothing is delivered or enqueued any more. */
  lemma {:induction false} ExitIsFinal(s: State, schedule: seq<Action>, end: State)
    requires Inv(s) && s.consumer.Exited? && Execution(s, schedule, end)
    ensures end.consumer.Exited?
    ensures end.enqueued == s.enqueued && end.delivered == s.delivered && end.m.dataQueue == s.m.dataQueue
    decreases |schedule|
  {
    hide SortedLists, SplitAll, DuplicateTags;
    if schedule != [] {
      StepKeepsInv(s, schedule[0]);
      ExitIsFinal(Do(s, schedule[0]), schedule[1..], end);
    }
  }

  // ----- What is read is what is delivered, in order -----

  /** The groups of a read that are still to be sent. */
  function Unsent(s: State): seq<Group> {
    if s.section.Reading? then s.section.rest else []
  }

  /** The results of all reads a run begins on the open manager, one after another. */
  ghost function ResultsRead(s: State, schedule: seq<Action>, end: State): seq<Group>
    requires Execution(s, schedule, end)
    decreases |schedule|
  {
    if schedule == [] then []
    else
      (if schedule[0].BeginRead? && !s.m.closed then schedule[0].result else [])
      + ResultsRead(Do(s, schedule[0]), schedule[1..], end)
  }

  lemma StepSendsInOrder(s: State, a: Action)
    requires Inv(s) && Enabled(s, a)
    ensures Do(s, a).enqueued + Unsent(Do(s, a))
            == s.enqueued + Unsent(s) + (if a.BeginRead? && !s.m.closed then a.result else [])
  {
    hide SortedLists, SplitAll, DuplicateTags;
    if IsReading(s) {
      var rest := s.section.rest;
      assert s.enqueued + rest == (s.enqueued + [rest[0]]) + rest[1..];
    }
  }

  lemma {:induction false} SentInOrder(s: State, schedule: seq<Action>, end: State)
    requires Inv(s) && Execution(s, schedule, end)
    ensures end.enqueued + Unsent(end) == s.enqueued + Unsent(s) + ResultsRead(s, schedule, end)
    decreases |schedule|
  {
    hide Inv, Enabled, Do, Unsent;
    if schedule != [] {
      StepKeepsInv(s, schedule[0]);
      StepSendsInOrder(s, schedule[0]);
      SentInOrder(Do(s, schedule[0]), schedule[1..], end);
    }
  }

  /**
   Over every run, the groups the callback got, the one in the consumer's hand, those queued and those a read has still
   to send are, in this order, exactly the results of all reads, one after another: none is lost, doubled or overtaken.
   */
  lemma DeliveredInOrder(s: State, schedule: seq<Action>, end: State)
    requires Initial(s) && Execution(s, schedule, end)
    ensures end.delivered + HandOf(end.consumer) + end.m.dataQueue + Unsent(end) == ResultsRead(s, schedule, end)
  {
    RunsKeepInv(s, schedule, end);
    SentInOrder(s, schedule, end);
    assert Unsent(s) == [];
    hide Execution, ResultsRead, HandOf, Unsent, FlagsOk;
  }

  // ----- ReadGroupedData and the queue -----

  /** How many more groups the queue and a consumer that is in its select can take. */
  function Room(s: State): int {
    s.m.queueSize - |s.m.dataQueue| + (if s.consumer.Waiting? then 1 else 0)
  }

  /** The groups left beyond the room there is. */
  function Excess(s: State): int
    requires s.section.Reading?
  {
    |s.section.rest| - Room(s)
  }

  /** While the producer holds the mutex, only Start makes room: otherwise groups left and room shrink together. */
  lemma ReadingKeepsExcess(s: State, a: Action)
    requires Inv(s) && IsReading(s) && Enabled(s, a)
    ensures var s' := Do(s, a);
            && s'.section.Reading? && Excess(s') == Excess(s) - (if a.Start? then 1 else 0)
            && (s'.consumer.NotStarted? <==> s.consumer.NotStarted? && !a.Start?)
  {
    hide SortedLists, SplitAll, DuplicateTags;
  }

  /** The queue is full and no consumer is in its select: it waits for the producer's mutex, or was never started. */
  predicate Blocked(s: State) {
    IsReading(s) && !s.consumer.Waiting? && |s.m.dataQueue| == s.m.queueSize
  }

  /**
   Under the producer's lock, either some step other than Start is possible, or only a Start could help; and if the
   consumer was started before, nothing in the manager can move any more, Stop included.
   */
  lemma ReadingMovesUnlessBlocked(s: State) returns (a: Action)
    requires Inv(s) && IsReading(s)
    ensures !a.Start? && (Blocked(s) <==> !Enabled(s, a))
    ensures Blocked(s) ==> forall b :: Enabled(s, b) ==> b.Start?
    ensures Blocked(s) && !s.consumer.NotStarted? ==> forall b :: !Enabled(s, b)
  {
    hide SortedLists, SplitAll, DuplicateTags;
    a := if |s.m.dataQueue| < s.m.queueSize then Enqueue
         else if s.m.dataQueue == [] then HandOver
         else Take;
  }

  function ReadingLeft(s: State): nat {
    (if s.section.Reading? then |s.section.rest| else 0)
    + (match s.consumer case NotStarted => 2 case Waiting => 1 case _ => 0)
  }

  lemma ReadingShrinks(s: State, a: Action)
    requires Inv(s) && IsReading(s) && Enabled(s, a)
    ensures ReadingLeft(Do(s, a)) < ReadingLeft(s)
  {
    hide SortedLists, SplitAll, DuplicateTags;
  }

  /** A run that stays in the loop of ReadGroupedData. */
  ghost predicate LoopRun(s: State, schedule: seq<Action>, end: State)
    decreases |schedule|
  {
    if schedule == [] then end == s
    else IsReading(s) && Enabled(s, schedule[0]) && LoopRun(Do(s, schedule[0]), schedule[1..], end)
  }

  /** How often a schedule starts the consumer. */
  function Starts(schedule: seq<Action>): nat {
    if schedule == [] then 0 else (if schedule[0].Start? then 1 else 0) + Starts(schedule[1..])
  }

  lemma {:induction false} LoopRunKeeps(s: State, schedule: seq<Action>, end: State)
    requires Inv(s) && s.section.Reading? && LoopRun(s, schedule, end)
    ensures Inv(end) && end.section.Reading? && Excess(end) == Excess(s) - Starts(schedule)
    ensures Starts(schedule) == if s.consumer.NotStarted? && !end.consumer.NotStarted? then 1 else 0
    ensures end.consumer.NotStarted? ==> s.consumer.NotStarted?
    ensures |schedule| + ReadingLeft(end) <= ReadingLeft(s)
    decreases |schedule|
  {
    hide Inv, Do, Enabled, Excess, ReadingLeft;
    if schedule != [] {
      StepKeepsInv(s, schedule[0]);
      ReadingKeepsExcess(s, schedule[0]);
      ReadingShrinks(s, schedule[0]);
      if schedule[0].Start? {
        StartsOnce(s);
      }
      LoopRunKeeps(Do(s, schedule[0]), schedule[1..], end);
    }
  }

  lemma StartsOnce(s: State)
    requires Enabled(s, Start)
    ensures s.consumer.NotStarted?
  {
  }

  /** With at most as many groups as there is room, no schedule blocks the loop, whether or not it has a Start. */
  lemma EnoughRoomNeverBlocks(s: State, schedule: seq<Action>, end: State)
    requires Inv(s) && s.section.Reading? && |s.section.rest| <= Room(s) && LoopRun(s, schedule, end)
    ensures end.section == Reading([]) || (exists a: Action :: !a.Start? && Enabled(end, a))
  {
    LoopRunKeeps(s, schedule, end);
    hide Inv, Enabled, LoopRun;
    if IsReading(end) {
      var a := ReadingMovesUnlessBlocked(end);
    }
  }

  /** With more groups than room, counting a Start the schedule has, no schedule gets to the end of the loop. */
  lemma TooLittleRoomNeverReturns(s: State, schedule: seq<Action>, end: State)
    requires Inv(s) && s.section.Reading? && LoopRun(s, schedule, end)
    requires |s.section.rest| > Room(s) + Starts(schedule)
    ensures IsReading(end)
  {
    LoopRunKeeps(s, schedule, end);
  }

  /** A state in which ReadGroupedData's loop is over, or nothing but a caller's Start is possible. */
  ghost predicate Stuck(s: State) {
    !IsReading(s) || forall a :: Enabled(s, a) ==> a.Start?
  }

  lemma StuckMeans(s: State, schedule: seq<Action>, end: State)
    requires Inv(s) && s.section.Reading? && LoopRun(s, schedule, end) && Stuck(end)
    ensures |schedule| <= |s.section.rest| + 2
    ensures end.section == Reading([]) <==> |s.section.rest| <= Room(s) + Starts(schedule)
    ensures Blocked(end) <==> |s.section.rest| > Room(s) + Starts(schedule)
    ensures Starts(schedule) == if s.consumer.NotStarted? && !end.consumer.NotStarted? then 1 else 0
  {
    LoopRunKeeps(s, schedule, end);
    hide Inv, Enabled, LoopRun;
    if IsReading(end) {
      var a := ReadingMovesUnlessBlocked(end);
    }
  }

  /**
   For every state in which ReadGroupedData begins and every schedule without a Start, run until nothing but a Start
   is possible: the loop has put every group on the queue if and only if there was room for them all at the start;
   otherwise it is blocked, for ever unless someone starts the consumer.
   */
  lemma ReturnsIffRoom(s: State, schedule: seq<Action>, end: State)
    requires Inv(s) && s.section.Reading? && LoopRun(s, schedule, end) && Starts(schedule) == 0 && Stuck(end)
    ensures |schedule| <= |s.section.rest| + 2
    ensures end.section == Reading([]) <==> |s.section.rest| <= Room(s)
    ensures Blocked(end) <==> |s.section.rest| > Room(s)
    ensures Blocked(end) && !s.consumer.NotStarted? ==> forall a :: !Enabled(end, a)
  {
    StuckMeans(s, schedule, end);
    LoopRunKeeps(s, schedule, end);
    hide Inv, Enabled, LoopRun;
    if Blocked(end) {
      var a := ReadingMovesUnlessBlocked(end);
    }
  }

  /**
   The same for every schedule in which the consumer is started while ReadGroupedData is in its loop: one more group
   can be taken, and a block is the deadlock of producer and consumer, in which nothing can move any more.
   */
  lemma ReturnsIffRoomOnceStarted(s: State, schedule: seq<Action>, end: State)
    requires Inv(s) && s.section.Reading? && LoopRun(s, schedule, end) && Starts(schedule) > 0 && Stuck(end)
    ensures s.consumer.NotStarted?
    ensures end.section == Reading([]) <==> |s.section.rest| <= Room(s) + 1
    ensures Blocked(end) <==> |s.section.rest| > Room(s) + 1
    ensures Blocked(end) ==> forall a :: !Enabled(end, a)
  {
    StuckMeans(s, schedule, end);
    LoopRunKeeps(s, schedule, end);
    hide Inv, Enabled, LoopRun;
    if Blocked(end) {
      var a := ReadingMovesUnlessBlocked(end);
    }
  }

  /**
   A call on the open manager whose loop ends, under any schedule, has sent exactly the groups it read, in their order;
   a call on a closed one does nothing.
   */
  lemma ReadSendsItsResult(s: State, result: seq<Group>, schedule: seq<Action>, end: State)
    requires Inv(s) && Enabled(s, BeginRead(result)) && LoopRun(Do(s, BeginRead(result)), schedule, end)
    ensures s.m.closed ==> Do(s, BeginRead(result)) == s
    ensures !s.m.closed ==> end.section.Reading? && end.enqueued + end.section.rest == s.enqueued + result
    ensures !s.m.closed && Enabled(end, EndRead) ==> end.enqueued == s.enqueued + result
  {
    if !s.m.closed {
      StepKeepsInv(s, BeginRead(result));
      LoopSendsInOrder(Do(s, BeginRead(result)), schedule, end);
    }
    hide LoopRun, Inv;
  }

  lemma {:induction false} LoopSendsInOrder(s: State, schedule: seq<Action>, end: State)
    requires Inv(s) && s.section.Reading? && LoopRun(s, schedule, end)
    ensures end.section.Reading? && end.enqueued + end.section.rest == s.enqueued + s.section.rest
    decreases |schedule|
  {
    hide Inv, Do, Enabled, Excess;
    if schedule != [] {
      StepKeepsInv(s, schedule[0]);
      ReadingKeepsExcess(s, schedule[0]);
      StepSendsInOrder(s, schedule[0]);
      NoReadInside(s, schedule[0]);
      LoopSendsInOrder(Do(s, schedule[0]), schedule[1..], end);
    }
  }

  lemma NoReadInside(s: State, a: Action)
    requires s.section.Reading? && Enabled(s, a)
    ensures !a.BeginRead?
  {
  }

  /** From every state of the loop some schedule without a Start runs it as far as it goes. */
  lemma {:induction false} LoopCanFinish(s: State) returns (schedule: seq<Action>, end: State)
    requires Inv(s) && s.section.Reading?
    ensures LoopRun(s, schedule, end) && Stuck(end) && Starts(schedule) == 0
    decreases ReadingLeft(s)
  {
    hide Inv, Do, Enabled, ReadingLeft, Blocked;
    if !IsReading(s) {
      schedule, end := [], s;
    } else {
      var a := ReadingMovesUnlessBlocked(s);
      if Enabled(s, a) {
        StepKeepsInv(s, a);
        ReadingKeepsExcess(s, a);
        ReadingShrinks(s, a);
        var rest;
        rest, end := LoopCanFinish(Do(s, a));
        schedule := [a] + rest;
        assert schedule[1..] == rest;
      } else {
        schedule, end := [], s;
      }
    }
  }

  /** ReadGroupedData before Start, with an unbuffered queue and one group: only a Start can end it. */
  lemma ReadBeforeStartBlocks(group: Group)
    ensures var m := Fields([group], false, false, [], 0, false);
            var s := State(m, Reading([group]), NotStarted, [], [], false);
            Inv(s) && Blocked(s) && forall a :: Enabled(s, a) <==> a.Start?
  {
    hide SortedLists, SplitAll, DuplicateTags;
  }

  /** The producer's own send is possible at once. */
  predicate SendReady(s: State) {
    IsReading(s) ==> |s.m.dataQueue| < s.m.queueSize
  }

  /** With at most as many groups as free slots at entry, every send of the loop finds a free slot. */
  lemma {:induction false} FreeSlotsNeverWait(s: State, schedule: seq<Action>, end: State)
    requires Inv(s) && s.section.Reading? && |s.section.rest| <= s.m.queueSize - |s.m.dataQueue|
    requires LoopRun(s, schedule, end)
    ensures SendReady(end)
    decreases |schedule|
  {
    hide SortedLists, SplitAll, DuplicateTags;
    if schedule != [] {
      StepKeepsInv(s, schedule[0]);
      FreeSlotsNeverWait(Do(s, schedule[0]), schedule[1..], end);
    }
  }

  // ----- Delivery -----

  /** Between calls of an open manager, the consumer can deliver everything that was enqueued. */
  lemma {:induction false} CanDeliverAll(s: State) returns (schedule: seq<Action>, end: State)
    requires Inv(s) && s.section.Unlocked? && !s.m.closed
    ensures Execution(s, schedule, end) && Inv(end)
    ensures end.section.Unlocked? && end.enqueued == s.enqueued == end.delivered
    decreases 3 * |s.m.dataQueue| + (match s.consumer case NotStarted => 1 case InHand(_) => 2 case _ => 0)
  {
    hide SortedLists, SplitAll, DuplicateTags, Execution;
    if s.consumer.Waiting? && s.m.dataQueue == [] {
      schedule, end := [], s;
      Stay(s);
    } else if s.consumer.InHand? {
      var s1 := Do(s, Lock);
      StepKeepsInv(s, Lock);
      var s2 := Do(s1, Deliver);
      StepKeepsInv(s1, Deliver);
      var rest;
      rest, end := CanDeliverAll(s2);
      Prepend(s1, Deliver, rest, end);
      Prepend(s, Lock, [Deliver] + rest, end);
      schedule := [Lock] + ([Deliver] + rest);
    } else {
      var a := if s.consumer.NotStarted? then Start else Take;
      StepKeepsInv(s, a);
      var rest;
      rest, end := CanDeliverAll(Do(s, a));
      Prepend(s, a, rest, end);
      schedule := [a] + rest;
    }
  }

  lemma Stay(s: State)
    ensures Execution(s, [], s)
  {
  }

  lemma Prepend(s: State, a: Action, schedule: seq<Action>, end: State)
    requires Enabled(s, a) && Execution(Do(s, a), schedule, end)
    ensures Execution(s, [a] + schedule, end)
  {
    hide Do, Enabled;
    assert ([a] + schedule)[1..] == schedule;
  }

  /** A Stop with groups still queued can lose exactly those: the select may see the exit signal first. */
  lemma StopCanLoseQueued(s: State) returns (schedule: seq<Action>, end: State)
    requires Inv(s) && s.section.Unlocked? && !s.m.closed && s.consumer.Waiting?
    ensures Execution(s, schedule, end) && end.consumer.Exited? && end.section.Unlocked?
    ensures end.delivered == s.delivered && end.enqueued == s.delivered + s.m.dataQueue
  {
    hide SortedLists, SplitAll, DuplicateTags, Execution;
    var s1 := Do(s, BeginStop);
    var s2 := Do(s1, CloseExit);
    var s3 := Do(s2, CloseQueue);
    end := Do(s3, SeeExit);
    Stay(end);
    Prepend(s3, SeeExit, [], end);
    Prepend(s2, CloseQueue, [SeeExit] + [], end);
    Prepend(s1, CloseExit, [CloseQueue] + ([SeeExit] + []), end);
    Prepend(s, BeginStop, [CloseExit] + ([CloseQueue] + ([SeeExit] + [])), end);
    schedule := [BeginStop] + ([CloseExit] + ([CloseQueue] + ([SeeExit] + [])));
  }

  // ----- The methods that run under the mutex without waiting -----

  function Stopped(m: Fields): Fields {
    m.(closed := true, exitClosed := true, queueClosed := true)
  }

  class RegisterManager {
    var groupedRegisters: seq<Group>
    var closed: bool
    var exitClosed: bool
    var dataQueue: seq<Group>
    var queueSize: nat
    var queueClosed: bool

    function View(): Fields
      reads this
    {
      Fields(groupedRegisters, closed, exitClosed, dataQueue, queueSize, queueClosed)
    }

    constructor (size: nat)
      ensures View() == Fields([], false, false, [], size, false)
    {
      groupedRegisters, closed, exitClosed, dataQueue, queueSize, queueClosed := [], false, false, [], size, false;
    }

    /** The new groups are every register once; a duplicate tag is refused and changes nothing. */
    method LoadRegisters(registers: seq<Register>) returns (r: Result<()>, ghost lists: seq<seq<Register>>)
      modifies this
      ensures r.Ok? ==> SortedLists(registers, lists)
      ensures View() == Loaded(old(View()), registers, lists)
      ensures r == if DuplicateTags(registers) then Err(DuplicateTag) else Ok(())
    {
      hide SortedLists, SplitAll;
      var tagMap: set<string> := {};
      for i := 0 to |registers|
        invariant tagMap == set k | 0 <= k < i :: registers[k].tag
        invariant forall j, k :: 0 <= j < k < i ==> registers[j].tag != registers[k].tag
      {
        if registers[i].tag in tagMap {
          return Err(DuplicateTag), [];
        }
        tagMap := tagMap + {registers[i].tag};
      }
      var groups;
      groups, lists := GroupDeviceRegisters(registers);
      groupedRegisters := groups;
      return Ok(()), lists;
    }

    /**
     Stop is the steps BeginStop, CloseExit and CloseQueue with no other holder of the mutex between them. It panics
     exactly on an open manager one of whose channels is closed already, which no run reaches.
     */
    method Stop() returns (panicked: bool)
      modifies this
      ensures panicked <==> !old(closed) && (old(exitClosed) || old(queueClosed))
      ensures !panicked ==> View() == if old(closed) then old(View()) else Stopped(old(View()))
    {
      panicked := false;
      if closed {
        return;
      }
      closed := true;
      if exitClosed {
        return true;
      }
      exitClosed := true;
      if queueClosed {
        return true;
      }
      queueClosed := true;
    }
  }

  /** In every state a run reaches, Stop cannot panic, and its steps reach the fields the method leaves. */
  lemma StopSteps(s: State) returns (schedule: seq<Action>, end: State)
    requires Inv(s) && s.section.Unlocked?
    ensures !s.m.closed ==> !s.m.exitClosed && !s.m.queueClosed
    ensures Execution(s, schedule, end) && end == s.(m := Stopped(s.m))
    ensures s.m.closed ==> Stopped(s.m) == s.m
  {
    hide SortedLists, SplitAll, DuplicateTags, Execution;
    if s.m.closed {
      Stay(s);
      Prepend(s, BeginStop, [], s);
      return [BeginStop] + [], s;
    }
    var s1 := Do(s, BeginStop);
    var s2 := Do(s1, CloseExit);
    end := Do(s2, CloseQueue);
    Stay(end);
    Prepend(s2, CloseQueue, [], end);
    Prepend(s1, CloseExit, [CloseQueue] + [], end);
    Prepend(s, BeginStop, [CloseExit] + ([CloseQueue] + []), end);
    schedule := [BeginStop] + ([CloseExit] + ([CloseQueue] + []));
  }
}
