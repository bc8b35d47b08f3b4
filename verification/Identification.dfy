/** The object list of a Read Device Identification reply (function 43, MEI type 14). */
module Identification {
  import opened Bytes
  import opened Line

  datatype Object = Object(id: byte, value: seq<byte>)

  /** Every value fits the length byte. */
  predicate Fit(objects: seq<Object>) {
    objects == [] || (|objects[|objects| - 1].value| < 0x100 && Fit(objects[..|objects| - 1]))
  }

  lemma FitSnoc(objects: seq<Object>, o: Object)
    ensures Fit(objects + [o]) <==> Fit(objects) && |o.value| < 0x100
  {
    assert (objects + [o])[..|objects|] == objects;
  }

  function ObjectBytes(o: Object): seq<byte> {
    [o.id, |o.value| % 0x100] + o.value
  }

  /** Section 6.21 of MODBUS Application Protocol V1.1b3: id, length, value, one object after another. */
  function Layout(objects: seq<Object>): seq<byte> {
    if objects == [] then []
    else ObjectBytes(objects[0]) + Layout(objects[1..])
  }

  /** The map the objects leave when stored in order: later values replace earlier ones. */
  function Stored(objects: seq<Object>): map<byte, seq<byte>> {
    if objects == [] then map[]
    else
      var last := objects[|objects| - 1];
      Stored(objects[..|objects| - 1])[last.id := last.value]
  }

  lemma {:induction false} LayoutSnoc(objects: seq<Object>, o: Object)
    ensures Layout(objects + [o]) == Layout(objects) + ObjectBytes(o)
  {
    hide ObjectBytes;
    if objects == [] {
      assert [o][1..] == [];
    } else {
      assert (objects + [o])[1..] == objects[1..] + [o];
      LayoutSnoc(objects[1..], o);
    }
  }

  /** Each id keeps the value of its last object, and no other id is stored. */
  lemma {:induction false} StoredIsLast(objects: seq<Object>, i: nat)
    requires i < |objects| && forall j :: i < j < |objects| ==> objects[j].id != objects[i].id
    ensures objects[i].id in Stored(objects) && Stored(objects)[objects[i].id] == objects[i].value
    decreases |objects|
  {
    if i < |objects| - 1 {
      StoredIsLast(objects[..|objects| - 1], i);
    }
  }

  lemma {:induction false} StoredOnlyIds(objects: seq<Object>)
    ensures Stored(objects).Keys == set i | 0 <= i < |objects| :: objects[i].id
    decreases |objects|
  {
    if objects != [] {
      var init := objects[..|objects| - 1];
      StoredOnlyIds(init);
      assert forall i :: 0 <= i < |init| ==> init[i] == objects[i];
    }
  }

  lemma ObjectSize(o: Object)
    ensures |ObjectBytes(o)| == 2 + |o.value|
  {
  }

  // ----- What the source slices -----

  /** A slice of the source: the array behind it up to its capacity, and how many of those bytes are its own. */
  datatype Slice = Slice(buffer: seq<byte>, length: nat)

  predicate Valid(d: Slice) {
    d.length <= |d.buffer|
  }

  const LIST_START := 6
  const RTU_CAPACITY := 254
  const TCP_CAPACITY := 252

  function Zeros(n: nat): (z: seq<byte>)
    ensures |z| == n
  {
    seq(n, _ => 0)
  }

  /**
   The array behind Data: over RTU and TCP the transporter's own array, in which an RTU frame's CRC follows the
   data; over ASCII one of exactly its length.
   */
  function Backing(framing: Framing, data: seq<byte>, crc: seq<byte>): (buffer: seq<byte>)
    ensures data <= buffer
  {
    match framing
    case RtuFraming => data + crc + Zeros(if |data| + |crc| < RTU_CAPACITY then RTU_CAPACITY - |data| - |crc| else 0)
    case AsciiFraming => data
    case TcpFraming => data + Zeros(if |data| < TCP_CAPACITY then TCP_CAPACITY - |data| else 0)
  }

  /** The reply data starts two bytes into the 256 of the RTU buffer and eight into the 260 of the TCP buffer. */
  lemma BackingSize(framing: Framing, data: seq<byte>, crc: seq<byte>)
    requires |crc| == 2 && |data| <= 252
    ensures |Backing(framing, data, crc)|
            == match framing case RtuFraming => 256 - 2 case AsciiFraming => |data| case TcpFraming => 260 - 8
  {
  }

  /** The object at an offset and where it ends. */
  datatype Next = Stop | Next(item: Object, end: nat)

  /** Indexing is bounded by the length, slicing by the capacity. */
  function NextObject(d: Slice, at: nat): (r: Next)
    requires Valid(d)
    ensures r.Next? ==> at + 2 <= d.length && at + 2 <= r.end <= |d.buffer|
  {
    if at + 2 > d.length then Stop
    else
      var length: nat := d.buffer[at + 1];
      if at + 2 + length > |d.buffer| then Stop
      else Next(Object(d.buffer[at], d.buffer[at + 2..at + 2 + length]), at + 2 + length)
  }

  /** The objects of the list, as many as count says, and where they end, or None when an index panics. */
  datatype Parsed = None | Parsed(objects: seq<Object>, end: nat)

  function Parse(d: Slice, count: nat): (r: Parsed)
    requires Valid(d) && LIST_START <= d.length
    ensures r.Parsed? ==> LIST_START <= r.end <= |d.buffer| && |r.objects| == count
    decreases count
  {
    if count == 0 then Parsed([], LIST_START)
    else
      var front := Parse(d, count - 1);
      if front.None? then None
      else
        var next := NextObject(d, front.end);
        if next.Stop? then None else Parsed(front.objects + [next.item], next.end)
  }

  lemma NextObjectBytes(d: Slice, at: nat)
    requires Valid(d) && LIST_START <= at && NextObject(d, at).Next?
    ensures var n := NextObject(d, at);
            |n.item.value| < 0x100 && d.buffer[LIST_START..n.end] == d.buffer[LIST_START..at] + ObjectBytes(n.item)
  {
  }

  lemma NextObjectOf(before: seq<byte>, o: Object, rest: seq<byte>, length: nat)
    requires |o.value| < 0x100 && |before| + 2 <= length <= |before| + 2 + |o.value| + |rest|
    ensures NextObject(Slice(before + (ObjectBytes(o) + rest), length), |before|) == Next(o, |before| + 2 + |o.value|)
  {
    var buffer := before + (ObjectBytes(o) + rest);
    var k := |before|;
    assert buffer[k] == o.id && buffer[k + 1] == |o.value|;
    assert buffer[k + 2..k + 2 + |o.value|] == o.value;
  }

  lemma ParseNext(d: Slice, k: nat)
    requires Valid(d) && LIST_START <= d.length && Parse(d, k).Parsed?
    ensures var front := Parse(d, k);
            var next := NextObject(d, front.end);
            Parse(d, k + 1) == if next.Stop? then None else Parsed(front.objects + [next.item], next.end)
  {
    hide NextObject;
  }

  lemma {:induction false} ParseStops(d: Slice, k: nat, count: nat)
    requires Valid(d) && LIST_START <= d.length && k <= count && Parse(d, k).None?
    ensures Parse(d, count).None?
    decreases count - k
  {
    if k < count {
      ParseStops(d, k, count - 1);
    }
  }

  /** Id and length byte of the last object lie within the length; its value may not. */
  predicate HeadsWithin(objects: seq<Object>, length: nat) {
    LIST_START + (if objects == [] then 0 else |Layout(objects[..|objects| - 1])| + 2) <= length
  }

  /** What the loop read is the layout of the objects it found, all but the last value within the length. */
  lemma {:induction false} ParseIsLayout(d: Slice, count: nat)
    requires Valid(d) && LIST_START <= d.length && Parse(d, count).Parsed?
    ensures d.buffer[LIST_START..Parse(d, count).end] == Layout(Parse(d, count).objects)
    ensures Fit(Parse(d, count).objects) && HeadsWithin(Parse(d, count).objects, d.length)
    decreases count
  {
    if count > 0 {
      ParseIsLayout(d, count - 1);
      hide NextObject, Layout, ObjectBytes;
      var front := Parse(d, count - 1);
      var o := NextObject(d, front.end).item;
      NextObjectBytes(d, front.end);
      LayoutSnoc(front.objects, o);
      FitSnoc(front.objects, o);
      hide Fit;
      assert (front.objects + [o])[..count - 1] == front.objects;
      assert |d.buffer[LIST_START..front.end]| == front.end - LIST_START;
    }
  }

  /** Every layout whose last length byte is received is parsed, whatever follows it in the array. */
  lemma {:induction false} LayoutIsParsed(header: seq<byte>, objects: seq<Object>, rest: seq<byte>, length: nat)
    requires |header| == LIST_START && Fit(objects) && HeadsWithin(objects, length)
    requires length <= LIST_START + |Layout(objects)| + |rest|
    ensures Parse(Slice(header + (Layout(objects) + rest), length), |objects|)
            == Parsed(objects, LIST_START + |Layout(objects)|)
    decreases |objects|
  {
    if objects != [] {
      var init, o := objects[..|objects| - 1], objects[|objects| - 1];
      hide NextObject, Layout, Parse, ObjectBytes, Fit;
      assert objects == init + [o];
      LayoutSnoc(init, o);
      ObjectSize(o);
      FitSnoc(init, o);
      InitWithin(init, length);
      hide HeadsWithin;
      var before := header + Layout(init);
      Regroup(header, Layout(init), ObjectBytes(o), rest);
      LayoutIsParsed(header, init, ObjectBytes(o) + rest, length);
      NextObjectOf(before, o, rest, length);
      ParseNext(Slice(before + (ObjectBytes(o) + rest), length), |init|);
    }
  }

  lemma Regroup(a: seq<byte>, b: seq<byte>, c: seq<byte>, d: seq<byte>)
    ensures a + ((b + c) + d) == (a + b) + (c + d)
    ensures a + (b + (c + d)) == (a + b) + (c + d)
  {
  }

  lemma InitWithin(init: seq<Object>, length: nat)
    requires LIST_START + |Layout(init)| + 2 <= length
    ensures HeadsWithin(init, length)
  {
    WholeWithin(init);
  }

  // ----- The reply -----

  predicate ValidConformity(level: byte) {
    0x01 <= level <= 0x03 || 0x81 <= level <= 0x83
  }

  /** What a reply says: where to continue, the objects, and the offset where the last one ends. */
  datatype Identity = Identity(conformityLevel: byte, nextObjectId: byte, objects: map<byte, seq<byte>>, used: nat)

  function Identify(d: Slice): Result<Identity>
    requires Valid(d)
  {
    if d.length < 3 then Err(RuntimePanic)
    else if !ValidConformity(d.buffer[2]) then Err(BadConformity)
    else if d.length < LIST_START then Err(RuntimePanic)
    else
      var p := Parse(d, d.buffer[5]);
      if p.None? then Err(RuntimePanic)
      else Ok(Identity(d.buffer[2], if d.buffer[3] == 0xFF then d.buffer[4] else 0, Stored(p.objects), p.end))
  }

  /** One iteration's reads; Stop is Go's panic. */
  method ReadObject(d: Slice, index: nat) returns (next: Next)
    requires Valid(d)
    ensures next == NextObject(d, index)
  {
    if index + 1 >= d.length {
      return Stop;
    }
    var id := d.buffer[index];
    var length: nat := d.buffer[index + 1];
    if index + 2 + length > |d.buffer| {
      return Stop;
    }
    var value := d.buffer[index + 2..index + 2 + length];
    next := Next(Object(id, value), index + 2 + length);
  }

  /** The object loop. */
  method ReadObjectList(d: Slice, count: byte) returns (r: Result<map<byte, seq<byte>>>, index: nat)
    requires Valid(d) && LIST_START <= d.length
    ensures var p := Parse(d, count);
            if p.None? then r == Err(RuntimePanic) else r == Ok(Stored(p.objects)) && index == p.end
  {
    var resultObjects: map<byte, seq<byte>> := map[];
    index := LIST_START;
    ghost var p := Parse(d, 0);
    hide Parse, NextObject;
    var i: nat := 0;
    while i < count
      invariant i <= count
      invariant p == Parse(d, i) && p.Parsed? && index == p.end
      invariant resultObjects == Stored(p.objects)
    {
      hide Stored;
      ParseNext(d, i);
      var next := ReadObject(d, index);
      if next.Stop? {
        ParseStops(d, i + 1, count);
        return Err(RuntimePanic), index;
      }
      StoredSnoc(p.objects, next.item);
      resultObjects := resultObjects[next.item.id := next.item.value];
      index := next.end;
      i := i + 1;
      p := Parse(d, i);
    }
    r := Ok(resultObjects);
  }

  /** The tail of sendReadDeviceIdentification: conformity level, next object id, objects. */
  method ReadObjects(d: Slice) returns (r: Result<Identity>)
    requires Valid(d)
    ensures r == Identify(d)
  {
    hide Parse, Stored;
    if d.length < 3 {
      return Err(RuntimePanic);
    }
    var conformityLevel := d.buffer[2];
    if !((conformityLevel >= 0x01 && conformityLevel <= 0x03) || (conformityLevel >= 0x81 && conformityLevel <= 0x83)) {
      return Err(BadConformity);
    }
    if d.length < LIST_START {
      return Err(RuntimePanic);
    }
    var nextObjectId: byte := 0;
    var moreFollows := d.buffer[3];
    if moreFollows == 0xFF {
      nextObjectId := d.buffer[4];
    }
    var resultObjects, index := ReadObjectList(d, d.buffer[5]);
    if resultObjects.Err? {
      return Err(resultObjects.error);
    }
    r := Ok(Identity(conformityLevel, nextObjectId, resultObjects.value, index));
  }

  lemma StoredSnoc(objects: seq<Object>, o: Object)
    ensures Stored(objects + [o]) == Stored(objects)[o.id := o.value]
  {
    assert (objects + [o])[..|objects|] == objects;
  }

  // ----- Which replies are accepted -----

  /** A reply of at least three bytes is refused for its conformity level exactly for all but the standard's six. */
  lemma ConformityIff(d: Slice)
    requires Valid(d) && d.length >= 3
    ensures Identify(d) == Err(BadConformity) <==> d.buffer[2] !in {0x01, 0x02, 0x03, 0x81, 0x82, 0x83}
    ensures Identify(d).Err? <==>
            d.buffer[2] !in {0x01, 0x02, 0x03, 0x81, 0x82, 0x83} || d.length < LIST_START || Parse(d, d.buffer[5]).None?
    ensures Identify(d).Ok? ==> Identify(d).value.conformityLevel == d.buffer[2]
    ensures Identify(d).Ok? ==> Identify(d).value.nextObjectId == if d.buffer[3] == 0xFF then d.buffer[4] else 0
  {
    hide Parse, Stored;
  }

  /** These objects are what lies behind the header in the array, their last length byte within the length. */
  predicate Carries(d: Slice, objects: seq<Object>)
    requires Valid(d) && LIST_START <= d.length
  {
    && |objects| == d.buffer[5] && Fit(objects) && HeadsWithin(objects, d.length)
    && Layout(objects) <= d.buffer[LIST_START..]
  }

  /** The loop accepts exactly what carries a list, and returns that list and its end. */
  lemma AcceptedIff(d: Slice, objects: seq<Object>)
    requires Valid(d) && LIST_START <= d.length && d.buffer[2] in {0x01, 0x02, 0x03, 0x81, 0x82, 0x83}
    ensures Carries(d, objects) <==> Parse(d, d.buffer[5]) == Parsed(objects, LIST_START + |Layout(objects)|)
    ensures Identify(d).Ok? <==> exists o :: Carries(d, o)
  {
    if Parse(d, d.buffer[5]).Parsed? {
      ParseCarries(d);
    }
    if Carries(d, objects) {
      CarriesParse(d, objects);
    }
    if o :| Carries(d, o) {
      CarriesParse(d, o);
    }
  }

  lemma ParseCarries(d: Slice)
    requires Valid(d) && LIST_START <= d.length && Parse(d, d.buffer[5]).Parsed?
    ensures var p := Parse(d, d.buffer[5]);
            Carries(d, p.objects) && p.end == LIST_START + |Layout(p.objects)|
  {
    ParseIsLayout(d, d.buffer[5]);
    hide Parse, Layout, Fit, HeadsWithin;
    var p := Parse(d, d.buffer[5]);
    assert d.buffer[LIST_START..p.end] == d.buffer[LIST_START..][..p.end - LIST_START];
  }

  lemma CarriesParse(d: Slice, objects: seq<Object>)
    requires Valid(d) && LIST_START <= d.length && Carries(d, objects)
    ensures Parse(d, d.buffer[5]) == Parsed(objects, LIST_START + |Layout(objects)|)
  {
    hide Parse, Layout, Fit, HeadsWithin;
    var header, rest := d.buffer[..LIST_START], d.buffer[LIST_START + |Layout(objects)|..];
    assert d.buffer == header + (Layout(objects) + rest) by {
      assert d.buffer[LIST_START..] == Layout(objects) + rest;
    }
    LayoutIsParsed(header, objects, rest, d.length);
  }

  /** The received bytes, and not only the array behind them, hold the whole list. */
  ghost predicate TrueLayout(d: Slice)
    requires Valid(d) && LIST_START <= d.length
  {
    exists objects :: Carries(d, objects) && LIST_START + |Layout(objects)| <= d.length
  }

  /** Where a list of so many objects ends, walked over the received bytes alone, or Cut if a head is not there. */
  datatype Walk = Cut | EndsAt(end: nat)

  function LastEnd(received: seq<byte>, count: nat): Walk
    requires LIST_START <= |received|
  {
    if count == 0 then EndsAt(LIST_START)
    else
      var front := LastEnd(received, count - 1);
      if front.Cut? || front.end + 2 > |received| then Cut
      else EndsAt(front.end + 2 + received[front.end + 1])
  }

  /** The walk ends where the parse ends, if that is within the array. */
  predicate Agree(p: Parsed, walk: Walk, size: nat) {
    if p.Parsed? then walk == EndsAt(p.end) && p.end <= size else walk.Cut? || walk.end > size
  }

  lemma {:induction false} ParseIsWalk(d: Slice, count: nat)
    requires Valid(d) && LIST_START <= d.length
    ensures Agree(Parse(d, count), LastEnd(d.buffer[..d.length], count), |d.buffer|)
    decreases count
  {
    if count > 0 {
      hide *;
      ParseIsWalk(d, count - 1);
      WalkStep(d, d.buffer[..d.length], count - 1);
    }
  }

  lemma WalkStep(d: Slice, received: seq<byte>, k: nat)
    requires Valid(d) && LIST_START <= d.length && received == d.buffer[..d.length]
    requires Agree(Parse(d, k), LastEnd(received, k), |d.buffer|)
    ensures Agree(Parse(d, k + 1), LastEnd(received, k + 1), |d.buffer|)
  {
    hide Parse, LastEnd, NextObject, Agree;
    WalkNext(received, k);
    if Parse(d, k).Parsed? {
      ParseNext(d, k);
    } else {
      ParseStops(d, k, k + 1);
    }
    AgreeNext(d, received, Parse(d, k), LastEnd(received, k), Parse(d, k + 1), LastEnd(received, k + 1));
  }

  lemma AgreeNext(d: Slice, received: seq<byte>, front: Parsed, walk: Walk, p: Parsed, next: Walk)
    requires Valid(d) && received == d.buffer[..d.length] && Agree(front, walk, |d.buffer|)
    requires if front.None? then p == None
             else
               var n := NextObject(d, front.end);
               p == if n.Stop? then None else Parsed(front.objects + [n.item], n.end)
    requires next == if walk.Cut? || walk.end + 2 > |received| then Cut
                     else EndsAt(walk.end + 2 + received[walk.end + 1])
    ensures Agree(p, next, |d.buffer|)
  {
    assert |received| <= |d.buffer|;
    if front.Parsed? {
      NextEnd(d, front.end, received);
      hide NextObject;
    }
  }

  lemma WalkNext(received: seq<byte>, k: nat)
    requires LIST_START <= |received|
    ensures var front := LastEnd(received, k);
            LastEnd(received, k + 1) == if front.Cut? || front.end + 2 > |received| then Cut
                                        else EndsAt(front.end + 2 + received[front.end + 1])
  {
  }

  lemma NextEnd(d: Slice, at: nat, received: seq<byte>)
    requires Valid(d) && received == d.buffer[..d.length]
    ensures NextObject(d, at).Next? <==> at + 2 <= |received| && at + 2 + received[at + 1] <= |d.buffer|
    ensures NextObject(d, at).Next? ==> NextObject(d, at).end == at + 2 + received[at + 1]
  {
  }

  /**
   What becomes of a list is decided by where the received bytes put the end of its last object: it panics when a head
   is not received or the end is beyond the array, the objects are the received ones exactly when the end is within
   the length, and between the two the last value is filled from the array behind the reply.
   */
  lemma TrueLayoutIff(d: Slice)
    requires Valid(d) && LIST_START <= d.length && d.buffer[2] in {0x01, 0x02, 0x03, 0x81, 0x82, 0x83}
    ensures var walk := LastEnd(d.buffer[..d.length], d.buffer[5]);
            && (Identify(d) == Err(RuntimePanic) <==> walk.Cut? || walk.end > |d.buffer|)
            && (TrueLayout(d) <==> walk.EndsAt? && walk.end <= d.length)
            && (Identify(d).Ok? && !TrueLayout(d) <==> walk.EndsAt? && d.length < walk.end <= |d.buffer|)
  {
    ParseIsWalk(d, d.buffer[5]);
    hide Parse, Layout, Fit, HeadsWithin, Carries, Stored, LastEnd;
    if Parse(d, d.buffer[5]).Parsed? {
      ParseCarries(d);
    }
    if objects :| Carries(d, objects) && LIST_START + |Layout(objects)| <= d.length {
      CarriesParse(d, objects);
    }
  }

  /** Over ASCII, where the array ends with the data, every accepted list was received. */
  lemma ExactCapacityIsTrue(data: seq<byte>)
    requires Identify(Slice(Backing(AsciiFraming, data, []), |data|)).Ok?
    ensures TrueLayout(Slice(Backing(AsciiFraming, data, []), |data|))
  {
    hide Parse, TrueLayout;
    TrueLayoutIff(Slice(data, |data|));
  }

  /**
   A truncated reply that is accepted: one object of length 5 without its value. Over TCP and RTU five bytes of the
   transporter's array are returned as its value; over ASCII the same data panics.
   */
  lemma TruncatedObjectRead(crc: seq<byte>)
    requires |crc| == 2
    ensures var data := [0x0E, 0x01, 0x01, 0x00, 0x00, 0x01, 0x00, 0x05];
            && Identify(Slice(Backing(TcpFraming, data, []), 8)) == Ok(Identity(1, 0, map[0 := [0, 0, 0, 0, 0]], 13))
            && Identify(Slice(Backing(RtuFraming, data, crc), 8)) == Ok(Identity(1, 0, map[0 := crc + [0, 0, 0]], 13))
            && Identify(Slice(Backing(AsciiFraming, data, []), 8)) == Err(RuntimePanic)
            && !TrueLayout(Slice(Backing(TcpFraming, data, []), 8))
  {
    var data: seq<byte> := [0x0E, 0x01, 0x01, 0x00, 0x00, 0x01, 0x00, 0x05];
    var tcp, rtu := Backing(TcpFraming, data, []), Backing(RtuFraming, data, crc);
    hide Identify, TrueLayout;
    assert tcp[8..13] == [0, 0, 0, 0, 0] && rtu[8..13] == crc + [0, 0, 0];
    TruncatedIn(tcp);
    TruncatedIn(rtu);
    TruncatedIn(data);
  }

  lemma TruncatedIn(buffer: seq<byte>)
    requires [0x0E, 0x01, 0x01, 0x00, 0x00, 0x01, 0x00, 0x05] <= buffer
    ensures Identify(Slice(buffer, 8))
            == if |buffer| < 13 then Err(RuntimePanic) else Ok(Identity(1, 0, map[0 := buffer[8..13]], 13))
    ensures !TrueLayout(Slice(buffer, 8))
  {
    assert |buffer| >= 8 && buffer[7] == 5;
    OneObject(buffer, 8);
    if |buffer| >= 13 {
      StoredOne(0, buffer[8..13]);
    }
    ParseIsWalk(Slice(buffer, 8), 1);
    TrueLayoutIff(Slice(buffer, 8));
    hide Parse, Stored, LastEnd, TrueLayout;
  }

  lemma OneObject(buffer: seq<byte>, length: nat)
    requires 8 <= length <= |buffer| && buffer[5] == 1
    ensures Parse(Slice(buffer, length), 1) ==
            if 8 + buffer[7] as int > |buffer| then None
            else Parsed([Object(buffer[6], buffer[8..8 + buffer[7] as int])], 8 + buffer[7] as int)
  {
    assert Parse(Slice(buffer, length), 0) == Parsed([], LIST_START);
    ParseNext(Slice(buffer, length), 0);
  }

  lemma StoredOne(id: byte, value: seq<byte>)
    ensures Stored([Object(id, value)]) == map[id := value]
  {
    assert [Object(id, value)][..0] == [];
  }

  /** A reply laid out as the standard says, with at most 255 objects, is read back and used up exactly. */
  lemma ConformingReplyRead(header: seq<byte>, objects: seq<Object>, behind: seq<byte>)
    requires |header| == 5 && header[2] in {0x01, 0x02, 0x03, 0x81, 0x82, 0x83} && |objects| < 0x100 && Fit(objects)
    ensures var data := header + [|objects|] + Layout(objects);
            Identify(Slice(data + behind, |data|))
            == Ok(Identity(header[2], if header[3] == 0xFF then header[4] else 0, Stored(objects), |data|))
  {
    WholeWithin(objects);
    hide Layout, Parse, Stored, Fit, HeadsWithin;
    var count: byte := |objects|;
    var start := header + [count];
    var data := start + Layout(objects);
    LayoutIsParsed(start, objects, behind, |data|);
    assert data + behind == start + (Layout(objects) + behind);
  }

  lemma WholeWithin(objects: seq<Object>)
    ensures HeadsWithin(objects, LIST_START + |Layout(objects)|)
  {
    hide Layout, ObjectBytes;
    if objects != [] {
      var init, o := objects[..|objects| - 1], objects[|objects| - 1];
      assert objects == init + [o];
      LayoutSnoc(init, o);
      ObjectSize(o);
    }
  }
}
