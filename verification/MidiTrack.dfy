/** What write-short-event and write-track put into a track, and what read-event makes
    of a track (src/midifile.lisp:473-500, 646-749, 804-902), for channel
    messages. Times are in pulses. */
module MidiTrack {
  import opened Bytes
  import opened MidiVlq

  const META := 0xff
  const END_OF_TRACK := 0x2f

  /** A channel message of two or three bytes; data2 is zero if it is not sent. */
  datatype Message = Message(status: byte, data1: byte, data2: byte)

  datatype Timed = Timed(time: nat, message: Message)

  /** Program change and channel pressure have one data byte. */
  function Length(status: byte): (n: nat)
    ensures 2 <= n <= 3
  {
    if 0xc0 <= status <= 0xdf then 2 else 3
  }

  predicate WellFormed(m: Message) {
    && 0x80 <= m.status < 0xf0 && m.data1 < 0x80 && m.data2 < 0x80
    && (Length(m.status) == 2 ==> m.data2 == 0)
  }

  function Octets(m: Message): (s: seq<byte>)
    ensures |s| == Length(m.status) && s[0] == m.status
  {
    if Length(m.status) == 2 then [m.status, m.data1] else [m.status, m.data1, m.data2]
  }

  /* Writing */

  /** The state of the writer: the last status byte and the track time. */
  datatype Out = Out(last: byte, time: nat)

  /** The bytes of an event without its time: under running status the status byte
      is left out. */
  function Body(last: byte, octets: seq<byte>): seq<byte>
    requires octets != []
  {
    if octets[0] == last && last < 0xf0 then octets[1..] else octets
  }

  /** A late event is added with delta time zero. */
  function Delta(time: nat, at: nat): nat {
    if at > time then at - time else 0
  }

  function EventBytes(o: Out, at: nat, octets: seq<byte>): seq<byte>
    requires octets != []
  {
    Vlq(Delta(o.time, at)) + Body(o.last, octets)
  }

  function After(o: Out, at: nat, octets: seq<byte>): Out
    requires octets != []
  {
    Out(octets[0], o.time + Delta(o.time, at))
  }

  function EndBytes(o: Out): seq<byte> {
    EventBytes(o, 0, [META, END_OF_TRACK, 0])
  }

  /** The track data of some events and the End Of Track event. */
  function TrackData(o: Out, events: seq<Timed>): seq<byte>
    decreases |events|
  {
    if events == [] then EndBytes(o)
    else
      var octets := Octets(events[0].message);
      EventBytes(o, events[0].time, octets) + TrackData(After(o, events[0].time, octets), events[1..])
  }

  /** The events at the times that are stored: none before its predecessor. */
  function Clamped(time: nat, events: seq<Timed>): seq<Timed>
    decreases |events|
  {
    if events == [] then []
    else
      var at := time + Delta(time, events[0].time);
      [Timed(at, events[0].message)] + Clamped(at, events[1..])
  }

  /** The stored time of an event is the largest of the start and the times of the
      events up to it. */
  ghost predicate LatestSoFar(time: nat, events: seq<Timed>, i: nat, at: nat)
    requires i < |events|
  {
    && at >= time && (forall j :: 0 <= j <= i ==> at >= events[j].time)
    && (at == time || exists j :: 0 <= j <= i && at == events[j].time)
  }

  lemma {:induction false} ClampedAt(time: nat, events: seq<Timed>, i: nat)
    requires i < |events|
    ensures |Clamped(time, events)| == |events|
    ensures Clamped(time, events)[i].message == events[i].message
    ensures LatestSoFar(time, events, i, Clamped(time, events)[i].time)
    decreases |events|
  {
    var at := time + Delta(time, events[0].time);
    var rest := events[1..];
    ClampedLength(at, rest);
    if i > 0 {
      ClampedAt(at, rest, i - 1);
      LatestStep(time, events, i, at, Clamped(at, rest)[i - 1].time);
    } else {
      assert at == events[0].time || at == time;
    }
  }

  lemma {:induction false} ClampedLength(time: nat, events: seq<Timed>)
    ensures |Clamped(time, events)| == |events|
    decreases |events|
  {
    if events != [] {
      ClampedLength(time + Delta(time, events[0].time), events[1..]);
    }
  }

  lemma LatestStep(time: nat, events: seq<Timed>, i: nat, first: nat, at: nat)
    requires 0 < i < |events| && first >= time && first >= events[0].time
    requires first == time || first == events[0].time
    requires LatestSoFar(first, events[1..], i - 1, at)
    ensures LatestSoFar(time, events, i, at)
  {
    forall j | 0 <= j <= i
      ensures at >= events[j].time
    {
      if j > 0 {
        assert events[j] == events[1..][j - 1];
      }
    }
    if at != first {
      var j :| 0 <= j <= i - 1 && at == events[1..][j].time;
      assert at == events[j + 1].time;
    } else if at != time {
      assert at == events[0].time;
    }
  }

  /** Events whose times never decrease are stored as they are. */
  lemma {:induction false} ClampedSame(time: nat, events: seq<Timed>)
    requires forall i, j :: 0 <= i < j < |events| ==> events[i].time <= events[j].time
    requires events != [] ==> time <= events[0].time
    ensures Clamped(time, events) == events
    decreases |events|
  {
    if events != [] {
      ClampedSame(events[0].time, events[1..]);
    }
  }

  /** What is written at the end of a track. */
  lemma EndBytesAre(o: Out)
    ensures EndBytes(o) == [0x00, 0xff, 0x2f, 0x00]
  {
    assert Vlq(0) == [0];
  }

  /* Reading */

  /** The state of the reader: the bytes to come, the length that is left of the
      track, the message buffer, the length of the last message and the time. */
  datatype In = In(s: seq<byte>, remain: nat, b0: byte, b1: byte, b2: byte, len: nat, time: nat)

  datatype Problem = Truncated | InvalidQuantity | WrongLength | InvalidRunningStatus

  datatype Outcome = NoMore | Got(i: In) | End(i: In) | Other(i: In) | Failed(p: Problem)

  /** read-event */
  function ReadEvent(i: In): Outcome {
    if i.remain == 0 then NoMore
    else
      match ReadVlq(i.s, 0, 1)
      case EndOfFile => Failed(Truncated)
      case TooLong(_) => Failed(InvalidQuantity)
      case Value(delta, bytes) =>
        if bytes < i.remain && bytes <= |i.s|
        then ReadMessage(i.(s := i.s[bytes..], remain := i.remain - bytes, time := i.time + delta))
        else Failed(WrongLength)
  }

  /** The part of read-event behind the delta time. */
  function ReadMessage(i: In): Outcome {
    if i.s == [] then Failed(Truncated)
    else if i.s[0] < 0x80 then ContinueRunning(i.(b1 := i.s[0], s := i.s[1..]))
    else
      var j := i.(b0 := i.s[0], s := i.s[1..]);
      if j.b0 >= 0xf0 then MetaOrSysex(j)
      else if Length(j.b0) == 2 then
        if j.s == [] then Failed(Truncated)
        else Counted(j.(b1 := j.s[0], s := j.s[1..], len := 2), 2)
      else ThreeBytes(j)
  }

  /** read-sequence stops at the end of the file without an error. */
  function ThreeBytes(j: In): Outcome {
    if |j.s| == 0 then Counted(j.(len := 1), 1)
    else if |j.s| == 1 then Counted(j.(b1 := j.s[0], s := [], len := 2), 2)
    else Counted(j.(b1 := j.s[0], b2 := j.s[1], s := j.s[2..], len := 3), 3)
  }

  function ContinueRunning(i: In): Outcome {
    if i.b0 >= 0xf0 then Failed(InvalidRunningStatus)
    else if i.b0 < 0xc0 || i.b0 > 0xdf then
      if i.s == [] then Failed(Truncated)
      else Counted(i.(b2 := i.s[0], s := i.s[1..]), i.len - 1)
    else Counted(i, i.len - 1)
  }

  /** End Of Track is recognised; other meta events and system exclusive messages
      are not part of this model. */
  function MetaOrSysex(i: In): Outcome {
    if i.b0 != META then Other(i)
    else if i.s == [] then Failed(Truncated)
    else if i.s[0] != END_OF_TRACK then Other(i.(b1 := i.s[0], s := i.s[1..]))
    else if |i.s| == 1 then Failed(Truncated)
    else if i.remain < 3 then Failed(WrongLength)
    else End(i.(b1 := i.s[0], b2 := i.s[1], s := i.s[2..], len := 3, remain := i.remain - 3))
  }

  /** The byte counters after a message of the given size. */
  function Counted(i: In, size: int): Outcome {
    if 0 <= size < i.remain then Got(i.(remain := i.remain - size)) else Failed(WrongLength)
  }

  /** The message in the buffer. */
  function Received(i: In): Timed {
    Timed(i.time, Message(i.b0, i.b1, if Length(i.b0) == 2 then 0 else i.b2))
  }

  /** All events up to End Of Track, and the state of the reader there. */
  function ReadTrack(i: In): (r: (seq<Timed>, Outcome))
    decreases i.remain
  {
    match ReadEvent(i)
    case Got(j) =>
      if j.remain < i.remain then
        var rest := ReadTrack(j);
        ([Received(j)] + rest.0, rest.1)
      else ([], NoMore)
    case outcome => ([], outcome)
  }

  /** One event of a track that ends at End Of Track. */
  lemma TrackStep(i: In)
    requires ReadTrack(i).1.End?
    ensures ReadEvent(i).Got? ==> var j := ReadEvent(i).i;
      j.remain < i.remain && ReadTrack(i).0 == [Received(j)] + ReadTrack(j).0 && ReadTrack(j).1.End?
    ensures !ReadEvent(i).Got? ==> ReadEvent(i).End? && ReadTrack(i).0 == []
  {
    hide ReadEvent, Received;
  }

  /** The next event was read, with n bytes in all; the track has to go on behind it. */
  ghost predicate Took(i: In, n: int) {
    if 0 <= n < i.remain && n <= |i.s|
    then ReadEvent(i).Got? && ReadEvent(i).i.s == i.s[n..] && ReadEvent(i).i.remain == i.remain - n
    else ReadEvent(i) == Failed(WrongLength)
  }

  /** How many bytes a channel message takes behind the k bytes of its delta time: three
      with its status byte, two for program change and channel pressure, and one less
      under running status, which other messages do not have. */
  lemma DataBytes(i: In, delta: nat, k: nat)
    requires ReadVlq(i.s, 0, 1) == Value(delta, k) && k + 3 <= |i.s| && k < i.remain
    ensures 0x80 <= i.s[k] < 0xc0 || 0xe0 <= i.s[k] < 0xf0 ==> Took(i, k + 3)
    ensures 0xc0 <= i.s[k] < 0xe0 ==> Took(i, k + 2)
    ensures i.s[k] < 0x80 && (0x80 <= i.b0 < 0xc0 || 0xe0 <= i.b0 < 0xf0) && i.len == 3 ==> Took(i, k + 2)
    ensures i.s[k] < 0x80 && 0xc0 <= i.b0 < 0xe0 && i.len == 2 ==> Took(i, k + 1)
    ensures i.s[k] < 0x80 && i.b0 >= 0xf0 ==> ReadEvent(i) == Failed(InvalidRunningStatus)
  {
    hide ReadVlq;
    var t := i.s[k..];
    assert t[0] == i.s[k] && t[1..] == i.s[k + 1..] && t[1..][1..] == i.s[k + 2..] && t[1..][2..] == i.s[k + 3..];
  }

  /** How reading the track goes on after one event. */
  lemma TrackEnds(i: In)
    ensures ReadEvent(i).Got? && ReadEvent(i).i.remain < i.remain ==> ReadTrack(i).1 == ReadTrack(ReadEvent(i).i).1
    ensures !ReadEvent(i).Got? ==> ReadTrack(i).1 == ReadEvent(i)
  {
    hide ReadEvent, Received;
  }

  /* Round trip */

  /** The reader is where the writer was. */
  ghost predicate InStep(o: Out, i: In) {
    i.time == o.time && SameStatus(o.last, i)
  }

  ghost predicate SameStatus(last: byte, i: In) {
    0x80 <= last < 0xf0 ==> i.b0 == last && i.len == Length(last)
  }

  lemma Cut(a: seq<byte>, b: seq<byte>, c: seq<byte>)
    ensures (a + b) + c == a + (b + c) && (a + (b + c))[|a|..] == b + c
  {
  }

  lemma Front(x: byte, s: seq<byte>)
    ensures ([x] + s)[0] == x && ([x] + s)[1..] == s
  {
  }

  lemma OctetsAre(m: Message, rest: seq<byte>)
    ensures Octets(m) + rest == [m.status] + (Octets(m)[1..] + rest)
    ensures Octets(m)[1..] + rest == [m.data1] + (if Length(m.status) == 2 then rest else [m.data2] + rest)
  {
  }

  /** The reader takes the data bytes of a message from the front. */
  lemma ReadRunning(i: In, m: Message, rest: seq<byte>)
    requires WellFormed(m) && i.b0 == m.status && i.len == Length(m.status) && rest != []
    requires i.s == Octets(m)[1..] + rest && Length(m.status) - 1 < i.remain
    ensures ReadMessage(i) ==
      Got(i.(s := rest, remain := i.remain - (Length(m.status) - 1), b1 := m.data1,
             b2 := if Length(m.status) == 2 then i.b2 else m.data2))
  {
    OctetsAre(m, rest);
    hide Octets;
    Front(m.data1, if Length(m.status) == 2 then rest else [m.data2] + rest);
    Front(m.data2, rest);
  }

  lemma ReadWhole(i: In, m: Message, rest: seq<byte>)
    requires WellFormed(m) && rest != []
    requires i.s == Octets(m) + rest && Length(m.status) < i.remain
    ensures ReadMessage(i) ==
      Got(i.(s := rest, remain := i.remain - Length(m.status), b0 := m.status, b1 := m.data1,
             b2 := (if Length(m.status) == 2 then i.b2 else m.data2), len := Length(m.status)))
  {
    OctetsAre(m, rest);
    Front(m.status, Octets(m)[1..] + rest);
    hide Octets;
    Front(m.data1, if Length(m.status) == 2 then rest else [m.data2] + rest);
    Front(m.data2, rest);
    if Length(m.status) == 3 {
      assert ([m.data1] + ([m.data2] + rest))[2..] == rest;
    }
  }

  lemma ReadBody(o: Out, i: In, m: Message, rest: seq<byte>)
    requires SameStatus(o.last, i) && WellFormed(m) && rest != []
    requires i.s == Body(o.last, Octets(m)) + rest && |Body(o.last, Octets(m))| < i.remain
    ensures ReadMessage(i).Got?
    ensures var j := ReadMessage(i).i;
      j.s == rest && j.remain == i.remain - |Body(o.last, Octets(m))| && j.time == i.time &&
      SameStatus(m.status, j) && Received(j) == Timed(j.time, m)
  {
    hide ReadMessage, Octets, Length;
    if m.status == o.last {
      ReadRunning(i, m, rest);
    } else {
      ReadWhole(i, m, rest);
    }
  }

  lemma ReadOne(o: Out, i: In, e: Timed, rest: seq<byte>)
    requires InStep(o, i) && WellFormed(e.message) && rest != [] && Delta(o.time, e.time) < 0x8_0000_0000
    requires i.s == EventBytes(o, e.time, Octets(e.message)) + rest && |EventBytes(o, e.time, Octets(e.message))| < i.remain
    ensures ReadEvent(i).Got?
    ensures Received(ReadEvent(i).i).time == if e.time > o.time then e.time else o.time
    ensures var j, o' := ReadEvent(i).i, After(o, e.time, Octets(e.message));
      j.s == rest && j.remain == i.remain - |EventBytes(o, e.time, Octets(e.message))| < i.remain && InStep(o', j)
      && Received(j) == Timed(o'.time, e.message)
  {
    hide ReadVlq, Vlq, ReadMessage, Body, Octets, WellFormed, Received, Length, VlqBytes, SameStatus;
    var d, body := Delta(o.time, e.time), Body(o.last, Octets(e.message));
    Cut(Vlq(d), body, rest);
    VlqRoundTrip(d, body + rest);
    var k := VlqBytes(d);
    var i' := i.(s := i.s[k..], remain := i.remain - k, time := i.time + d);
    SameAfter(o.last, i, i');
    ReadBody(o, i', e.message, rest);
  }

  lemma SameAfter(last: byte, i: In, j: In)
    requires SameStatus(last, i) && i.b0 == j.b0 && i.len == j.len
    ensures SameStatus(last, j)
  {
  }

  lemma ReadEnd(o: Out, i: In, rest: seq<byte>)
    requires i.s == EndBytes(o) + rest && i.remain == |EndBytes(o)|
    ensures ReadEvent(i).End? && ReadEvent(i).i.remain == 0 && ReadEvent(i).i.s == rest
  {
    var octets := [META, END_OF_TRACK, 0];
    VlqRoundTrip(0, octets + rest);
    assert Vlq(0) == [0];
    assert i.s[1..] == octets + rest;
    hide ReadVlq, Vlq;
  }

  /** No delta of the track is too long for the reader. */
  ghost predicate DeltasFit(time: nat, events: seq<Timed>)
    decreases |events|
  {
    events == [] || (Delta(time, events[0].time) < 0x8_0000_0000
                     && DeltasFit(time + Delta(time, events[0].time), events[1..]))
  }

  ghost predicate AllWellFormed(events: seq<Timed>) {
    forall i :: 0 <= i < |events| ==> WellFormed(events[i].message)
  }

  lemma DataNotEmpty(o: Out, events: seq<Timed>)
    ensures TrackData(o, events) != []
  {
  }

  /** Reading a written track gives the same messages at the same times, except that
      late events come at the time of their predecessor; it ends at End Of Track
      with no byte of the track left, whatever follows in the file. */
  lemma {:induction false} TrackRoundTrip(o: Out, i: In, events: seq<Timed>, rest: seq<byte>)
    requires InStep(o, i) && AllWellFormed(events) && DeltasFit(o.time, events)
    requires i.s == TrackData(o, events) + rest && i.remain == |TrackData(o, events)|
    ensures var r := ReadTrack(i);
      r.0 == Clamped(o.time, events) && r.1.End? && r.1.i.remain == 0 && r.1.i.s == rest
    decreases |events|
  {
    hide ReadEvent, EventBytes, EndBytes, Received, Octets, WellFormed, Length;
    if events == [] {
      ReadEnd(o, i, rest);
    } else {
      var e, octets := events[0], Octets(events[0].message);
      var o' := After(o, e.time, octets);
      var tail := TrackData(o', events[1..]);
      DataNotEmpty(o', events[1..]);
      Cut(EventBytes(o, e.time, octets), tail, rest);
      ReadOne(o, i, e, tail + rest);
      TrackRoundTrip(o', ReadEvent(i).i, events[1..], rest);
    }
  }

  /** If a delta time does not fit, the reader stops with an error there. */
  lemma {:induction false} LongDeltaFails(o: Out, i: In, events: seq<Timed>, rest: seq<byte>)
    requires InStep(o, i) && AllWellFormed(events) && !DeltasFit(o.time, events)
    requires i.s == TrackData(o, events) + rest && i.remain == |TrackData(o, events)|
    ensures ReadTrack(i).1 == Failed(InvalidQuantity)
    decreases |events|
  {
    hide ReadEvent, EventBytes, Octets, Received, WellFormed, EndBytes, Length, ReadTrack;
    hide DeltasFit, TrackData, AllWellFormed;
    FirstEvent(o, events);
    var e := events[0];
    var o' := After(o, e.time, Octets(e.message));
    var tail := TrackData(o', events[1..]);
    DataNotEmpty(o', events[1..]);
    Cut(EventBytes(o, e.time, Octets(e.message)), tail, rest);
    TrackEnds(i);
    if Delta(o.time, e.time) < 0x8_0000_0000 {
      ReadOne(o, i, e, tail + rest);
      LongDeltaFails(o', ReadEvent(i).i, events[1..], rest);
    } else {
      LongDelta(o, i, e, tail + rest);
    }
  }

  /** The definitions over a list of events, for its first one. */
  lemma FirstEvent(o: Out, events: seq<Timed>)
    requires AllWellFormed(events) && !DeltasFit(o.time, events)
    ensures events != [] && WellFormed(events[0].message) && AllWellFormed(events[1..])
    ensures var e := events[0];
      var o' := After(o, e.time, Octets(e.message));
      && TrackData(o, events) == EventBytes(o, e.time, Octets(e.message)) + TrackData(o', events[1..])
      && (Delta(o.time, e.time) < 0x8_0000_0000 ==> !DeltasFit(o'.time, events[1..]))
  {
    hide EventBytes, WellFormed;
  }

  lemma LongDelta(o: Out, i: In, e: Timed, rest: seq<byte>)
    requires Delta(o.time, e.time) >= 0x8_0000_0000 && i.remain > 0
    requires i.s == EventBytes(o, e.time, Octets(e.message)) + rest
    ensures ReadEvent(i) == Failed(InvalidQuantity)
  {
    hide ReadVlq, Vlq, ReadMessage, Body, Octets;
    var d, body := Delta(o.time, e.time), Body(o.last, Octets(e.message));
    Cut(Vlq(d), body, rest);
    VlqRoundTrip(d, body + rest);
  }

  /* A track in parts */

  /** The track data without the End Of Track event, and the state behind it. */
  function EventsData(o: Out, events: seq<Timed>): seq<byte>
    decreases |events|
  {
    if events == [] then []
    else
      var octets := Octets(events[0].message);
      EventBytes(o, events[0].time, octets) + EventsData(After(o, events[0].time, octets), events[1..])
  }

  function Final(o: Out, events: seq<Timed>): Out
    decreases |events|
  {
    if events == [] then o
    else Final(After(o, events[0].time, Octets(events[0].message)), events[1..])
  }

  lemma {:induction false} TrackParts(o: Out, events: seq<Timed>)
    ensures TrackData(o, events) == EventsData(o, events) + EndBytes(Final(o, events))
    decreases |events|
  {
    hide EventBytes, EndBytes;
    if events != [] {
      var octets := Octets(events[0].message);
      TrackParts(After(o, events[0].time, octets), events[1..]);
    }
  }

  /** One more event at the end. */
  lemma {:induction false} EventsAppend(o: Out, events: seq<Timed>, e: Timed)
    ensures EventsData(o, events + [e]) == EventsData(o, events) + EventBytes(Final(o, events), e.time, Octets(e.message))
    ensures Final(o, events + [e]) == After(Final(o, events), e.time, Octets(e.message))
    decreases |events|
  {
    hide EventBytes;
    if events == [] {
      assert (events + [e])[1..] == [];
    } else {
      var octets := Octets(events[0].message);
      assert (events + [e])[1..] == events[1..] + [e];
      EventsAppend(After(o, events[0].time, octets), events[1..], e);
    }
  }
}
