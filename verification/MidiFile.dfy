/** The track writer and the track reader of MIDI files (src/midifile.lisp:473-500,
    646-749, 804-902). The file stream is a sequence of bytes. */
module MidiFile {
  import opened Bytes
  import opened MidiTrack
  import opened MidiVlq
  import opened PowersOfTwo

  const EXPAND := 4000
  /** MTrk */
  const TRACK_TYPE := 0x4d54_726b

  /** (ldb (byte 8 pos) value) for pos = 0, 8, ..: a short message is encoded with its
      status in the lowest byte. */
  function ShortOctets(value: nat, size: nat): (s: seq<byte>)
    ensures |s| == size
  {
    if size == 0 then [] else [value % 256] + ShortOctets(value / 256, size - 1)
  }

  /** message */
  function Encode(m: Message): nat {
    m.status + 256 * m.data1 + 65536 * m.data2
  }

  lemma EncodeOctets(m: Message)
    ensures ShortOctets(Encode(m), Length(m.status)) == Octets(m)
  {
    var v := Encode(m);
    assert v == m.status + 256 * (m.data1 + 256 * m.data2);
    RemainderIs(v, 256, m.data1 + 256 * m.data2, m.status);
    RemainderIs(v / 256, 256, m.data2, m.data1);
    assert ShortOctets(v / 256 / 256, 1) == [m.data2 % 256];
    assert ShortOctets(v / 256, 1) == [v / 256 % 256];
  }

  /** write-four-bytes: most significant first. */
  function BigEndian(n: nat): (s: seq<byte>)
    ensures |s| == 4
  {
    [n / 0x100_0000 % 256, n / 0x1_0000 % 256, n / 0x100 % 256, n % 256]
  }

  /** read-four-bytes */
  function FourBytesOf(s: seq<byte>): nat
    requires |s| >= 4
  {
    var a: nat, b: nat, c: nat, d: nat := s[0], s[1], s[2], s[3];
    (a * 0x100 + b) * 0x1_0000 + (c * 0x100 + d)
  }

  /** The four bytes hold a number exactly if it is below 2^32. */
  lemma FourBytesRoundTrip(n: nat, rest: seq<byte>)
    ensures FourBytesOf(BigEndian(n) + rest) == n % 0x1_0000_0000
  {
    var a, b, c, d := n / 0x100_0000 % 256, n / 0x1_0000 % 256, n / 0x100 % 256, n % 256;
    assert n / 0x100 / 0x100 == n / 0x1_0000 && n / 0x1_0000 / 0x100 == n / 0x100_0000;
    assert n / 0x100 == n / 0x1_0000 * 256 + c && n / 0x1_0000 == n / 0x100_0000 * 256 + b;
    assert n / 0x100_0000 == n / 0x1_0000_0000 * 256 + a;
  }

  /** A chunk of a file: its type, the length of its data, and the data. */
  function Chunk(kind: nat, data: seq<byte>): seq<byte> {
    BigEndian(kind) + (BigEndian(|data|) + data)
  }

  lemma ChunkIs(kind: nat, data: seq<byte>)
    ensures Chunk(kind, data) == BigEndian(kind) + (BigEndian(|data|) + data)
  {
  }

  /** The bytes of a track chunk: its type in letters, and its length, most significant
      byte first. */
  lemma ChunkBytes(data: seq<byte>)
    requires |data| < 0x1_0000_0000
    ensures var c := Chunk(TRACK_TYPE, data);
      && |c| == 8 + |data| && c[..4] == [0x4d, 0x54, 0x72, 0x6b] && c[8..] == data
      && c[4] as int * 0x100_0000 + c[5] as int * 0x1_0000 + c[6] as int * 0x100 + c[7] as int == |data|
  {
    ChunkHeader(TRACK_TYPE, data, []);
    var c := Chunk(TRACK_TYPE, data);
    assert c + [] == c;
    assert c[..4] == BigEndian(TRACK_TYPE) == [0x4d, 0x54, 0x72, 0x6b];
  }

  /** What %next-track finds: the length of a track and what is behind the chunk
      header, or the end of the file. */
  datatype Found = Track(size: nat, rest: seq<byte>) | NoTrack

  /** %next-track: after `offset` bytes that are left over, chunks that are not tracks
      are skipped, by the lengths that they state. */
  function FindTrack(s: seq<byte>, offset: nat): Found
    decreases |s|
  {
    if |s| < offset + 8 then NoTrack
    else
      var head := s[offset..];
      if FourBytesOf(head) == TRACK_TYPE then Track(FourBytesOf(head[4..]), head[8..])
      else FindTrack(head[8..], FourBytesOf(head[4..]))
  }

  lemma ChunkHeader(kind: nat, data: seq<byte>, rest: seq<byte>)
    requires kind < 0x1_0000_0000 && |data| < 0x1_0000_0000
    ensures var s := Chunk(kind, data) + rest;
      |s| >= 8 && FourBytesOf(s) == kind && FourBytesOf(s[4..]) == |data| && s[8..] == data + rest
  {
    hide BigEndian, FourBytesOf;
    var s := Chunk(kind, data) + rest;
    assert s == BigEndian(kind) + (BigEndian(|data|) + (data + rest));
    FourBytesRoundTrip(kind, BigEndian(|data|) + (data + rest));
    assert s[4..] == BigEndian(|data|) + (data + rest);
    FourBytesRoundTrip(|data|, data + rest);
  }

  /** Bytes that are left over do not matter. */
  lemma FoundBehind(a: seq<byte>, s: seq<byte>)
    ensures FindTrack(a + s, |a|) == FindTrack(s, 0)
  {
    assert (a + s)[|a|..] == s && s[0..] == s;
  }

  /** Whatever is left of a track and whatever chunks of other types come before it,
      the next track is found, with its length. */
  lemma {:induction false} TrackFound(left: seq<byte>, others: seq<(nat, seq<byte>)>, data: seq<byte>, rest: seq<byte>)
    requires forall i :: 0 <= i < |others| ==> OtherChunk(others[i])
    requires |data| < 0x1_0000_0000
    ensures FindTrack(left + (Chunks(others) + (Chunk(TRACK_TYPE, data) + rest)), |left|) == Track(|data|, data + rest)
    decreases |others|
  {
    hide Chunk, FourBytesOf;
    var track := Chunk(TRACK_TYPE, data) + rest;
    FoundBehind(left, Chunks(others) + track);
    if others == [] {
      ChunkHeader(TRACK_TYPE, data, rest);
      assert Chunks(others) + track == track && track[0..] == track;
    } else {
      var c := others[0];
      var tail := Chunks(others[1..]) + track;
      ChunkHeader(c.0, c.1, tail);
      assert Chunks(others) + track == Chunk(c.0, c.1) + tail;
      assert (Chunks(others) + track)[0..] == Chunk(c.0, c.1) + tail;
      TrackFound(c.1, others[1..], data, rest);
    }
  }

  ghost predicate OtherChunk(c: (nat, seq<byte>)) {
    c.0 < 0x1_0000_0000 && c.0 != TRACK_TYPE && |c.1| < 0x1_0000_0000
  }

  function Chunks(chunks: seq<(nat, seq<byte>)>): seq<byte> {
    if chunks == [] then [] else Chunk(chunks[0].0, chunks[0].1) + Chunks(chunks[1..])
  }

  class TrackWriter {
    var buffer: array<byte>
    var bufferIndex: nat
    var lastStatus: byte
    var trackTime: nat

    ghost predicate Valid()
      reads this
    {
      bufferIndex <= buffer.Length && buffer.Length >= 16
    }

    /** What was written since the start of the track. */
    ghost function Data(): seq<byte>
      requires Valid()
      reads this, buffer
    {
      buffer[..bufferIndex]
    }

    ghost function State(): Out
      reads this
    {
      Out(lastStatus, trackTime)
    }

    constructor (bufferSize: nat)
      ensures Valid() && Data() == [] && State() == Out(0, 0) && fresh(buffer)
    {
      buffer := new byte[if bufferSize > 16 then bufferSize else 16](_ => 0);
      bufferIndex := 0;
      lastStatus := 0;
      trackTime := 0;
    }

    /** The size of the buffer after ensure-buffer-space. */
    function Room(eventSize: nat): (n: nat)
      requires Valid()
      reads this
      ensures eventSize < EXPAND ==> bufferIndex + eventSize + 1 <= n
    {
      if bufferIndex + eventSize + 1 > buffer.Length then buffer.Length + EXPAND else buffer.Length
    }

    /** ensure-buffer-space: the buffer grows by a fixed amount. */
    method EnsureBufferSpace(eventSize: nat)
      requires Valid()
      modifies this`buffer
      ensures Valid() && Data() == old(Data()) && (buffer == old(buffer) || fresh(buffer))
      ensures buffer.Length == old(Room(eventSize))
    {
      var size := buffer.Length;
      if bufferIndex + eventSize + 1 > size {
        var larger := new byte[size + EXPAND](_ => 0);
        var i: nat := 0;
        while i < size
          modifies larger
          invariant i <= size && larger[..i] == buffer[..i]
        {
          larger[i] := buffer[i];
          i := i + 1;
        }
        assert larger[..bufferIndex] == larger[..size][..bufferIndex];
        buffer := larger;
      }
    }

    /** write-delta-time */
    method WriteDeltaTime(pulses: nat, start: nat) returns (end: nat)
      requires start + VlqBytes(pulses) <= buffer.Length
      modifies buffer
      ensures end == start + VlqBytes(pulses)
      ensures buffer[..end] == old(buffer[..start]) + Vlq(pulses)
    {
      hide IntegerLength, Digits;
      var eventTimeBytes := VlqBytes(pulses);
      var i, pos: nat := start, (eventTimeBytes - 1) * 7;
      while pos != 0
        invariant start <= i < start + eventTimeBytes && pos == 7 * (start + eventTimeBytes - i - 1)
        invariant buffer[..i] + Digits(pulses, start + eventTimeBytes - i) == old(buffer[..start]) + Vlq(pulses)
        decreases pos
      {
        var k := start + eventTimeBytes - i;
        DigitStep(pulses, k);
        ghost var s := buffer[..i];
        buffer[i] := 0x80 + pulses / Pow2(pos) % 128;
        assert buffer[..i + 1] == s + [0x80 + pulses / Pow2(pos) % 128];
        i := i + 1;
        pos := pos - 7;
      }
      LastDigit(pulses);
      ghost var s := buffer[..i];
      buffer[i] := pulses % 128;
      assert buffer[..i + 1] == s + [pulses % 128];
      end := start + eventTimeBytes;
    }

    /** write-event-time, for the absolute time `at`. */
    method WriteEventTime(at: nat) returns (index: nat)
      requires Valid() && bufferIndex + VlqBytes(Delta(trackTime, at)) <= buffer.Length
      modifies this`trackTime, buffer
      ensures Valid() && trackTime == if at > old(trackTime) then at else old(trackTime)
      ensures index == bufferIndex + VlqBytes(if at > old(trackTime) then at - old(trackTime) else 0)
      ensures buffer[..index] == old(Data()) + Vlq(if at > old(trackTime) then at - old(trackTime) else 0)
    {
      hide VlqBytes, Vlq;
      var deltaTime := Delta(trackTime, at);
      trackTime := trackTime + deltaTime;
      index := WriteDeltaTime(deltaTime, bufferIndex);
    }

    /** short-message-to-octets */
    method ShortMessageToOctets(value: nat, start: nat, size: nat) returns (j: nat)
      requires start + size <= buffer.Length
      modifies buffer
      ensures j == start + size && buffer[..j] == old(buffer[..start]) + ShortOctets(value, size)
    {
      j := start;
      var v := value;
      while j < start + size
        invariant start <= j <= start + size
        invariant buffer[..j] + ShortOctets(v, start + size - j) == old(buffer[..start]) + ShortOctets(value, size)
      {
        ghost var s := buffer[..j];
        buffer[j] := v % 256;
        assert buffer[..j + 1] == s + [v % 256];
        v := v / 256;
        j := j + 1;
      }
    }

    /** write-short-event: under running status the status byte is left out; the event
        goes behind the others. The buffer grows if there is no room for nine bytes;
        a longer event has to fit the room that there is. */
    method WriteShortEvent(at: nat, msg: nat, size: nat)
      requires Valid() && 1 <= size <= 4
      requires bufferIndex + |EventBytes(State(), at, ShortOctets(msg, size))| <= Room(8)
      modifies this, buffer
      ensures Valid() && (buffer == old(buffer) || fresh(buffer))
      ensures Data() == old(Data()) + EventBytes(old(State()), at, ShortOctets(msg, size))
      ensures trackTime == (if at > old(trackTime) then at else old(trackTime)) && lastStatus == msg % 256
      ensures bufferIndex == old(bufferIndex) + VlqBytes(if at > old(trackTime) then at - old(trackTime) else 0)
                             + size - if msg % 256 == old(lastStatus) < 0xf0 then 1 else 0
      ensures State() == After(old(State()), at, ShortOctets(msg, size))
    {
      hide VlqBytes, Vlq;
      EnsureBufferSpace(8);
      var status := msg % 256;
      var m, n := msg, size;
      BodyOctets(lastStatus, msg, size);
      if status == lastStatus && status < 0xf0 {
        m := msg / 256;
        n := size - 1;
      } else {
        lastStatus := status;
      }
      hide Body, ShortOctets;
      PutEvent(at, m, n);
    }

    /** The end of write-short-event: the time and the remaining bytes. */
    method PutEvent(at: nat, msg: nat, size: nat)
      requires Valid() && bufferIndex + VlqBytes(Delta(trackTime, at)) + size <= buffer.Length
      modifies this`bufferIndex, this`trackTime, buffer
      ensures Valid() && trackTime == old(trackTime) + Delta(old(trackTime), at)
      ensures Data() == old(Data()) + (Vlq(Delta(old(trackTime), at)) + ShortOctets(msg, size))
    {
      hide VlqBytes, Vlq, ShortOctets;
      var index := WriteEventTime(at);
      bufferIndex := ShortMessageToOctets(msg, index, size);
    }

    /** end-of-track-p */
    predicate EndOfTrackP()
      requires Valid()
      reads this, buffer
    {
      lastStatus == META && bufferIndex > 2 && buffer[bufferIndex - 2] == END_OF_TRACK
    }

    /** end-of-track */
    method EndOfTrack() returns (len: nat)
      requires Valid()
      modifies this, buffer
      ensures Valid() && (buffer == old(buffer) || fresh(buffer)) && len == bufferIndex
      ensures Data() == old(Data()) + if old(EndOfTrackP()) then [] else [0x00, 0xff, 0x2f, 0x00]
    {
      EndBytesAre(State());
      if !EndOfTrackP() {
        EndMessage();
        FiveBytes(0);
        hide VlqBytes, Vlq;
        WriteShortEvent(0, 0x2fff, 3);
      }
      len := bufferIndex;
    }

    /** The data of the track when End Of Track has been added if necessary. */
    ghost function Whole(): seq<byte>
      requires Valid()
      reads this, buffer
    {
      Data() + if EndOfTrackP() then [] else [0x00, 0xff, 0x2f, 0x00]
    }

    /** write-track: the chunk with its length, and an empty track after it. The
        length has to be an (unsigned-byte 32). */
    method WriteTrack() returns (chunk: seq<byte>)
      requires Valid() && |Whole()| < 0x1_0000_0000
      modifies this, buffer
      ensures Valid() && (buffer == old(buffer) || fresh(buffer)) && Data() == [] && trackTime == 0
      ensures chunk == Chunk(TRACK_TYPE, old(Whole()))
      ensures |chunk| == 8 + |old(Whole())| && chunk[..4] == [0x4d, 0x54, 0x72, 0x6b] && chunk[8..] == old(Whole())
      ensures chunk[4] as int * 0x100_0000 + chunk[5] as int * 0x1_0000 + chunk[6] as int * 0x100 + chunk[7] as int
              == |old(Whole())|
    {
      hide BigEndian, EndBytes, Chunk;
      ChunkBytes(Whole());
      var len := EndOfTrack();
      chunk := BigEndian(TRACK_TYPE) + (BigEndian(len) + buffer[..bufferIndex]);
      ChunkIs(TRACK_TYPE, buffer[..bufferIndex]);
      trackTime := 0;
      bufferIndex := 0;
    }
  }

  /** What read-event reports: nothing left, an event with its status byte, End Of
      Track, an event outside this model, or an error. */
  datatype Report = Nothing | Event(status: byte) | EndOfTrackEvent | Unmodelled | Problem(p: MidiTrack.Problem)

  datatype Read = Byte(b: byte) | Eof

  class TrackReader {
    const file: seq<byte>
    var position: nat
    var trackBytesRemain: nat
    const buffer: array<byte>
    var lastMessageLength: nat
    var trackTime: nat

    ghost predicate Valid()
      reads this
    {
      position <= |file| && buffer.Length >= 8
    }

    ghost function State(): In
      requires Valid()
      reads this, buffer
    {
      In(file[position..], trackBytesRemain, buffer[0], buffer[1], buffer[2], lastMessageLength, trackTime)
    }

    /** A reader behind the header of the file. */
    constructor (file: seq<byte>, position: nat)
      requires position <= |file|
      ensures Valid() && fresh(buffer) && this.file == file
      ensures State() == In(file[position..], 0, 0, 0, 0, 0, 0)
    {
      this.file := file;
      this.position := position;
      trackBytesRemain := 0;
      buffer := new byte[8](_ => 0);
      lastMessageLength := 0;
      trackTime := 0;
    }

    method ReadByte() returns (r: Read)
      requires Valid()
      modifies this`position
      ensures Valid()
      ensures r.Eof? ==> old(file[position..]) == [] && position == old(position)
      ensures r.Byte? ==> old(file[position..]) == [r.b] + file[position..] && position == old(position) + 1
    {
      if position == |file| {
        r := Eof;
      } else {
        r := Byte(file[position]);
        position := position + 1;
      }
    }

    /** read-four-bytes; false means the end of the file. */
    method ReadFourBytes() returns (ok: bool, n: nat)
      requires Valid()
      modifies this`position
      ensures Valid() && ok == (|old(file[position..])| >= 4)
      ensures ok ==> n == FourBytesOf(old(file[position..])) && file[position..] == old(file[position..])[4..]
    {
      ok, n := true, 0;
      ghost var s := file[position..];
      var i: nat := 0;
      while i < 4
        invariant Valid() && i <= 4 && i <= |s| && file[position..] == s[i..]
        invariant i == 0 ==> n == 0
        invariant i == 1 ==> n == s[0]
        invariant i == 2 ==> n == s[0] as int * 0x100 + s[1]
        invariant i == 3 ==> n == (s[0] as int * 0x100 + s[1]) * 0x100 + s[2]
        invariant i == 4 ==> n == FourBytesOf(s)
      {
        var r := ReadByte();
        if r.Eof? {
          return false, 0;
        }
        n := n * 0x100 + r.b;
        i := i + 1;
      }
    }

    /** skip-bytes; false means the end of the file. */
    method SkipBytes(n: nat) returns (ok: bool)
      requires Valid()
      modifies this`position
      ensures Valid() && ok == (|old(file[position..])| >= n)
      ensures ok ==> file[position..] == old(file[position..])[n..]
    {
      ghost var s := file[position..];
      ok := true;
      var i: nat := 0;
      while i < n
        invariant Valid() && i <= n && i <= |s| && file[position..] == s[i..]
      {
        var r := ReadByte();
        if r.Eof? {
          return false;
        }
        i := i + 1;
      }
    }

    /** %next-track */
    method NextTrack(offset: nat) returns (ok: bool, size: nat)
      requires Valid()
      modifies this`position
      ensures Valid()
      ensures FindTrack(old(file[position..]), offset) == if ok then Track(size, file[position..]) else NoTrack
      decreases |file| - position
    {
      hide FourBytesOf;
      ghost var s := file[position..];
      ok := SkipBytes(offset);
      size := 0;
      if ok {
        var kind;
        ok, kind := ReadFourBytes();
        if ok {
          ok, size := ReadFourBytes();
          if ok {
            assert file[position..] == s[offset..][8..];
            if kind != TRACK_TYPE {
              ok, size := NextTrack(size);
            }
          }
        }
      }
    }

    /** The part of open that gets to the first track. */
    method FirstTrack() returns (ok: bool)
      requires Valid()
      modifies this`position, this`trackBytesRemain
      ensures Valid()
      ensures ok == FindTrack(old(file[position..]), 0).Track?
      ensures ok ==> var t := FindTrack(old(file[position..]), 0);
        State() == old(State()).(s := t.rest, remain := t.size)
    {
      hide FindTrack;
      var size;
      ok, size := NextTrack(0);
      if ok {
        trackBytesRemain := size;
      }
    }

    /** read-variable-length-quantity */
    method ReadVariableLengthQuantity() returns (q: Quantity)
      requires Valid()
      modifies this`position
      ensures Valid() && q == ReadVlq(old(file[position..]), 0, 1)
      ensures q.Value? ==> q.bytes <= |old(file[position..])| && file[position..] == old(file[position..])[q.bytes..]
    {
      ghost var s := file[position..];
      var bytes: nat, v: nat := 1, 0;
      var r := ReadByte();
      if r.Eof? {
        return EndOfFile;
      }
      var b := r.b;
      v := b % 128;
      while b >= 0x80
        invariant Valid() && 1 <= bytes <= |s| && file[position..] == s[bytes..]
        invariant b < 0x80 ==> ReadVlq(s, 0, 1) == Value(v, bytes)
        invariant b >= 0x80 && bytes > 4 ==> ReadVlq(s, 0, 1) == TooLong(bytes)
        invariant b >= 0x80 && bytes <= 4 ==> ReadVlq(s, 0, 1) == ReadVlq(s[bytes..], v, bytes + 1)
        decreases |file| - position, if b >= 0x80 then 1 else 0
      {
        if bytes > 4 {
          return TooLong(bytes);
        }
        r := ReadByte();
        if r.Eof? {
          return EndOfFile;
        }
        assert s[bytes..][0] == r.b && s[bytes..][1..] == s[bytes + 1..];
        bytes := bytes + 1;
        b := r.b;
        v := v * 128 + b % 128;
      }
      q := Value(v, bytes);
    }

    /** read-delta-time, when there is something left of the track. */
    method ReadDeltaTime() returns (p: Report)
      requires Valid() && trackBytesRemain > 0
      modifies this
      ensures Valid() && (p.Nothing? || p.Problem?)
      ensures p.Problem? ==> ReadEvent(old(State())) == Failed(p.p)
      ensures p.Nothing? ==> ReadEvent(old(State())) == ReadMessage(State())
    {
      hide ReadVlq, ReadMessage;
      var q := ReadVariableLengthQuantity();
      match q
      case EndOfFile => p := Problem(Truncated);
      case TooLong(_) => p := Problem(InvalidQuantity);
      case Value(deltaTime, bytes) =>
        if bytes < trackBytesRemain {
          trackBytesRemain := trackBytesRemain - bytes;
          trackTime := trackTime + deltaTime;
          p := Nothing;
        } else {
          p := Problem(WrongLength);
        }
    }

    /** The report fits the outcome, and the reader is in the state after it. */
    ghost predicate Agrees(r: Report, o: Outcome)
      requires Valid()
      reads this, buffer
    {
      match o
      case NoMore => r == Nothing
      case Got(i) => r == Event(i.b0) && State() == i
      case End(i) => r == EndOfTrackEvent && State() == i
      case Other(_) => r == Unmodelled
      case Failed(p) => r == Problem(p)
    }

    /** The last part of read-event. */
    method Count(size: int) returns (r: Report)
      requires Valid()
      modifies this`trackBytesRemain
      ensures Valid() && Agrees(r, Counted(old(State()), size))
    {
      if 0 <= size < trackBytesRemain {
        trackBytesRemain := trackBytesRemain - size;
        r := Event(buffer[0]);
      } else {
        r := Problem(WrongLength);
      }
    }

    /** continue-running-status */
    method ContinueRunningStatus() returns (r: Report)
      requires Valid()
      modifies this, buffer
      ensures Valid() && Agrees(r, ContinueRunning(old(State())))
    {
      hide Counted;
      var statusByte := buffer[0];
      if statusByte < 0xf0 {
        if statusByte < 0xc0 || statusByte > 0xdf {
          var b := ReadByte();
          if b.Eof? {
            return Problem(Truncated);
          }
          buffer[2] := b.b;
        }
        r := Count(lastMessageLength - 1);
      } else {
        r := Problem(InvalidRunningStatus);
      }
    }

    /** continue-midi-event-two-bytes */
    method ContinueTwoBytes() returns (r: Report)
      requires Valid()
      modifies this, buffer
      ensures Valid()
      ensures var j := old(State());
        Agrees(r, if j.s == [] then Failed(Truncated) else Counted(j.(b1 := j.s[0], s := j.s[1..], len := 2), 2))
    {
      hide Counted;
      var b := ReadByte();
      if b.Eof? {
        return Problem(Truncated);
      }
      buffer[1] := b.b;
      lastMessageLength := 2;
      r := Count(2);
    }

    /** continue-midi-event-three-bytes: read-sequence takes what there is. */
    method ContinueThreeBytes() returns (r: Report)
      requires Valid()
      modifies this, buffer
      ensures Valid() && Agrees(r, ThreeBytes(old(State())))
    {
      hide Counted;
      lastMessageLength := 1;
      var b := ReadByte();
      if b.Byte? {
        buffer[1] := b.b;
        lastMessageLength := 2;
        b := ReadByte();
        if b.Byte? {
          buffer[2] := b.b;
          lastMessageLength := 3;
        }
      }
      r := Count(lastMessageLength);
    }

    /** continue-meta-or-sysex, for End Of Track. */
    method ContinueMetaOrSysex() returns (r: Report)
      requires Valid()
      modifies this, buffer
      ensures Valid() && Agrees(r, MetaOrSysex(old(State())))
    {
      if buffer[0] != META {
        return Unmodelled;
      }
      var b := ReadByte();
      if b.Eof? {
        return Problem(Truncated);
      }
      buffer[1] := b.b;
      if b.b != END_OF_TRACK {
        return Unmodelled;
      }
      b := ReadByte();
      if b.Eof? {
        return Problem(Truncated);
      }
      buffer[2] := b.b;
      if trackBytesRemain < 3 {
        return Problem(WrongLength);
      }
      lastMessageLength := 3;
      trackBytesRemain := trackBytesRemain - 3;
      r := EndOfTrackEvent;
    }

    /** The status byte, or the first data byte under running status, and the rest of
        the message. */
    method ReadRest() returns (r: Report)
      requires Valid()
      modifies this, buffer
      ensures Valid() && Agrees(r, ReadMessage(old(State())))
    {
      hide ContinueRunning, MetaOrSysex, ThreeBytes, Counted;
      var b := ReadByte();
      if b.Eof? {
        return Problem(Truncated);
      }
      var status := b.b;
      buffer[if status < 0x80 then 1 else 0] := status;
      if status < 0x80 {
        r := ContinueRunningStatus();
      } else if status >= 0xf0 {
        r := ContinueMetaOrSysex();
      } else if 0xc0 <= status <= 0xdf {
        r := ContinueTwoBytes();
      } else {
        r := ContinueThreeBytes();
      }
    }

    /** read-event */
    method NextEvent() returns (r: Report)
      requires Valid()
      modifies this, buffer
      ensures Valid() && Agrees(r, ReadEvent(old(State())))
    {
      hide ReadMessage, Agrees;
      if trackBytesRemain > 0 {
        r := ReadDeltaTime();
        if r.Nothing? {
          r := ReadRest();
        } else {
          ProblemAgrees(r.p);
        }
      } else {
        r := Nothing;
        NothingAgrees();
      }
    }

    /** The event that was read last, from the message buffer. */
    function LastEvent(): (e: Timed)
      requires Valid()
      reads this, buffer
      ensures e == Received(State())
    {
      Timed(trackTime, Message(buffer[0], buffer[1], if Length(buffer[0]) == 2 then 0 else buffer[2]))
    }

    lemma ProblemAgrees(p: MidiTrack.Problem)
      requires Valid()
      ensures Agrees(Problem(p), Failed(p))
    {
    }

    lemma NothingAgrees()
      requires Valid()
      ensures Agrees(Nothing, NoMore)
    {
    }
  }

  /** Shifting the message drops its status byte. */
  lemma BodyOctets(last: byte, msg: nat, size: nat)
    requires size >= 1
    ensures ShortOctets(msg, size)[0] == msg % 256
    ensures Body(last, ShortOctets(msg, size)) ==
            if msg % 256 == last && last < 0xf0 then ShortOctets(msg / 256, size - 1) else ShortOctets(msg, size)
  {
  }

  lemma EndMessage()
    ensures ShortOctets(0x2fff, 3) == [META, END_OF_TRACK, 0]
  {
    assert ShortOctets(0, 1) == [0];
    assert ShortOctets(0x2f, 2) == [0x2f] + ShortOctets(0, 1);
  }

  lemma DigitStep(n: nat, k: nat)
    requires k > 1
    ensures Digits(n, k) == [0x80 + n / Pow2(7 * (k - 1)) % 128] + Digits(n, k - 1)
  {
    Pow128Is(k - 1);
  }

  lemma LastDigit(n: nat)
    ensures Digits(n, 1) == [n % 128]
  {
  }

  /** Only End Of Track itself looks like the end of a track. */
  lemma {:induction false} FinalStatus(o: Out, events: seq<Timed>)
    requires AllWellFormed(events) && o.last != META
    ensures Final(o, events).last != META
    decreases |events|
  {
    if events != [] {
      FinalStatus(After(o, events[0].time, Octets(events[0].message)), events[1..]);
    }
  }

  lemma {:induction false} FitsAt(o: Out, events: seq<Timed>, n: nat)
    requires DeltasFit(o.time, events) && n < |events|
    ensures Delta(Final(o, events[..n]).time, events[n].time) < 0x8_0000_0000
    decreases n
  {
    if n > 0 {
      assert events[..n][1..] == events[1..][..n - 1];
      FitsAt(After(o, events[0].time, Octets(events[0].message)), events[1..], n - 1);
    }
  }

  lemma EventFits(o: Out, at: nat, octets: seq<byte>)
    requires 1 <= |octets| <= 3 && Delta(o.time, at) < 0x8_0000_0000
    ensures |EventBytes(o, at, octets)| <= 8
  {
    FiveBytes(Delta(o.time, at));
    hide VlqBytes, Vlq;
  }

  /** Channel messages that are written to a track and read back: the same messages,
      each at the latest of the times so far, and thus all at their own times if these
      never decrease. */
  method TrackThroughFile(events: seq<Timed>, bufferSize: nat) returns (received: seq<Timed>)
    requires AllWellFormed(events) && DeltasFit(0, events)
    requires |TrackData(Out(0, 0), events)| < 0x1_0000_0000
    ensures |received| == |events|
    ensures forall i: nat :: i < |events| ==>
              received[i].message == events[i].message && LatestSoFar(0, events, i, received[i].time)
    ensures (forall i, j :: 0 <= i < j < |events| ==> events[i].time <= events[j].time) ==> received == events
  {
    received := WriteAndRead(events, bufferSize);
    ClampedLength(0, events);
    forall i: nat | i < |events|
      ensures received[i].message == events[i].message && LatestSoFar(0, events, i, received[i].time)
    {
      ClampedAt(0, events, i);
    }
    if forall i, j :: 0 <= i < j < |events| ==> events[i].time <= events[j].time {
      ClampedSame(0, events);
    }
  }

  method WriteAndRead(events: seq<Timed>, bufferSize: nat) returns (received: seq<Timed>)
    requires AllWellFormed(events) && DeltasFit(0, events)
    requires |TrackData(Out(0, 0), events)| < 0x1_0000_0000
    ensures received == Clamped(0, events)
  {
    hide EventBytes, EndBytes, Chunk, Encode, Octets;
    ghost var o := Out(0, 0);
    var w := new TrackWriter(bufferSize);
    var n: nat := 0;
    assert events[..0] == [];
    while n < |events|
      invariant n <= |events| && w.Valid() && fresh(w) && fresh(w.buffer)
      invariant w.Data() == EventsData(o, events[..n]) && w.State() == Final(o, events[..n])
    {
      var e := events[n];
      FitsAt(o, events, n);
      EncodeOctets(e.message);
      EventFits(w.State(), e.time, Octets(e.message));
      assert events[..n + 1] == events[..n] + [e];
      EventsAppend(o, events[..n], e);
      w.WriteShortEvent(e.time, Encode(e.message), Length(e.message.status));
      n := n + 1;
    }
    assert events[..n] == events;
    FinalStatus(o, events);
    TrackParts(o, events);
    EndBytesAre(Final(o, events));
    var chunk := w.WriteTrack();
    received := ReadChunk(chunk, events);
  }

  /** A reader at the first track. */
  method OpenTrack(file: seq<byte>, ghost data: seq<byte>) returns (r: TrackReader)
    requires |data| < 0x1_0000_0000 && file == Chunk(TRACK_TYPE, data)
    ensures fresh(r) && fresh(r.buffer) && r.Valid()
    ensures r.State() == In(data, |data|, 0, 0, 0, 0, 0)
  {
    hide FindTrack, Chunk;
    r := new TrackReader(file, 0);
    TrackFound([], [], data, []);
    assert [] + (Chunks([]) + (file + [])) == file[0..] && data + [] == data;
    var ok := r.FirstTrack();
  }

  /** Reading the events of the first track, up to End Of Track. */
  method ReadChunk(file: seq<byte>, ghost events: seq<Timed>) returns (received: seq<Timed>)
    requires AllWellFormed(events) && DeltasFit(0, events)
    requires var data := TrackData(Out(0, 0), events); |data| < 0x1_0000_0000 && file == Chunk(TRACK_TYPE, data)
    ensures received == Clamped(0, events)
  {
    hide ReadEvent, TrackData, ReadTrack, Received, Clamped, AllWellFormed, DeltasFit, Chunk;
    ghost var data := TrackData(Out(0, 0), events);
    var r := OpenTrack(file, data);
    assert data + [] == data;
    TrackRoundTrip(Out(0, 0), r.State(), events, []);
    received := [];
    ghost var before := r.State();
    var report := r.NextEvent();
    while report.Event?
      invariant r.Valid() && fresh(r) && fresh(r.buffer)
      invariant r.Agrees(report, ReadEvent(before))
      invariant received + ReadTrack(before).0 == Clamped(0, events) && ReadTrack(before).1.End?
      decreases before.remain
    {
      TrackStep(before);
      before := r.State();
      received := received + [r.LastEvent()];
      report := r.NextEvent();
    }
    TrackStep(before);
  }
}
