/** The byte ring buffer between one writer and one reader (src/ringbuffer.c), as a
    state machine: loading the other side's head, copying one byte, and publishing
    the own head are separate steps, in any interleaving. */
module RingSteps {
  import opened Numbers
  import opened PowersOfTwo
  import opened Bytes

  const WORD := 0x1_0000_0000

  /** x & mask in unsigned arithmetic of 32 bits. */
  function Mask(x: int, size: nat): (r: nat)
    requires size >= 1
    ensures r < size
  {
    And(x % WORD, size - 1)
  }

  ghost predicate Size(size: nat) {
    IsPowerOfTwo(size) && size <= 0x8000_0000
  }

  lemma MaskIs(x: int, size: nat)
    requires Size(size)
    ensures size >= 1 && Mask(x, size) == x % size
  {
    AndMask(x % WORD, size);
    WrapMask(x, size);
  }

  /** How much the writer may write, and the reader read. */
  function WriteSpace(readHead: nat, writeHead: nat, size: nat): nat
    requires size >= 1
  {
    Mask(readHead - writeHead - 1, size)
  }

  function ReadSpace(readHead: nat, writeHead: nat, size: nat): nat
    requires size >= 1
  {
    Mask(writeHead - readHead, size)
  }

  /** A head after n bytes. */
  function Advanced(head: nat, n: nat, size: nat): nat
    requires size >= 1
  {
    Mask(head + n - size, size)
  }

  /** Where byte i of a transfer of n bytes is in the buffer: the transfer is split
      in two if it runs over the end. */
  function Address(head: nat, n: nat, size: nat, i: nat): int
    requires size >= 1
  {
    var end := Advanced(head, n, size);
    if head > end && i >= size - head then i - (size - head) else head + i
  }

  datatype Writer = Resting | Writing(data: seq<byte>, done: nat)
  datatype Reader = Waiting | Reading(n: nat, got: seq<byte>)

  datatype State = State(
    size: nat,
    buf: seq<byte>,
    writeHead: nat,
    readHead: nat,
    writer: Writer,
    reader: Reader,
    accepted: seq<byte>,
    delivered: seq<byte>)

  /** One atomic step of either side. */
  datatype Step =
    | StartWrite(src: seq<byte>)
    | CopyIn
    | PublishWrite
    | StartRead(bytes: nat)
    | CopyOut
    | PublishRead
    | EndPeek

  ghost predicate Enabled(s: State, e: Step) {
    && s.size >= 1 && |s.buf| == s.size
    && match e
       case StartWrite(_) => s.writer.Resting?
       case CopyIn => s.writer.Writing? && s.writer.done < |s.writer.data|
                      && 0 <= Address(s.writeHead, |s.writer.data|, s.size, s.writer.done) < s.size
       case PublishWrite => s.writer.Writing? && s.writer.done == |s.writer.data|
       case StartRead(_) => s.reader.Waiting?
       case CopyOut => s.reader.Reading? && |s.reader.got| < s.reader.n
                       && 0 <= Address(s.readHead, s.reader.n, s.size, |s.reader.got|) < s.size
       case PublishRead => s.reader.Reading? && |s.reader.got| == s.reader.n
       case EndPeek => s.reader.Reading? && |s.reader.got| == s.reader.n
  }

  function Next(s: State, e: Step): State
    requires Enabled(s, e)
  {
    match e
    case StartWrite(src) =>
      var n := Min(|src|, WriteSpace(s.readHead, s.writeHead, s.size));
      s.(writer := Writing(src[..n], 0))
    case CopyIn =>
      var i := s.writer.done;
      s.(buf := s.buf[Address(s.writeHead, |s.writer.data|, s.size, i) := s.writer.data[i]],
         writer := Writing(s.writer.data, i + 1))
    case PublishWrite =>
      s.(writeHead := Advanced(s.writeHead, |s.writer.data|, s.size),
         accepted := s.accepted + s.writer.data, writer := Resting)
    case StartRead(bytes) =>
      s.(reader := Reading(Min(bytes, ReadSpace(s.readHead, s.writeHead, s.size)), []))
    case CopyOut =>
      s.(reader := Reading(s.reader.n, s.reader.got + [s.buf[Address(s.readHead, s.reader.n, s.size, |s.reader.got|)]]))
    case PublishRead =>
      s.(readHead := Advanced(s.readHead, s.reader.n, s.size),
         delivered := s.delivered + s.reader.got, reader := Waiting)
    case EndPeek =>
      s.(reader := Waiting)
  }

  ghost predicate Reaches(s: State, steps: seq<Step>, t: State)
    decreases |steps|
  {
    if steps == [] then s == t
    else Enabled(s, steps[0]) && Reaches(Next(s, steps[0]), steps[1..], t)
  }

  /** A new buffer. */
  function Initial(size: nat, buf: seq<byte>): State {
    State(size, buf, 0, 0, Resting, Waiting, [], [])
  }

  /* Invariant */

  /** The buffer holds what was accepted and not yet delivered. */
  ghost predicate Holds(buf: seq<byte>, size: nat, accepted: seq<byte>, from: nat)
    requires size >= 1
  {
    |buf| == size && forall k: nat {:trigger accepted[k]} :: from <= k < |accepted| ==> buf[k % size] == accepted[k]
  }

  ghost predicate WriterOk(s: State)
    requires s.size >= 1 && |s.buf| == s.size
  {
    s.writer.Writing? ==>
      && s.writer.done <= |s.writer.data|
      && |s.accepted| + |s.writer.data| < |s.delivered| + s.size
      && forall i: nat {:trigger s.writer.data[i]} :: i < s.writer.done ==> s.buf[(|s.accepted| + i) % s.size] == s.writer.data[i]
  }

  ghost predicate ReaderOk(s: State) {
    s.reader.Reading? ==>
      && |s.reader.got| <= s.reader.n && |s.delivered| + s.reader.n <= |s.accepted|
      && s.reader.got == s.accepted[|s.delivered|..|s.delivered| + |s.reader.got|]
  }

  ghost predicate Inv(s: State) {
    && Size(s.size) && s.size >= 1 && |s.buf| == s.size
    && s.writeHead == |s.accepted| % s.size && s.readHead == |s.delivered| % s.size
    && |s.delivered| <= |s.accepted| < |s.delivered| + s.size
    && s.delivered == s.accepted[..|s.delivered|]
    && Holds(s.buf, s.size, s.accepted, |s.delivered|)
    && WriterOk(s) && ReaderOk(s)
  }

  /* Arithmetic */

  lemma ModStep(a: int, b: int, n: nat)
    requires n >= 1
    ensures (a % n + b) % n == (a + b) % n
  {
    var q, r := a / n, a % n;
    var q', r' := (r + b) / n, (r + b) % n;
    assert a == n * q + r && r + b == n * q' + r';
    assert n * (q + q') == n * q + n * q';
    RemainderIs(a + b, n, q + q', r');
  }

  lemma ModSmall(a: int, n: nat)
    requires n >= 1 && 0 <= a < n
    ensures a % n == a
  {
  }

  lemma ModOver(a: int, n: nat)
    requires n >= 1 && n <= a < 2 * n
    ensures a % n == a - n
  {
    RemainderIs(a, n, 1, a - n);
  }

  /** Places less than a lap apart are different. */
  lemma ModApart(a: int, b: int, n: nat)
    requires n >= 1 && 0 < b - a < n
    ensures a % n != b % n
  {
    ModStep(a, b - a, n);
    var r := a % n;
    if r + (b - a) < n {
      ModSmall(r + (b - a), n);
    } else {
      ModOver(r + (b - a), n);
    }
  }

  lemma AdvancedIs(w: nat, n: nat, size: nat)
    requires Size(size) && size >= 1
    ensures Advanced(w % size, n, size) == (w + n) % size
  {
    MaskIs(w % size + n - size, size);
    ModStep(w, n - size, size);
    ModStep(w + n, -(size as int), size);
    ModLap(w + n, size);
  }

  lemma ModLap(a: int, n: nat)
    requires n >= 1
    ensures (a - n) % n == a % n
  {
    var q, r := a / n, a % n;
    assert a - n == n * (q - 1) + r;
    RemainderIs(a - n, n, q - 1, r);
  }

  /** The address of byte i is its place modulo the size. */
  lemma AddressIs(w: nat, n: nat, size: nat, i: nat)
    requires Size(size) && size >= 1 && i < n < size
    ensures Address(w % size, n, size, i) == (w + i) % size
  {
    AdvancedIs(w, n, size);
    var h := w % size;
    ModStep(w, n, size);
    ModStep(w, i, size);
    if h + n < size {
      ModSmall(h + n, size);
    } else {
      ModOver(h + n, size);
    }
    if h + i < size {
      ModSmall(h + i, size);
    } else {
      ModOver(h + i, size);
    }
  }

  lemma ReadSpaceIs(w: nat, r: nat, size: nat)
    requires Size(size) && size >= 1 && r <= w < r + size
    ensures ReadSpace(r % size, w % size, size) == w - r
  {
    hide Mask, Size;
    var r' := r % size;
    MaskIs(w % size - r', size);
    ModStep(w, -r', size);
    DifferenceMod(w, r, size);
    ModSmall(w - r, size);
  }

  lemma WriteSpaceIs(w: nat, r: nat, size: nat)
    requires Size(size) && size >= 1 && r <= w < r + size
    ensures WriteSpace(r % size, w % size, size) == size - 1 - (w - r)
  {
    hide Mask, Size;
    var w' := w % size;
    MaskIs(r % size - w' - 1, size);
    ModStep(r, -w' - 1, size);
    DifferenceMod(r - 1, w, size);
    ModLap(r - 1 - w + size, size);
    ModSmall(r - 1 - w + size, size);
  }

  lemma SpacesAre(w: nat, r: nat, size: nat)
    requires Size(size) && size >= 1 && r <= w < r + size
    ensures WriteSpace(r % size, w % size, size) == size - 1 - (w - r)
    ensures ReadSpace(r % size, w % size, size) == w - r
  {
    hide WriteSpace, ReadSpace;
    WriteSpaceIs(w, r, size);
    ReadSpaceIs(w, r, size);
  }

  lemma DifferenceMod(a: int, b: int, n: nat)
    requires n >= 1
    ensures (a - b % n) % n == (a - b) % n
  {
    var q, r := b / n, b % n;
    var q', r' := (a - r) / n, (a - r) % n;
    assert b == n * q + r && a - r == n * q' + r';
    assert n * (q' - q) == n * q' - n * q;
    RemainderIs(a - b, n, q' - q, r');
  }

  /* Every step keeps the invariant */

  lemma HoldsAt(buf: seq<byte>, size: nat, accepted: seq<byte>, from: nat, k: nat)
    requires size >= 1 && Holds(buf, size, accepted, from) && from <= k < |accepted|
    ensures buf[k % size] == accepted[k]
  {
  }

  lemma StartWriteKeeps(s: State, src: seq<byte>)
    requires Inv(s) && Enabled(s, StartWrite(src))
    ensures Inv(Next(s, StartWrite(src)))
  {
    hide Holds, Size, WriteSpace;
    SpacesAre(|s.accepted|, |s.delivered|, s.size);
  }

  lemma StartReadKeeps(s: State, bytes: nat)
    requires Inv(s) && Enabled(s, StartRead(bytes))
    ensures Inv(Next(s, StartRead(bytes)))
  {
    hide Holds, Size, ReadSpace, WriterOk;
    SpacesAre(|s.accepted|, |s.delivered|, s.size);
    WriterSame(s, Next(s, StartRead(bytes)));
  }

  /** A byte that is copied in overwrites nothing that is still to be read. */
  lemma CopyInHolds(buf: seq<byte>, size: nat, accepted: seq<byte>, from: nat, i: nat, x: byte)
    requires size >= 1 && Holds(buf, size, accepted, from) && from <= |accepted| && |accepted| + i < from + size
    ensures Holds(buf[(|accepted| + i) % size := x], size, accepted, from)
  {
    forall k: nat | from <= k < |accepted|
      ensures buf[(|accepted| + i) % size := x][k % size] == accepted[k]
    {
      ModApart(k, |accepted| + i, size);
    }
  }

  lemma CopyInWriter(s: State)
    requires Inv(s) && Enabled(s, CopyIn)
    ensures var t := Next(s, CopyIn);
            t.buf == s.buf[(|s.accepted| + s.writer.done) % s.size := s.writer.data[s.writer.done]] && WriterOk(t)
  {
    hide Holds, Size, Address, ReaderOk;
    var w, d, n := |s.accepted|, s.writer.done, s.size;
    AddressIs(w, |s.writer.data|, n, d);
    var t := Next(s, CopyIn);
    forall i: nat {:trigger t.writer.data[i]} | i < t.writer.done
      ensures t.buf[(w + i) % n] == t.writer.data[i]
    {
      if i < d {
        ModApart(w + i, w + d, n);
      }
    }
  }

  lemma CopyInKeeps(s: State)
    requires Inv(s) && Enabled(s, CopyIn)
    ensures Inv(Next(s, CopyIn))
  {
    CopyInWriter(s);
    CopyInHolds(s.buf, s.size, s.accepted, |s.delivered|, s.writer.done, s.writer.data[s.writer.done]);
    hide Holds, Size, Address, WriterOk;
  }

  lemma PublishHolds(s: State)
    requires Inv(s) && Enabled(s, PublishWrite)
    ensures Holds(s.buf, s.size, s.accepted + s.writer.data, |s.delivered|)
  {
    hide Size, ReaderOk;
    var a := s.accepted + s.writer.data;
    forall k: nat {:trigger a[k]} | |s.delivered| <= k < |a|
      ensures s.buf[k % s.size] == a[k]
    {
      if k >= |s.accepted| {
        assert a[k] == s.writer.data[k - |s.accepted|];
      }
    }
  }

  lemma PublishWriteKeeps(s: State)
    requires Inv(s) && Enabled(s, PublishWrite)
    ensures Inv(Next(s, PublishWrite))
  {
    PublishHolds(s);
    AdvancedIs(|s.accepted|, |s.writer.data|, s.size);
    hide Holds, Size, Advanced;
  }

  lemma CopyOutKeeps(s: State)
    requires Inv(s) && Enabled(s, CopyOut)
    ensures Inv(Next(s, CopyOut))
  {
    hide Size, Address, WriterOk;
    var r, g := |s.delivered|, |s.reader.got|;
    AddressIs(r, s.reader.n, s.size, g);
    HoldsAt(s.buf, s.size, s.accepted, r, r + g);
    hide Holds;
    assert s.accepted[r..r + g + 1] == s.accepted[r..r + g] + [s.accepted[r + g]];
    WriterSame(s, Next(s, CopyOut));
  }

  lemma WriterSame(s: State, t: State)
    requires s.size >= 1 && |s.buf| == s.size && WriterOk(s)
    requires t.size == s.size && t.buf == s.buf && t.accepted == s.accepted && t.writer == s.writer
    requires |t.delivered| >= |s.delivered|
    ensures WriterOk(t)
  {
  }

  lemma PublishReadKeeps(s: State)
    requires Inv(s) && Enabled(s, PublishRead)
    ensures Inv(Next(s, PublishRead))
  {
    hide Size, Advanced, WriterOk;
    AdvancedIs(|s.delivered|, s.reader.n, s.size);
    var r, n := |s.delivered|, s.reader.n;
    assert s.accepted[..r + n] == s.accepted[..r] + s.accepted[r..r + n];
    WriterSame(s, Next(s, PublishRead));
  }

  lemma StepKeeps(s: State, e: Step)
    requires Inv(s) && Enabled(s, e)
    ensures Inv(Next(s, e))
  {
    hide Inv, Next, Enabled;
    match e
    case StartWrite(src) => StartWriteKeeps(s, src);
    case CopyIn => CopyInKeeps(s);
    case PublishWrite => PublishWriteKeeps(s);
    case StartRead(bytes) => StartReadKeeps(s, bytes);
    case CopyOut => CopyOutKeeps(s);
    case PublishRead => PublishReadKeeps(s);
    case EndPeek => EndPeekKeeps(s);
  }

  lemma EndPeekKeeps(s: State)
    requires Inv(s) && Enabled(s, EndPeek)
    ensures Inv(Next(s, EndPeek))
  {
    hide Size, Holds, WriterOk;
    WriterSame(s, Next(s, EndPeek));
  }

  lemma SizeKept(s: State, e: Step)
    requires Enabled(s, e)
    ensures Next(s, e).size == s.size
  {
  }

  lemma {:induction false} RunKeeps(s: State, steps: seq<Step>, t: State)
    requires Inv(s) && Reaches(s, steps, t)
    ensures Inv(t) && t.size == s.size
    decreases |steps|
  {
    hide Inv, Next, Enabled;
    if steps != [] {
      StepKeeps(s, steps[0]);
      SizeKept(s, steps[0]);
      RunKeeps(Next(s, steps[0]), steps[1..], t);
    }
  }

  /** For every interleaving of one writer and one reader: what was delivered is a
      prefix of what was accepted, what a reader has copied so far are the next
      bytes, and between operations the two spaces share all but one byte. */
  lemma DeliveredInOrder(size: nat, buf: seq<byte>, steps: seq<Step>, t: State)
    requires Size(size) && |buf| == size && Reaches(Initial(size, buf), steps, t)
    ensures t.delivered <= t.accepted
    ensures t.reader.Reading? ==> t.delivered + t.reader.got <= t.accepted
    ensures t.size == size >= 1
    ensures t.writer.Resting? && t.reader.Waiting? ==>
      && WriteSpace(t.readHead, t.writeHead, size) + ReadSpace(t.readHead, t.writeHead, size) == size - 1
      && ReadSpace(t.readHead, t.writeHead, size) == |t.accepted| - |t.delivered|
  {
    InitialInv(size, buf);
    hide Size, Holds, WriterOk, WriteSpace, ReadSpace, Enabled, Next, Reaches;
    RunKeeps(Initial(size, buf), steps, t);
    SpacesAre(|t.accepted|, |t.delivered|, t.size);
  }

  lemma InitialInv(size: nat, buf: seq<byte>)
    requires Size(size) && |buf| == size
    ensures size >= 1 && Inv(Initial(size, buf))
  {
    MaskIs(0, size);
    ModSmall(0, size);
  }

  /** No copy is ever blocked: a byte address is always inside the buffer. */
  lemma CopiesEnabled(s: State)
    requires Inv(s)
    ensures s.writer.Writing? && s.writer.done < |s.writer.data| ==> Enabled(s, CopyIn)
    ensures s.reader.Reading? && |s.reader.got| < s.reader.n ==> Enabled(s, CopyOut)
  {
    hide Holds, Address, Size;
    if s.writer.Writing? && s.writer.done < |s.writer.data| {
      AddressIs(|s.accepted|, |s.writer.data|, s.size, s.writer.done);
    }
    if s.reader.Reading? && |s.reader.got| < s.reader.n {
      AddressIs(|s.delivered|, s.reader.n, s.size, |s.reader.got|);
    }
  }

  /* How much is taken */

  /** A write takes as many bytes as there is room for behind the bytes that are held
      when it loads the read head, and a read as many as are held when it loads the
      write head. One byte always stays free. */
  lemma StartTakes(s: State, src: seq<byte>, bytes: nat)
    requires Inv(s)
    ensures var held := |s.accepted| - |s.delivered|;
      && (s.writer.Resting? ==>
            var room := s.size - 1 - held;
            Next(s, StartWrite(src)).writer == Writing(if |src| <= room then src else src[..room], 0))
      && (s.reader.Waiting? ==>
            Next(s, StartRead(bytes)).reader == Reading(if bytes <= held then bytes else held, []))
  {
    hide Holds, Size, WriteSpace, ReadSpace, WriterOk;
    SpacesAre(|s.accepted|, |s.delivered|, s.size);
    assert src[..|src|] == src;
  }

  /** What the writer is about to publish. */
  function InFlight(w: Writer): seq<byte> {
    if w.Writing? then w.data else []
  }

  /** The bytes that the writer was asked to write. */
  function Sources(steps: seq<Step>): seq<byte> {
    if steps == [] then []
    else (if steps[0].StartWrite? then steps[0].src else []) + Sources(steps[1..])
  }

  /** Whenever a write begins, there is room for all of it. */
  ghost predicate RoomThroughout(s: State, steps: seq<Step>)
    decreases |steps|
  {
    steps != [] && Enabled(s, steps[0]) ==>
      && (steps[0].StartWrite? ==> |s.accepted| - |s.delivered| + |steps[0].src| <= s.size - 1)
      && RoomThroughout(Next(s, steps[0]), steps[1..])
  }

  lemma StepTakes(s: State, e: Step)
    requires Inv(s) && Enabled(s, e)
    requires e.StartWrite? ==> |s.accepted| - |s.delivered| + |e.src| <= s.size - 1
    ensures var t := Next(s, e);
      t.accepted + InFlight(t.writer) == s.accepted + InFlight(s.writer) + Sources([e])
  {
    hide Inv, Address, Advanced, ReadSpace, WriteSpace;
    SourcesOne(e);
    if e.StartWrite? {
      StartTakes(s, e.src, 0);
      assert s.accepted + [] == s.accepted;
    } else {
      assert s.accepted + InFlight(s.writer) + [] == s.accepted + InFlight(s.writer);
    }
  }

  lemma SourcesOne(e: Step)
    ensures Sources([e]) == if e.StartWrite? then e.src else []
  {
    assert [e][1..] == [];
  }

  /** If there was always room, every byte that was to be written is accepted or about
      to be published, for every interleaving with the reader. */
  lemma {:induction false} AllTaken(s: State, steps: seq<Step>, t: State)
    requires Inv(s) && Reaches(s, steps, t) && RoomThroughout(s, steps)
    ensures t.accepted + InFlight(t.writer) == s.accepted + InFlight(s.writer) + Sources(steps)
    decreases |steps|
  {
    hide Inv, Next, Enabled, InFlight;
    var a := s.accepted + InFlight(s.writer);
    if steps == [] {
      assert a + [] == a;
    } else {
      StepTakes(s, steps[0]);
      SourcesOne(steps[0]);
      StepKeeps(s, steps[0]);
      AllTaken(Next(s, steps[0]), steps[1..], t);
      assert a + Sources([steps[0]]) + Sources(steps[1..]) == a + (Sources([steps[0]]) + Sources(steps[1..]));
    }
  }
}
