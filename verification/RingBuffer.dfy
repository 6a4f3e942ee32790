/** The ring buffer as one thread sees it (src/ringbuffer.c:22-165): a queue of bytes
    in an array, with transfers split at the end of the array. */
module ByteRing {
  import opened Cyclic
  import opened Numbers
  import opened PowersOfTwo
  import opened Bytes
  import opened RingSteps

  /** __next_pow_of_two; above 2^31 the doubling would wrap around. */
  method NextPowOfTwo(n: nat) returns (i: nat)
    requires n <= 0x8000_0000
    ensures IsPowerOfTwo(i) && i <= 0x8000_0000
    ensures i == if n == 0 then 1 else NextPowerOfTwo(n)
  {
    i := 1;
    while i < n
      invariant IsPowerOfTwo(i) && (i == 1 || i < 2 * n)
      decreases n - i
    {
      i := i * 2 % WORD;
    }
    if n > 0 {
      NextPowerIs(n, i);
      PowerHalf(i);
    }
  }

  lemma PowerHalf(i: nat)
    requires IsPowerOfTwo(i) && i < 0x1_0000_0000
    ensures i <= 0x8000_0000
  {
    if i > 0x8000_0000 {
      PowerIsPow2(i);
      var k: nat :| i == Pow2(k);
      Pow2At32();
      if k >= 32 {
        Pow2Monotone(32, k);
      } else {
        Pow2Monotone(k, 31);
      }
      assert false;
    }
  }

  lemma PlaceIs(head: nat, i: nat, size: nat)
    requires Size(size) && head < size && i < size
    ensures Place(head, i, size) == Advanced(head, i, size) < size
  {
    hide Mask, Size;
    MaskIs(head + i - size, size);
    ModLap(head + i, size);
    if head + i < size {
      ModSmall(head + i, size);
    } else {
      ModOver(head + i, size);
    }
  }

  lemma SpacesOf(head: nat, n: nat, size: nat)
    requires Size(size) && head < size && n < size
    ensures ReadSpace(head, Place(head, n, size), size) == n
    ensures WriteSpace(head, Place(head, n, size), size) == size - 1 - n
  {
    hide Size, ReadSpace, WriteSpace, Mask;
    SpacesAre(head + n, head, size);
    ModSmall(head, size);
    if head + n < size {
      ModSmall(head + n, size);
    } else {
      ModOver(head + n, size);
    }
  }

  class RingBuffer {
    const buf: array<byte>
    const size: nat
    var writeHead: nat
    var readHead: nat
    /** The bytes that were written and not yet read. */
    ghost var queue: seq<byte>

    ghost predicate Valid()
      reads this, buf
    {
      && Size(size) && buf.Length == size
      && readHead < size && |queue| < size && writeHead == Place(readHead, |queue|, size)
      && Stored(readHead, queue)
    }

    /** The bytes of data are in the buffer from a head on. */
    ghost predicate Stored(head: nat, data: seq<byte>)
      requires buf.Length == size
      reads buf
    {
      head < size && |data| < size
      && forall i: nat {:trigger data[i]} :: i < |data| ==> buf[Place(head, i, size)] == data[i]
    }

    constructor (n: nat)
      requires n <= 0x8000_0000
      ensures Valid() && queue == [] && fresh(buf)
      ensures size == if n == 0 then 1 else NextPowerOfTwo(n)
    {
      var p := NextPowOfTwo(n);
      size := p;
      buf := new byte[p](_ => 0);
      writeHead := 0;
      readHead := 0;
      queue := [];
    }

    method GetWriteSpace() returns (n: nat)
      requires Valid()
      ensures n == size - 1 - |queue|
    {
      hide Size, WriteSpace;
      SpacesOf(readHead, |queue|, size);
      n := WriteSpace(readHead, writeHead, size);
    }

    method GetReadSpace() returns (n: nat)
      requires Valid()
      ensures n == |queue|
    {
      hide Size, ReadSpace;
      SpacesOf(readHead, |queue|, size);
      n := ReadSpace(readHead, writeHead, size);
    }

    /** memcpy into the buffer. */
    method CopyIn(at: nat, src: seq<byte>, from: nat, n: nat)
      requires at + n <= buf.Length && from + n <= |src|
      modifies buf
      ensures forall j :: at <= j < at + n ==> buf[j] == src[from + j - at]
      ensures forall k :: 0 <= k < buf.Length && !(at <= k < at + n) ==> buf[k] == old(buf[k])
    {
      var i := 0;
      while i < n
        invariant i <= n
        invariant forall j :: at <= j < at + i ==> buf[j] == src[from + j - at]
        invariant forall k :: 0 <= k < buf.Length && !(at <= k < at + i) ==> buf[k] == old(buf[k])
      {
        buf[at + i] := src[from + i];
        i := i + 1;
      }
    }

    /** memcpy out of the buffer. */
    method CopyOut(at: nat, dest: array<byte>, from: nat, n: nat)
      requires at + n <= buf.Length && from + n <= dest.Length && dest != buf
      modifies dest
      ensures forall j :: from <= j < from + n ==> dest[j] == buf[at + j - from]
      ensures forall k :: 0 <= k < dest.Length && !(from <= k < from + n) ==> dest[k] == old(dest[k])
    {
      var i := 0;
      while i < n
        invariant i <= n
        invariant forall j :: from <= j < from + i ==> dest[j] == buf[at + j - from]
        invariant forall k :: 0 <= k < dest.Length && !(from <= k < from + i) ==> dest[k] == old(dest[k])
      {
        dest[from + i] := buf[at + i];
        i := i + 1;
      }
    }

    /** The bytes that fit are appended to the queue. */
    method Write(src: seq<byte>) returns (bytes: nat)
      requires Valid()
      modifies this`writeHead, this`queue, buf
      ensures Valid()
      ensures bytes == Min(|src|, size - 1 - |old(queue)|)
      ensures queue == old(queue) + src[..bytes]
    {
      hide Size, Advanced;
      var n := GetWriteSpace();
      bytes := Min(|src|, n);
      PlaceIs(writeHead, bytes, size);
      var writeEnd := Advanced(writeHead, bytes, size);
      Transfer(src, bytes, writeEnd);
      ghost var q := |queue|;
      queue := queue + src[..bytes];
      forall i: nat | i < |queue|
        ensures buf[Place(readHead, i, size)] == queue[i]
      {
        if i < q {
          assert Place(writeHead, size - q + i, size) == Place(readHead, i, size);
        } else {
          assert Place(writeHead, i - q, size) == Place(readHead, i, size);
          assert src[..bytes][i - q] == queue[i];
        }
      }
      writeHead := writeEnd;
    }

    /** The copies of write: the new bytes are stored from the write head on, and
        nothing else changes. */
    method Transfer(src: seq<byte>, bytes: nat, writeEnd: nat)
      requires buf.Length == size && writeHead < size && bytes <= |src| && bytes < size
      requires writeEnd == Place(writeHead, bytes, size)
      modifies buf
      ensures Stored(writeHead, src[..bytes])
      ensures forall i: nat {:trigger Place(writeHead, i, size)} ::
        bytes <= i < size ==> buf[Place(writeHead, i, size)] == old(buf[Place(writeHead, i, size)])
    {
      if writeHead > writeEnd {
        var n := size - writeHead;
        CopyIn(writeHead, src, 0, n);
        CopyIn(0, src, n, writeEnd);
      } else {
        CopyIn(writeHead, src, 0, bytes);
      }
    }

    /** The copies of read and peek: the oldest bytes go to the destination. */
    method TransferOut(dest: array<byte>, bytes: nat, readEnd: nat)
      requires Valid() && bytes <= |queue| && bytes <= dest.Length && dest != buf
      requires readEnd == Place(readHead, bytes, size)
      modifies dest
      ensures dest[..bytes] == queue[..bytes] && dest[bytes..] == old(dest[bytes..])
    {
      hide Size;
      if readHead > readEnd {
        var n := size - readHead;
        CopyOut(readHead, dest, 0, n);
        CopyOut(0, dest, n, readEnd);
      } else {
        CopyOut(readHead, dest, 0, bytes);
      }
      forall i: nat | i < bytes
        ensures dest[i] == queue[i]
      {
        assert buf[Place(readHead, i, size)] == queue[i];
      }
    }

    /** The oldest bytes leave the queue. */
    method Read(dest: array<byte>, bytes: nat) returns (n: nat)
      requires Valid() && bytes <= dest.Length && dest != buf
      modifies this`readHead, this`queue, dest
      ensures Valid()
      ensures n == Min(bytes, |old(queue)|)
      ensures old(queue) == dest[..n] + queue && dest[n..] == old(dest[n..])
    {
      hide Size, Advanced;
      var space := GetReadSpace();
      n := Min(bytes, space);
      PlaceIs(readHead, n, size);
      var readEnd := Advanced(readHead, n, size);
      TransferOut(dest, n, readEnd);
      ghost var q := queue;
      queue := queue[n..];
      forall i: nat | i < |queue|
        ensures buf[Place(readEnd, i, size)] == queue[i]
      {
        assert Place(readEnd, i, size) == Place(readHead, n + i, size);
        assert buf[Place(readHead, n + i, size)] == q[n + i];
      }
      readHead := readEnd;
    }

    /** The oldest bytes are copied and stay. */
    method Peek(dest: array<byte>, bytes: nat) returns (n: nat)
      requires Valid() && bytes <= dest.Length && dest != buf
      modifies dest
      ensures Valid()
      ensures n == Min(bytes, |queue|) && dest[..n] == queue[..n] && dest[n..] == old(dest[n..])
    {
      hide Size, Advanced;
      var space := GetReadSpace();
      n := Min(bytes, space);
      PlaceIs(readHead, n, size);
      var readEnd := Advanced(readHead, n, size);
      TransferOut(dest, n, readEnd);
    }
  }
}
