/** The array version of the function FIFO (src/fifo.lisp:50-78, 126-159, 237-253).
    A head names the place before the next value, so one place stays unused. */
module FifoQueue {
  import opened Cyclic
  import opened PowersOfTwo

  datatype Fifo<T> = Fifo(items: seq<T>, readHead: nat, writeHead: nat)

  ghost predicate Wf<T>(f: Fifo<T>) {
    f.readHead < |f.items| && f.writeHead < |f.items|
  }

  /** How many values are in the FIFO. */
  function Count<T>(f: Fifo<T>): nat
    requires Wf(f)
  {
    Dist(|f.items|, f.readHead, f.writeHead)
  }

  /** The values, oldest first. */
  ghost function Values<T>(f: Fifo<T>): (c: seq<T>)
    requires Wf(f)
    ensures |c| == Count(f)
    ensures forall i: nat :: i < Count(f) ==> c[i] == f.items[Place(f.readHead, i + 1, |f.items|)]
  {
    seq(Count(f), i requires 0 <= i < Count(f) => f.items[Place(f.readHead, i + 1, |f.items|)])
  }

  /** enqueue finds the next place equal to the read head. */
  predicate IsFull<T>(f: Fifo<T>)
    requires Wf(f)
  {
    Next(|f.items|, f.writeHead) == f.readHead
  }

  predicate IsEmpty<T>(f: Fifo<T>) {
    f.readHead == f.writeHead
  }

  /** (setf (fifo-value fifo next) value) */
  function Store<T>(f: Fifo<T>, value: T): Fifo<T>
    requires Wf(f)
  {
    f.(items := f.items[Next(|f.items|, f.writeHead) := value])
  }

  /** (setf (fifo-write-head fifo) next) */
  function PublishWrite<T>(f: Fifo<T>): Fifo<T>
    requires Wf(f)
  {
    f.(writeHead := Next(|f.items|, f.writeHead))
  }

  /** (fifo-value fifo next) */
  function Oldest<T>(f: Fifo<T>): T
    requires Wf(f)
  {
    f.items[Next(|f.items|, f.readHead)]
  }

  /** (setf (fifo-read-head fifo) next) */
  function PublishRead<T>(f: Fifo<T>): Fifo<T>
    requires Wf(f)
  {
    f.(readHead := Next(|f.items|, f.readHead))
  }

  /** The value that was stored for the next write. */
  function Pending<T>(f: Fifo<T>): T
    requires Wf(f)
  {
    f.items[Next(|f.items|, f.writeHead)]
  }

  /** Full means one value less than there are places; empty means no value. */
  lemma FullCount<T>(f: Fifo<T>)
    requires Wf(f)
    ensures IsFull(f) <==> Count(f) == |f.items| - 1
    ensures IsEmpty(f) <==> Values(f) == []
  {
  }

  /** A stored value is invisible until the write head moves. */
  lemma StoreValues<T>(f: Fifo<T>, value: T)
    requires Wf(f) && !IsFull(f)
    ensures Wf(Store(f, value)) && !IsFull(Store(f, value))
    ensures Values(Store(f, value)) == Values(f) && Pending(Store(f, value)) == value
  {
  }

  lemma PublishWriteValues<T>(f: Fifo<T>)
    requires Wf(f) && !IsFull(f)
    ensures Wf(PublishWrite(f)) && Values(PublishWrite(f)) == Values(f) + [Pending(f)]
  {
    var g := PublishWrite(f);
    assert Count(g) == Count(f) + 1;
    forall i: nat | i < Count(g)
      ensures Values(g)[i] == (Values(f) + [Pending(f)])[i]
    {
      if i == Count(f) {
        assert Place(f.readHead, i + 1, |f.items|) == Next(|f.items|, f.writeHead);
      }
    }
  }

  lemma PublishReadValues<T>(f: Fifo<T>)
    requires Wf(f) && !IsEmpty(f)
    ensures Wf(PublishRead(f)) && Values(f) == [Oldest(f)] + Values(PublishRead(f))
  {
    var g := PublishRead(f);
    assert Count(g) == Count(f) - 1;
    forall i: nat | i < Count(g)
      ensures Values(g)[i] == Values(f)[i + 1]
    {
      assert Place(g.readHead, i + 1, |f.items|) == Place(f.readHead, i + 2, |f.items|);
    }
  }

  /** Moving the read head of a FIFO whose write place is claimed. */
  lemma ReadNotFull<T>(f: Fifo<T>)
    requires Wf(f) && !IsEmpty(f) && !IsFull(f)
    ensures !IsFull(PublishRead(f)) && Pending(PublishRead(f)) == Pending(f)
  {
  }

  /** The FIFO as one thread uses it. */
  class FunctionFifo<T> {
    const items: array<T>
    const bufferSize: nat
    var readHead: nat
    var writeHead: nat

    ghost predicate Valid()
      reads this, items
    {
      items.Length == bufferSize && IsPowerOfTwo(bufferSize) && Wf(Value())
    }

    ghost function Value(): Fifo<T>
      reads this, items
    {
      Fifo(items[..], readHead, writeHead)
    }

    constructor (n: nat, idle: T)
      requires n >= 1
      ensures Valid() && fresh(items) && Values(Value()) == [] && bufferSize == NextPowerOfTwo(n)
    {
      bufferSize := NextPowerOfTwo(n);
      items := new T[NextPowerOfTwo(n)](_ => idle);
      readHead := 0;
      writeHead := 0;
    }

    /** enqueue: the value goes behind the others, unless the FIFO is full. */
    method Enqueue(value: T) returns (ok: bool)
      requires Valid()
      modifies this`writeHead, items
      ensures Valid()
      ensures ok == (|old(Values(Value()))| < bufferSize - 1)
      ensures Values(Value()) == old(Values(Value())) + if ok then [value] else []
    {
      hide Values, IsPowerOfTwo;
      ghost var f := Value();
      FullCount(f);
      var next := Next(bufferSize, writeHead);
      ok := next != readHead;
      if ok {
        StoreValues(f, value);
        PublishWriteValues(Store(f, value));
        items[next] := value;
        writeHead := next;
        assert items[..] == Store(f, value).items;
      }
    }

    /** fifo-perform-functions: all values are taken, oldest first. The calls are
        recorded. */
    method PerformFunctions() returns (ran: seq<T>)
      requires Valid()
      modifies this`readHead
      ensures Valid()
      ensures ran == old(Values(Value())) && Values(Value()) == []
    {
      hide Values, IsPowerOfTwo;
      ran := [];
      while readHead != writeHead
        invariant Valid()
        invariant ran + Values(Value()) == old(Values(Value()))
        decreases |Values(Value())|
      {
        PublishReadValues(Value());
        var next := Next(bufferSize, readHead);
        var fn := items[next];
        readHead := next;
        ran := ran + [fn];
      }
      FullCount(Value());
    }
  }
}
