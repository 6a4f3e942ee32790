/** Changing the size of one value of an OSC message in place
    (src/network/osc.c:383-446). Memory is an array of 32-bit words, and a pointer is
    a place in it, counted from the start of the message; there is one message. */
module OscResize {
  import opened Numbers

  const MEM_FREE_INDEX := 1
  const DATA_INDEX_OFFSET := 2

  /** osc_move_data_left: the words move down; the ranges may overlap. */
  method MoveDataLeft(mem: array<int>, start: nat, end: nat, n: nat)
    requires n <= start <= end <= mem.Length
    modifies mem
    ensures forall p :: start - n <= p < end - n ==> mem[p] == old(mem[p + n])
    ensures forall p :: 0 <= p < mem.Length && !(start - n <= p < end - n) ==> mem[p] == old(mem[p])
  {
    var curr := start;
    while curr < end
      invariant start <= curr <= end
      invariant forall p :: start - n <= p < curr - n ==> mem[p] == old(mem[p + n])
      invariant forall p :: 0 <= p < mem.Length && !(start - n <= p < curr - n) ==> mem[p] == old(mem[p])
    {
      mem[curr - n] := mem[curr];
      curr := curr + 1;
    }
  }

  /** osc_move_data_right: the words move up, last one first. */
  method MoveDataRight(mem: array<int>, start: nat, end: nat, n: nat)
    requires start <= end && end + n <= mem.Length
    modifies mem
    ensures forall p :: start + n <= p < end + n ==> mem[p] == old(mem[p - n])
    ensures forall p :: 0 <= p < mem.Length && !(start + n <= p < end + n) ==> mem[p] == old(mem[p])
  {
    var curr := end - 1;
    while curr > start - 1
      invariant start - 1 <= curr <= end - 1
      invariant forall p :: curr + n < p < end + n ==> mem[p] == old(mem[p - n])
      invariant forall p :: 0 <= p < mem.Length && !(curr + n < p < end + n) ==> mem[p] == old(mem[p])
      decreases curr - start + 1
    {
      mem[curr + n] := mem[curr];
      curr := curr - 1;
    }
  }

  /** The pointer table: values in slots 2 to last - 1, in order; slot `last` and the
      slot MEM_FREE_INDEX name the free memory behind them. */
  ghost predicate Table(data: seq<int>, last: nat, size: nat) {
    && DATA_INDEX_OFFSET < last < |data|
    && (forall i, j :: DATA_INDEX_OFFSET <= i < j <= last ==> data[i] < data[j])
    && 0 <= data[DATA_INDEX_OFFSET] && data[MEM_FREE_INDEX] == data[last] <= size
  }

  /** The words of value j. */
  ghost function Value(mem: seq<int>, data: seq<int>, last: nat, j: nat): seq<int>
    requires Table(data, last, |mem|) && DATA_INDEX_OFFSET <= j < last
  {
    mem[data[j]..data[j + 1]]
  }

  /** The words from start to end were moved by some words, and nothing before them
      was changed. */
  ghost predicate Moved(mem: seq<int>, mem': seq<int>, start: int, end: int, shift: int) {
    && 0 <= start <= end <= |mem| == |mem'| && 0 <= start + shift && end + shift <= |mem|
    && (forall p :: start + shift <= p < end + shift ==> mem'[p] == mem[p - shift])
    && (forall p :: 0 <= p < start && p < start + shift ==> mem'[p] == mem[p])
  }

  /** The pointers behind slot index were moved. */
  ghost predicate Shifted(data: seq<int>, data': seq<int>, last: nat, index: nat, shift: int) {
    && |data| == |data'| && MEM_FREE_INDEX < DATA_INDEX_OFFSET <= index < last < |data|
    && (forall j :: DATA_INDEX_OFFSET <= j <= last ==> data'[j] == data[j] + if j > index then shift else 0)
    && data'[MEM_FREE_INDEX] == data'[last]
  }

  lemma TableShifted(data: seq<int>, data': seq<int>, last: nat, index: nat, shift: int, size: nat)
    requires Table(data, last, size) && Shifted(data, data', last, index, shift)
    requires data[index] < data[index + 1] + shift && data[last] + shift <= size
    ensures Table(data', last, size)
  {
    forall i, j | DATA_INDEX_OFFSET <= i < j <= last
      ensures data'[i] < data'[j]
    {
      if i <= index < j {
        assert data[i] <= data[index] && data[index + 1] <= data[j];
      }
    }
  }

  /** All values but one keep their words. */
  lemma OtherValue(mem: seq<int>, mem': seq<int>, data: seq<int>, data': seq<int>,
                   last: nat, index: nat, shift: int, j: nat)
    requires Table(data, last, |mem|) && Shifted(data, data', last, index, shift) && Table(data', last, |mem|)
    requires Moved(mem, mem', data[index + 1], data[last], shift)
    requires DATA_INDEX_OFFSET <= j < last && j != index
    ensures Value(mem'[data'[index + 1] - 1 := 0], data', last, j) == Value(mem, data, last, j)
  {
    assert data[j] < data[j + 1] <= data[last];
    if j < index {
      assert data[j + 1] <= data[index] < data[index + 1];
      assert data'[index] < data'[index + 1];
    } else {
      assert data[index + 1] <= data[j];
    }
    var moved, to := mem'[data'[index + 1] - 1 := 0], data'[j] - data[j];
    assert forall p :: data'[j] <= p < data'[j + 1] ==> moved[p] == mem[p - to];
  }

  /** The resized value keeps its front and ends with a zero word. */
  lemma ResizedValue(mem: seq<int>, mem': seq<int>, data: seq<int>, data': seq<int>,
                   last: nat, index: nat, shift: int)
    requires Table(data, last, |mem|) && Shifted(data, data', last, index, shift) && Table(data', last, |mem|)
    requires Moved(mem, mem', data[index + 1], data[last], shift)
    ensures data'[index] < data'[index + 1] <= |mem|
    ensures var v, v' := Value(mem, data, last, index), Value(mem'[data'[index + 1] - 1 := 0], data', last, index);
      && |v'| == |v| + shift > 0 && v'[|v'| - 1] == 0
      && forall t :: 0 <= t < Min(|v|, |v'| - 1) ==> v'[t] == v[t]
  {
    assert data[index] < data[index + 1] && data'[index] < data'[index + 1] <= data'[last];
  }

  /** Nothing in front of the values changes. */
  lemma FrontKept(mem: seq<int>, mem': seq<int>, data: seq<int>, data': seq<int>,
                   last: nat, index: nat, shift: int)
    requires Table(data, last, |mem|) && Shifted(data, data', last, index, shift) && Table(data', last, |mem|)
    requires Moved(mem, mem', data[index + 1], data[last], shift)
    ensures 0 < data'[index + 1] <= |mem| && 0 <= data[DATA_INDEX_OFFSET] <= |mem|
    ensures mem'[data'[index + 1] - 1 := 0][..data[DATA_INDEX_OFFSET]] == mem[..data[DATA_INDEX_OFFSET]]
  {
    assert data[DATA_INDEX_OFFSET] <= data[index] < data[index + 1];
    assert data'[index] < data'[index + 1] <= data'[last];
  }

  class OscMessage {
    const mem: array<int>
    const data: array<int>
    const last: nat

    ghost predicate Valid()
      reads mem, data
    {
      mem != data && Table(data[..], last, mem.Length)
    }

    /** Words of value j, in the current state. */
    ghost function Words(j: nat): seq<int>
      requires Valid() && DATA_INDEX_OFFSET <= j < last
      reads mem, data
    {
      Value(mem[..], data[..], last, j)
    }

    constructor (mem: array<int>, data: array<int>, last: nat)
      requires mem != data && Table(data[..], last, mem.Length)
      ensures Valid() && this.mem == mem && this.data == data && this.last == last
    {
      this.mem := mem;
      this.data := data;
      this.last := last;
    }

    /** The pointers behind the value and both names of the free memory move. */
    method ShiftPointers(index: nat, shift: int)
      requires Valid() && DATA_INDEX_OFFSET <= index < last
      modifies data
      ensures forall j :: 0 <= j < data.Length && j != MEM_FREE_INDEX && !(index < j <= last) ==> data[j] == old(data[j])
      ensures forall j :: index < j <= last ==> data[j] == old(data[j]) + shift
      ensures data[MEM_FREE_INDEX] == data[last]
    {
      var i := index + 1;
      while data[i] < data[MEM_FREE_INDEX]
        invariant index < i <= last
        invariant forall j :: index < j < i ==> data[j] == old(data[j]) + shift
        invariant forall j :: 0 <= j < data.Length && !(index < j < i) ==> data[j] == old(data[j])
        decreases last - i
      {
        data[i] := data[i] + shift;
        i := i + 1;
      }
      data[i] := data[i] + shift;
      data[MEM_FREE_INDEX] := data[i];
    }

    /** The moves of osc_maybe_reserve_space. */
    method MakeSpace(index: nat, next: int, shift: int)
      requires Valid() && DATA_INDEX_OFFSET <= index < last && next == data[index + 1]
      requires data[index] < data[index + 1] + shift && data[last] + shift <= mem.Length
      modifies mem, data
      ensures Moved(old(mem[..]), mem[..], next, old(data[last]), shift)
      ensures Shifted(old(data[..]), data[..], last, index, shift)
    {
      TableBounds(data[..], last, index, mem.Length);
      if shift != 0 {
        if shift < 0 {
          MoveDataLeft(mem, next, data[MEM_FREE_INDEX], -shift);
        } else {
          MoveDataRight(mem, next, data[MEM_FREE_INDEX], shift);
        }
        ShiftPointers(index, shift);
      }
    }

    lemma TableBounds(d: seq<int>, last: nat, index: nat, size: nat)
      requires Table(d, last, size) && DATA_INDEX_OFFSET <= index < last
      ensures DATA_INDEX_OFFSET < last < |d| && 0 <= d[index] < d[index + 1] <= d[last] <= size
    {
    }

    /** osc_maybe_reserve_space for a single message: value `index` gets `size` bytes,
        and its last word is cleared; all other values keep their words and their
        order, and the free memory moves by the difference. */
    method MaybeReserveSpace(index: nat, size: nat) returns (length: int)
      requires Valid() && DATA_INDEX_OFFSET <= index < last && size >= 4 && size % 4 == 0
      requires data[last] - (data[index + 1] - data[index]) + size / 4 <= mem.Length
      modifies mem, data
      ensures Valid()
      ensures length == 4 * data[MEM_FREE_INDEX]
      ensures Shifted(old(data[..]), data[..], last, index, size / 4 - old(data[index + 1] - data[index]))
      ensures forall j: nat {:trigger Words(j)} :: DATA_INDEX_OFFSET <= j < last && j != index ==> Words(j) == old(Words(j))
      ensures Resized(old(Words(index)), Words(index), size / 4)
      ensures 0 <= old(data[DATA_INDEX_OFFSET]) <= mem.Length
      ensures mem[..old(data[DATA_INDEX_OFFSET])] == old(mem[..data[DATA_INDEX_OFFSET]])
    {
      hide Table, Moved, Shifted, Value;
      TableBounds(data[..], last, index, mem.Length);
      var oldSize := 4 * (data[index + 1] - data[index]);
      var next := data[index] + oldSize / 4;
      var diff := size - oldSize;
      var shift := diff / 4;
      ghost var m, d := mem[..], data[..];
      MakeSpace(index, next, shift);
      ghost var m' := mem[..];
      SlotAt(d, data[..], last, index, shift);
      TableShifted(d, data[..], last, index, shift, mem.Length);
      TableBounds(data[..], last, index, mem.Length);
      mem[next + shift - 1] := 0;
      assert mem[..] == m'[data[index + 1] - 1 := 0];
      forall j: nat | DATA_INDEX_OFFSET <= j < last && j != index
        ensures Words(j) == old(Words(j))
      {
        OtherValue(m, m', d, data[..], last, index, shift, j);
      }
      ResizedValue(m, m', d, data[..], last, index, shift);
      FrontKept(m, m', d, data[..], last, index, shift);
      ValueLength(m, d, last, index);
      length := 4 * data[MEM_FREE_INDEX];
    }
  }

  /** v' is the value v after resizing to n words. */
  ghost predicate Resized(v: seq<int>, v': seq<int>, n: int) {
    && |v'| == n > 0 && v'[n - 1] == 0
    && forall t :: 0 <= t < Min(|v|, n - 1) ==> v'[t] == v[t]
  }

  lemma SlotAt(data: seq<int>, data': seq<int>, last: nat, index: nat, shift: int)
    requires Shifted(data, data', last, index, shift)
    ensures index + 1 < |data| == |data'| && data'[index + 1] == data[index + 1] + shift
  {
  }

  lemma ValueLength(mem: seq<int>, data: seq<int>, last: nat, j: nat)
    requires Table(data, last, |mem|) && DATA_INDEX_OFFSET <= j < last
    ensures |Value(mem, data, last, j)| == data[j + 1] - data[j]
  {
  }
}
