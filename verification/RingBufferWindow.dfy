/**
The ring as a window on an unbounded tape.  Offsets such as `head` and `tail` only grow; byte
`o` of the tape lives in the buffer at index `o % size`, for the offsets from `head` to
`head + size`.  All reasoning about wrapping around is in this module.
*/
module RingBufferWindow {
  import opened Bytes
  import opened Sequences
  import opened RingBuffer

  lemma MulBounds(n: nat, d: int)
    requires n > 0
    ensures d >= 1 ==> n * d >= n
    ensures d <= -1 ==> n * d <= -(n as int)
  {
    if d >= 1 {
      assert n * d == n + n * (d - 1);
    } else if d <= -1 {
      assert n * d == -(n as int) + n * (d + 1);
    }
  }

  lemma DivMod(x: nat, q: nat, r: nat, n: nat)
    requires n > 0 && x == n * q + r && r < n
    ensures x / n == q && x % n == r
  {
    var d := q - x / n;
    assert n * d == x % n - r;
    MulBounds(n, d);
  }

  /** The one offset of the window starting at `head` that is stored at index `i`. */
  function Offset(head: nat, size: nat, i: nat): nat
    requires i < size
  {
    if i >= Index(head, size) then head - Index(head, size) + i else head - Index(head, size) + size + i
  }

  lemma OffsetOf(head: nat, size: nat, o: nat)
    requires size > 0 && head <= o < head + size
    ensures Offset(head, size, Index(o, size)) == o
  {
    var d := o / size - head / size;
    assert size * d == o - Index(o, size) - (head - Index(head, size));
    MulBounds(size, d);
    MulBounds(size, d - 1);
    assert size * (d - 1) == size * d - size;
  }

  lemma IndexAdd(o: nat, j: nat, size: nat)
    requires size > 0 && Index(o, size) + j < size
    ensures Index(o + j, size) == Index(o, size) + j
  {
    DivMod(o + j, o / size, Index(o, size) + j, size);
  }

  lemma IndexWrap(o: nat, size: nat)
    requires size > 0
    ensures Index(o + (size - Index(o, size)), size) == 0
  {
    var q := o / size;
    assert o + (size - Index(o, size)) == size * (q + 1);
    DivMod(o + (size - Index(o, size)), q + 1, 0, size);
  }

  lemma AlignedAdd(a: nat, b: nat)
    requires Aligned(a) && Aligned(b)
    ensures Aligned(a + b)
    ensures a < b ==> a + 8 <= b
    ensures a == 0 || 8 <= a
  {
  }

  lemma AlignedIndex(o: nat, size: nat)
    requires size > 0 && Aligned(size) && Aligned(o)
    ensures Aligned(Index(o, size)) && Aligned(size - Index(o, size))
    ensures Index(o, size) + 8 <= size
  {
    var k, q := size / 8, o / size;
    assert o == 8 * (k * q) + Index(o, size);
    hide Index;
  }

  /** The byte of the window at offset `o`: everything below `from` has been cleared and
      everything from the end of the tape on has not been written yet. */
  function Cell(from: nat, tape: seq<byte>, o: nat): byte {
    if from <= o < |tape| then tape[o] else 0
  }

  ghost predicate WindowOk(mem: seq<byte>, head: nat, cleared: nat, tape: seq<byte>) {
    forall i :: 0 <= i < |mem| ==> mem[i] == Cell(head + cleared, tape, Offset(head, |mem|, i))
  }

  function Cells(from: nat, tape: seq<byte>, o: nat, n: nat): (s: seq<byte>)
    ensures |s| == n
    ensures forall j :: 0 <= j < n ==> s[j] == Cell(from, tape, o + j)
    decreases n
  {
    if n == 0 then [] else [Cell(from, tape, o)] + Cells(from, tape, o + 1, n - 1)
  }

  lemma CellsLive(from: nat, tape: seq<byte>, o: nat, n: nat)
    requires from <= o && o + n <= |tape|
    ensures Cells(from, tape, o, n) == tape[o..o + n]
  {
    var cells, live := Cells(from, tape, o, n), tape[o..o + n];
    forall j | 0 <= j < n
      ensures cells[j] == live[j]
    {
      assert live[j] == tape[o + j];
    }
  }

  lemma CellsFree(from: nat, tape: seq<byte>, o: nat, n: nat)
    requires |tape| <= o
    ensures Cells(from, tape, o, n) == Zeros(n)
  {
  }

  /** A contiguous read of the buffer reads the cells of the window in order. */
  lemma ReadWindow(mem: seq<byte>, head: nat, cleared: nat, tape: seq<byte>, o: nat, n: nat)
    requires |mem| > 0 && WindowOk(mem, head, cleared, tape)
    requires head <= o && o + n <= head + |mem| && Index(o, |mem|) + n <= |mem|
    ensures mem[Index(o, |mem|)..Index(o, |mem|) + n] == Cells(head + cleared, tape, o, n)
  {
    hide Index;
    var i := Index(o, |mem|);
    var read, cells := mem[i..i + n], Cells(head + cleared, tape, o, n);
    forall j | 0 <= j < n
      ensures read[j] == cells[j]
    {
      IndexAdd(o, j, |mem|);
      OffsetOf(head, |mem|, o + j);
      assert read[j] == mem[i + j];
    }
  }

  /** Reading live bytes of the buffer is reading the tape. */
  lemma ReadTape(mem: seq<byte>, head: nat, cleared: nat, tape: seq<byte>, o: nat, n: nat)
    requires |mem| > 0 && WindowOk(mem, head, cleared, tape)
    requires head + cleared <= o && o + n <= |tape| <= head + |mem| && Index(o, |mem|) + n <= |mem|
    ensures mem[Index(o, |mem|)..Index(o, |mem|) + n] == tape[o..o + n]
  {
    hide Index;
    ReadWindow(mem, head, cleared, tape, o, n);
    CellsLive(head + cleared, tape, o, n);
  }

  /** Reading past the end of the tape finds zeros. */
  lemma ReadFree(mem: seq<byte>, head: nat, cleared: nat, tape: seq<byte>, o: nat, n: nat)
    requires |mem| > 0 && WindowOk(mem, head, cleared, tape)
    requires head <= o && |tape| <= o && o + n <= head + |mem| && Index(o, |mem|) + n <= |mem|
    ensures mem[Index(o, |mem|)..Index(o, |mem|) + n] == Zeros(n)
  {
    hide Index;
    ReadWindow(mem, head, cleared, tape, o, n);
    CellsFree(head + cleared, tape, o, n);
  }

  /** The offset of an index outside a contiguous range is outside the range of offsets. */
  lemma OffsetOutside(head: nat, size: nat, o: nat, n: nat, i: nat)
    requires size > 0 && i < size && head <= o && o + n <= head + size && Index(o, size) + n <= size
    requires i < Index(o, size) || Index(o, size) + n <= i
    ensures Offset(head, size, i) < o || o + n <= Offset(head, size, i)
  {
    hide Index;
    var u := Offset(head, size, i);
    if o <= u < o + n {
      IndexAdd(o, u - o, size);
      OffsetIndex(head, size, i);
    }
  }

  lemma OffsetIndex(head: nat, size: nat, i: nat)
    requires size > 0 && i < size
    ensures head <= Offset(head, size, i) < head + size
    ensures Index(Offset(head, size, i), size) == i
  {
    var p := head / size;
    if i >= Index(head, size) {
      DivMod(Offset(head, size, i), p, i, size);
    } else {
      assert Offset(head, size, i) == size * (p + 1) + i;
      DivMod(Offset(head, size, i), p + 1, i, size);
    }
  }

  /** Writing into the buffer is writing on the tape. */
  lemma WriteWindow(mem: seq<byte>, head: nat, cleared: nat, tape: seq<byte>, o: nat, bytes: seq<byte>)
    requires |mem| > 0 && WindowOk(mem, head, cleared, tape)
    requires head + cleared <= o && o + |bytes| <= |tape| <= head + |mem|
    requires Index(o, |mem|) + |bytes| <= |mem|
    ensures WindowOk(Splice(mem, Index(o, |mem|), bytes), head, cleared, Splice(tape, o, bytes))
  {
    hide Index;
    var mem', tape' := Splice(mem, Index(o, |mem|), bytes), Splice(tape, o, bytes);
    forall i | 0 <= i < |mem'|
      ensures mem'[i] == Cell(head + cleared, tape', Offset(head, |mem|, i))
    {
      assert mem[i] == Cell(head + cleared, tape, Offset(head, |mem|, i));
      if Index(o, |mem|) <= i < Index(o, |mem|) + |bytes| {
        var j := i - Index(o, |mem|);
        IndexAdd(o, j, |mem|);
        OffsetOf(head, |mem|, o + j);
      } else {
        OffsetOutside(head, |mem|, o, |bytes|, i);
      }
    }
  }

  /** Claiming more of the free space changes nothing in the buffer. */
  lemma GrowWindow(mem: seq<byte>, head: nat, cleared: nat, tape: seq<byte>, n: nat)
    requires |mem| > 0 && WindowOk(mem, head, cleared, tape)
    ensures WindowOk(mem, head, cleared, tape + Zeros(n))
  {
    hide Index, Offset;
    var tape' := tape + Zeros(n);
    forall i | 0 <= i < |mem|
      ensures mem[i] == Cell(head + cleared, tape', Offset(head, |mem|, i))
    {
      assert mem[i] == Cell(head + cleared, tape, Offset(head, |mem|, i));
    }
  }

  /** Clearing the next bytes behind the reader. */
  lemma ClearWindow(mem: seq<byte>, head: nat, cleared: nat, tape: seq<byte>, n: nat)
    requires |mem| > 0 && WindowOk(mem, head, cleared, tape)
    requires Index(head, |mem|) + cleared + n <= |mem|
    ensures WindowOk(Splice(mem, Index(head, |mem|) + cleared, Zeros(n)), head, cleared + n, tape)
  {
    hide Index;
    var mem' := Splice(mem, Index(head, |mem|) + cleared, Zeros(n));
    forall i | 0 <= i < |mem'|
      ensures mem'[i] == Cell(head + cleared + n, tape, Offset(head, |mem|, i))
    {
      assert mem[i] == Cell(head + cleared, tape, Offset(head, |mem|, i));
    }
  }

  /** Moving `head` past the cleared bytes: their cells now stand for offsets one lap later. */
  lemma AdvanceWindow(mem: seq<byte>, head: nat, advance: nat, tape: seq<byte>)
    requires |mem| > 0 && WindowOk(mem, head, advance, tape)
    requires Index(head, |mem|) + advance <= |mem| && |tape| <= head + |mem|
    ensures WindowOk(mem, head + advance, 0, tape)
  {
    hide Index;
    forall i | 0 <= i < |mem|
      ensures mem[i] == Cell(head + advance, tape, Offset(head + advance, |mem|, i))
    {
      assert mem[i] == Cell(head + advance, tape, Offset(head, |mem|, i));
      OffsetIndex(head, |mem|, i);
      OffsetIndex(head + advance, |mem|, i);
      var u := Offset(head, |mem|, i);
      if u >= head + advance {
        OffsetOf(head + advance, |mem|, u);
      } else if Offset(head + advance, |mem|, i) < head + |mem| {
        OffsetOf(head, |mem|, Offset(head + advance, |mem|, i));
      }
    }
  }
}
