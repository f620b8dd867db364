/** The 32-bit bitmaps of a CHAMP node, bit by bit, and counting their bits. */
module ChampBits {

  const WORD: nat := 32

  type Bitmap = b: seq<bool> | |b| == 32 witness seq(32, _ => false)

  const EMPTY: Bitmap :=
    [false, false, false, false, false, false, false, false,
     false, false, false, false, false, false, false, false,
     false, false, false, false, false, false, false, false,
     false, false, false, false, false, false, false, false]

  predicate Check(bits: Bitmap, idx: nat)
    requires idx < WORD
  {
    bits[idx]
  }

  function Set(bits: Bitmap, idx: nat): Bitmap
    requires idx < WORD
  {
    bits[idx := true]
  }

  function Clear(bits: Bitmap, idx: nat): Bitmap
    requires idx < WORD
  {
    bits[idx := false]
  }

  function And(a: Bitmap, b: Bitmap): Bitmap {
    seq(WORD, i requires 0 <= i < WORD => a[i] && b[i])
  }

  /** All bits below `idx`: the complement of a word of ones shifted left by `idx`. */
  function LowMask(idx: nat): Bitmap
    requires idx < WORD
  {
    seq(WORD, i => i < idx)
  }

  /** How many of the first `n` bits are set. */
  function Count(bits: Bitmap, n: nat): (c: nat)
    requires n <= WORD
    ensures c <= n
  {
    if n == 0 then 0 else Count(bits, n - 1) + if bits[n - 1] then 1 else 0
  }

  function Pop(bits: Bitmap): nat {
    Count(bits, WORD)
  }

  lemma {:induction false} CountEmpty(n: nat)
    requires n <= WORD
    ensures Count(EMPTY, n) == 0
  {
    if n > 0 {
      CountEmpty(n - 1);
    }
  }

  /** Masking and then counting all bits counts the bits below the mask. */
  lemma {:induction false} CountLow(bits: Bitmap, i: nat, n: nat)
    requires i < WORD && n <= WORD
    ensures Count(And(bits, LowMask(i)), n) == Count(bits, if n < i then n else i)
  {
    if n > 0 {
      CountLow(bits, i, n - 1);
    }
  }

  lemma {:induction false} CountSet(bits: Bitmap, i: nat, n: nat)
    requires i < WORD && n <= WORD && !bits[i]
    ensures Count(Set(bits, i), n) == Count(bits, n) + if i < n then 1 else 0
  {
    if n > 0 {
      CountSet(bits, i, n - 1);
    }
  }

  lemma {:induction false} CountClear(bits: Bitmap, i: nat, n: nat)
    requires i < WORD && n <= WORD && bits[i]
    ensures Count(Clear(bits, i), n) == Count(bits, n) - if i < n then 1 else 0
  {
    if n > 0 {
      CountClear(bits, i, n - 1);
    }
  }

  lemma {:induction false} CountMonotone(bits: Bitmap, i: nat, j: nat)
    requires i <= j <= WORD
    ensures Count(bits, i) <= Count(bits, j)
    ensures i < j && bits[i] ==> Count(bits, i) < Count(bits, j)
    decreases j
  {
    if i < j {
      CountMonotone(bits, i, j - 1);
    }
  }

  /** The set bit that has exactly `c` set bits below it. */
  lemma {:induction false} Select(bits: Bitmap, c: nat, n: nat) returns (i: nat)
    requires n <= WORD && c < Count(bits, n)
    ensures i < n && bits[i] && Count(bits, i) == c
  {
    if bits[n - 1] && Count(bits, n - 1) == c {
      i := n - 1;
    } else {
      i := Select(bits, c, n - 1);
    }
  }
}
