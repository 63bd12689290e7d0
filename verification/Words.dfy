/** The C type `unsigned long`, as its 64 bits, least significant bit first, with the
    bitwise operators and the masks that the bitmap code builds from them. */
module Words {
  const BITS := 64  // HWLOC_BITS_PER_LONG

  function Repeat(bit: bool, n: nat): (r: seq<bool>)
    ensures |r| == n && forall k :: 0 <= k < n ==> r[k] == bit
  {
    seq(n, _ => bit)
  }

  type Word = w: seq<bool> | |w| == BITS witness Repeat(false, BITS)

  const ZERO: Word := Repeat(false, BITS)
  const FULL: Word := Repeat(true, BITS)

  function Or(a: Word, b: Word): (r: Word)
    ensures forall k {:trigger r[k]} :: 0 <= k < BITS ==> r[k] == (a[k] || b[k])
    ensures b == ZERO ==> r == a
    ensures a == ZERO ==> r == b
    ensures a == FULL || b == FULL ==> r == FULL
  {
    seq(BITS, k requires 0 <= k < BITS => a[k] || b[k])
  }

  function And(a: Word, b: Word): (r: Word)
    ensures forall k {:trigger r[k]} :: 0 <= k < BITS ==> r[k] == (a[k] && b[k])
    ensures b == FULL ==> r == a
    ensures a == FULL ==> r == b
    ensures a == ZERO || b == ZERO ==> r == ZERO
  {
    seq(BITS, k requires 0 <= k < BITS => a[k] && b[k])
  }

  function Xor(a: Word, b: Word): (r: Word)
    ensures forall k {:trigger r[k]} :: 0 <= k < BITS ==> r[k] == (a[k] != b[k])
  {
    seq(BITS, k requires 0 <= k < BITS => a[k] != b[k])
  }

  function Not(a: Word): (r: Word)
    ensures forall k {:trigger r[k]} :: 0 <= k < BITS ==> r[k] == !a[k]
    ensures a == ZERO ==> r == FULL
    ensures a == FULL ==> r == ZERO
  {
    seq(BITS, k requires 0 <= k < BITS => !a[k])
  }

  /** HWLOC_SUBBITMAP_ULBIT_FROM: all bits from `bit` upwards. */
  function From(bit: nat): (r: Word)
    ensures forall k {:trigger r[k]} :: 0 <= k < BITS ==> r[k] == (k >= bit)
  {
    seq(BITS, k => k >= bit)
  }

  /** HWLOC_SUBBITMAP_ULBIT_TO: all bits up to and including `bit`. */
  function To(bit: nat): (r: Word)
    ensures forall k {:trigger r[k]} :: 0 <= k < BITS ==> r[k] == (k <= bit)
  {
    seq(BITS, k => k <= bit)
  }

  /** HWLOC_SUBBITMAP_ULBIT: the single bit `bit`. */
  function Single(bit: nat): (r: Word)
    ensures forall k {:trigger r[k]} :: 0 <= k < BITS ==> r[k] == (k == bit)
  {
    seq(BITS, k => k == bit)
  }

  /** `hwloc_ffsl(w) - 1`: the index of the lowest set bit of a non-zero word. */
  method LowestSet(w: Word) returns (b: nat)
    requires w != ZERO
    ensures b < BITS && w[b]
    ensures forall k :: 0 <= k < b ==> !w[k]
  {
    b := 0;
    while !w[b]
      invariant b < BITS
      invariant forall k :: 0 <= k < b ==> !w[k]
      decreases BITS - b
    {
      assert b == BITS - 1 ==> w == ZERO;
      b := b + 1;
    }
  }
}
