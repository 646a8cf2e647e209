/**
 * Machine words and the growable word vector (QVector<quint32>) that the
 * assembler and the memory-image codec fill in place.
 */
module Words {

  /** quint32: an unsigned 32-bit value. */
  type u32 = x: int | 0 <= x < 0x1_0000_0000

  /** `n` zero words, what QVector value-initialises new cells to. */
  function Zeros(n: nat): (z: seq<u32>)
    ensures |z| == n && forall k :: 0 <= k < n ==> z[k] == 0
  {
    seq(n, _ => 0)
  }

  /**
   * QVector::resize(n): keep the first `n` cells, and when growing append
   * zero cells until there are `n`.
   */
  function Resized(cells: seq<u32>, n: nat): (r: seq<u32>)
    ensures |r| == n
    ensures forall k :: 0 <= k < n && k < |cells| ==> r[k] == cells[k]
    ensures forall k :: |cells| <= k < n ==> r[k] == 0
  {
    if n <= |cells| then cells[..n] else cells + Zeros(n - |cells|)
  }

  /** A QVector<quint32> passed by reference: its cells change in place. */
  class WordVector {
    var cells: seq<u32>

    constructor (init: seq<u32>)
      ensures cells == init
    {
      cells := init;
    }

    /** QVector::append. */
    method Append(w: u32)
      modifies this
      ensures cells == old(cells) + [w]
    {
      cells := cells + [w];
    }

    /** QVector::resize. */
    method Resize(n: nat)
      modifies this
      ensures cells == Resized(old(cells), n)
    {
      cells := Resized(cells, n);
    }

    /** Assignment through QVector::operator[], which needs an index in range. */
    method Put(i: nat, w: u32)
      requires i < |cells|
      modifies this
      ensures cells == old(cells)[i := w]
    {
      cells := cells[i := w];
    }
  }
}
