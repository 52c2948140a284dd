/** Offsets of equal-sized rows laid end to end in one flat byte buffer.

    `Span(count, size)` is `count * size` written as repeated addition, so
    that the proofs about buffer offsets stay linear; `SpanIsProduct` is the
    one place where it meets the product the driver computes. */
module Rows {

  /** The offset of row `count` when rows of `size` bytes are laid end to end. */
  function Span(count: nat, size: nat): nat
  {
    if count == 0 then 0 else Span(count - 1, size) + size
  }

  lemma {:induction false} SpanIsProduct(count: nat, size: nat)
    ensures Span(count, size) == count * size
  {
    if count > 0 {
      SpanIsProduct(count - 1, size);
      assert count * size == (count - 1) * size + size;
    }
  }

  lemma {:induction false} SpanMono(a: nat, c: nat, size: nat)
    requires a <= c
    ensures Span(a, size) <= Span(c, size)
  {
    if a < c {
      SpanMono(a, c - 1, size);
    }
  }

  /** Rows eight times as wide take eight times the room. */
  lemma {:induction false} SpanScale(count: nat, size: nat)
    ensures Span(count, 8 * size) == 8 * Span(count, size)
  {
    if count > 0 {
      SpanScale(count - 1, size);
    }
  }

  /** A position inside a row is named by one row and one column only. */
  lemma {:induction false} SpanUnique(a: nat, i: nat, b: nat, j: nat, size: nat)
    requires i < size && j < size
    requires Span(a, size) + i == Span(b, size) + j
    ensures a == b && i == j
  {
    if a > 0 && b > 0 {
      SpanUnique(a - 1, i, b - 1, j, size);
    }
  }

  /** Every offset below `Span(count, size)` lies in some row before `count`. */
  lemma {:induction false} SpanSplit(k: nat, count: nat, size: nat) returns (row: nat, col: nat)
    requires k < Span(count, size)
    ensures row < count && col < size
    ensures k == Span(row, size) + col
  {
    if k < Span(count - 1, size) {
      row, col := SpanSplit(k, count - 1, size);
    } else {
      row, col := count - 1, k - Span(count - 1, size);
    }
  }
}
