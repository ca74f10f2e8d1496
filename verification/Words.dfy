/** Unsigned 64-bit arithmetic, written out over the integers. */
module Words {
  datatype Option<+T> = None | Some(value: T)

  const TWO32: nat := 0x1_0000_0000
  const TWO64: nat := 0x1_0000_0000_0000_0000
  const PAGE: nat := 4096

  type Word = w: nat | w < TWO64

  /** The all-ones word, the source's (uint64_t)-1. */
  const MINUS_ONE: Word := TWO64 - 1

  /** Reduction to 64 bits: the wrap-around of uint64_t and size_t. */
  function Wrap(x: int): Word {
    x % TWO64
  }

  /** `x & ~(PAGE - 1)` */
  function PageDown(x: nat): nat {
    x - x % PAGE
  }

  /** `(x + PAGE - 1) & ~(PAGE - 1)`, the addition done in 64 bits. */
  function PageUp(x: nat): Word {
    PageDown(Wrap(x + PAGE - 1))
  }

  /** `(x + 7) & ~7`, the addition done in 64 bits. */
  function RoundUp8(x: nat): nat {
    var s := Wrap(x + 7);
    s - s % 8
  }

  /** Division by its defining property. */
  lemma QuotRem(w: nat, q: nat, r: nat, d: nat)
    requires d > 0 && r < d && w == q * d + r
    ensures w / d == q && w % d == r
  {
    var q' := w / d;
    if q > q' {
      Product(q - q', d);
    } else if q < q' {
      Product(q' - q, d);
    }
  }

  lemma Monotone(a: nat, b: nat, k: nat)
    requires a <= b
    ensures a * k <= b * k
  {
  }

  lemma Product(k: nat, d: nat)
    requires k >= 1
    ensures k * d >= d
  {
  }
}
