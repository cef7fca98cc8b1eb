/**
 Bit-level facts about the 32-bit words that hold a packed raster.

 The source stores words in an `Int32Array`; every operation it applies to
 them (`>>`, `&`, `|`, `~`, `<<`) acts on the two's-complement bit pattern,
 so a `bv32` models a word exactly.

 A bit position is a `nat` below 32; `Pos` turns it into the `bv32`
 shift amount the word operations take.
 */
module Words {

  /** Bit position `k` as a shift amount. */
  function Pos(k: nat): bv32
    decreases k
  {
    if k == 0 then 0 else Pos(k - 1) + 1
  }

  /** `Pos` is the identity on positions below 32. */
  lemma {:induction false} PosValue(k: nat)
    requires k < 32
    ensures Pos(k) as int == k
  {
    if k > 0 {
      PosValue(k - 1);
    }
  }

  lemma PosBound(k: nat)
    requires k < 32
    ensures Pos(k) < 32
  {
    PosValue(k);
  }

  /** Different positions give different shift amounts. */
  lemma PosInjective(k: nat, j: nat)
    requires k < 32 && j < 32
    ensures Pos(k) == Pos(j) <==> k == j
  {
    PosValue(k);
    PosValue(j);
  }

  /** Bit `p` of `w`, read as the source does: `(w >> p) & 1`. */
  predicate BitBv(w: bv32, p: bv32) {
    p < 32 && (w >> p) & 1 == 1
  }

  /** Bit `k` of `w`, for a position `k` counted as a number. */
  predicate Bit(w: bv32, k: nat) {
    BitBv(w, Pos(k))
  }

  /** The single-bit mask `1 << k`. */
  function Mask(k: nat): bv32
    requires k < 32
  {
    PosBound(k);
    1 << Pos(k)
  }

  // Facts about one bit position, decided by the solver.

  lemma MaskBv(k: bv32, j: bv32)
    requires k < 32
    ensures BitBv(1 << k, j) == (j == k)
  {}

  lemma AndNotBv(a: bv32, b: bv32, p: bv32)
    ensures BitBv(a & !b, p) <==> BitBv(a, p) && !BitBv(b, p)
  {}

  lemma OrBv(a: bv32, b: bv32, p: bv32)
    ensures BitBv(a | b, p) <==> BitBv(a, p) || BitBv(b, p)
  {}

  lemma ZeroBv(p: bv32)
    ensures !BitBv(0, p)
  {}

  /** The mask `1 << k` has bit `k` and no other. */
  lemma MaskBit(k: nat, j: nat)
    requires k < 32 && j < 32
    ensures Bit(Mask(k), j) <==> j == k
  {
    PosBound(k);
    MaskBv(Pos(k), Pos(j));
    PosInjective(k, j);
  }

  /** Word-wise `a | b` is bit-wise "in a or in b". */
  lemma OrBit(a: bv32, b: bv32, k: nat)
    ensures Bit(a | b, k) <==> Bit(a, k) || Bit(b, k)
  {
    OrBv(a, b, Pos(k));
  }

  /** Word-wise `a & ~b` is bit-wise "in a and not in b". */
  lemma AndNotBit(a: bv32, b: bv32, k: nat)
    ensures Bit(a & !b, k) <==> Bit(a, k) && !Bit(b, k)
  {
    AndNotBv(a, b, Pos(k));
  }

  /** The zero word has no bit set. */
  lemma ZeroBit(k: nat)
    ensures !Bit(0, k)
  {
    ZeroBv(Pos(k));
  }

  /** Or-ing in `1 << k` turns bit `k` on and leaves every other bit alone. */
  lemma SetBit(w: bv32, k: nat, j: nat)
    requires k < 32 && j < 32
    ensures Bit(w | Mask(k), j) <==> j == k || Bit(w, j)
  {
    OrBit(w, Mask(k), j);
    MaskBit(k, j);
  }

  /** And-ing with `~(1 << k)` turns bit `k` off and leaves every other bit alone. */
  lemma ClearBit(w: bv32, k: nat, j: nat)
    requires k < 32 && j < 32
    ensures Bit(w & !Mask(k), j) <==> j != k && Bit(w, j)
  {
    AndNotBit(w, Mask(k), j);
    MaskBit(k, j);
  }
}
