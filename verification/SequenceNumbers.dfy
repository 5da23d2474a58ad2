/** 16-bit message sequence numbers and their circular distance. */
module SequenceNumbers {

  const MODULUS := 0x1_0000
  const HALF := 0x8000

  type Seq16 = n: int | 0 <= n < 0x1_0000

  /** The 16-bit number transmitted for the unbounded number `n`. */
  function Wrap(n: int): Seq16 {
    n % MODULUS
  }

  /** `olsr_seqno_diff`: the distance from `s2` to `s1`, folded once at the half range. */
  function SeqnoDiff(s1: Seq16, s2: Seq16): int {
    var diff := s1 - s2;
    if diff > HALF then diff - MODULUS
    else if diff < -HALF then diff + MODULUS
    else diff
  }

  /** The folded distance is the true distance exactly inside the open half range; on the
      boundary the code answers with whichever sign the two residues happen to give. */
  lemma DiffOfLifted(m: int, n: int)
    ensures SeqnoDiff(Wrap(m), Wrap(n)) == m - n <==>
            -HALF < m - n < HALF || (m - n == HALF && Wrap(n) < HALF) || (n - m == HALF && Wrap(n) >= HALF)
  {
    assert m == MODULUS * (m / MODULUS) + Wrap(m);
    assert n == MODULUS * (n / MODULUS) + Wrap(n);
  }
}
