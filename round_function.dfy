/** The round function g[k] of GOST R 34.12-2015 (section 4.2 of RFC 8891):
    add the round key modulo 2^32, substitute through t, rotate left by 11 bits. */
module RoundFunction {
  import opened Words
  import opened Substitution

  /** `(s << 11) | (s >> (32 - 11))`: a circular rotation left by 11 bits. */
  function Rotate11(s: Word): (r: Word)
    ensures r == s.RotateLeft(11)
  {
    (s << 11) | (s >> 21)
  }

  /** The rotation back, right by 11 bits. */
  function Unrotate11(r: Word): (s: Word)
    ensures s == r.RotateRight(11)
  {
    (r >> 11) | (r << 21)
  }

  /** The rotation loses no bit: rotating back gives the word again, and every word is a rotation. */
  lemma RotationIsCircular(s: Word)
    ensures Unrotate11(Rotate11(s)) == s
    ensures Rotate11(Unrotate11(s)) == s
  {
  }

  /** `g`: the sum of the half-block and the round key (bv32 addition wraps modulo 2^32),
      substituted, then rotated. */
  function G(a: Word, k: Word): (r: Word)
    ensures r == T(a + k).RotateLeft(11)
  {
    Rotate11(T(a + k))
  }

  /** g keeps every bit of t's output: rotating g's result back gives t(a + k). */
  lemma GUnrotated(a: Word, k: Word)
    ensures Unrotate11(G(a, k)) == T(a + k)
  {
    RotationIsCircular(T(a + k));
  }

  /** g keeps every bit of the modular sum: it can be recovered from g's result. */
  lemma GRecoversSum(a: Word, k: Word)
    ensures TInverse(Unrotate11(G(a, k))) == a + k
  {
    GUnrotated(a, k);
    TInverseOfT(a + k);
  }
}
