/** Powers of two. */
module Powers {
  function Pow2(e: nat): (p: nat)
    ensures p >= 1
  {
    if e == 0 then 1 else 2 * Pow2(e - 1)
  }

  lemma {:induction false} Pow2Splits(d: nat, e: nat)
    ensures Pow2(d + e) == Pow2(d) * Pow2(e)
  {
    if d > 0 { Pow2Splits(d - 1, e); }
  }

  lemma {:induction false} Pow2Grows(a: nat, b: nat)
    requires a <= b
    ensures Pow2(a) <= Pow2(b)
  {
    if a < b { Pow2Grows(a, b - 1); }
  }
}
