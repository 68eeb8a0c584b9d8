/** Powers of two. */
module Powers {

  function Pow2(n: nat): (p: nat)
    ensures p > 0
  {
    if n == 0 then 1 else 2 * Pow2(n - 1)
  }

  lemma Pow2Step(n: nat)
    ensures Pow2(n + 1) == 2 * Pow2(n)
  {
  }

  lemma {:induction false} Pow2Add(m: nat, n: nat)
    ensures Pow2(m + n) == Pow2(m) * Pow2(n)
  {
    if n > 0 {
      Pow2Add(m, n - 1);
      assert Pow2(m) * (2 * Pow2(n - 1)) == 2 * (Pow2(m) * Pow2(n - 1));
    }
  }

  lemma {:induction false} Pow2Mono(m: nat, n: nat)
    requires m <= n
    ensures Pow2(m) <= Pow2(n)
  {
    if m < n { Pow2Mono(m, n - 1); }
  }

  lemma Pow2Byte(n: nat)
    ensures Pow2(n + 8) == 256 * Pow2(n)
  {
    hide Pow2;
    Pow2Step(n);
    Pow2Step(n + 1);
    Pow2Step(n + 2);
    Pow2Step(n + 3);
    Pow2Step(n + 4);
    Pow2Step(n + 5);
    Pow2Step(n + 6);
    Pow2Step(n + 7);
  }

  lemma Pow2Word()
    ensures Pow2(32) == 0x1_0000_0000
  {
    hide Pow2;
    Pow2Eight();
    Pow2Byte(8);
    Pow2Byte(16);
    Pow2Byte(24);
  }

  lemma Pow2Eight()
    ensures Pow2(8) == 256
  {
    assert Pow2(0) == 1;
    hide Pow2;
    Pow2Byte(0);
  }
}
