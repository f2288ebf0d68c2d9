/** The pseudorandom numbers that choose the pivots of the sort (Buffer.h). */
module PivotSeeds {
  const DWORD := 0x1_0000_0000

  function NextSeed(seed: nat): nat {
    (seed * 69069 + 1) % DWORD
  }

  function Seeds(seed: nat, k: nat): nat {
    if k == 0 then seed else NextSeed(Seeds(seed, k - 1))
  }

  /** The same numbers without the 32-bit cut. */
  function Uncut(x: nat, k: nat): nat {
    if k == 0 then x else Uncut(x, k - 1) * 69069 + 1
  }

  lemma {:induction false} SeedsAreCut(seed: nat, k: nat)
    requires seed < DWORD
    ensures Seeds(seed, k) == Uncut(seed, k) % DWORD
  {
    if k > 0 {
      SeedsAreCut(seed, k - 1);
      var u := Uncut(seed, k - 1);
      assert u * 69069 + 1 == (u % DWORD) * 69069 + 1 + DWORD * (u / DWORD * 69069);
      Cut((u % DWORD) * 69069 + 1, u / DWORD * 69069);
    }
  }

  lemma Cut(a: nat, q: nat)
    ensures (a + DWORD * q) % DWORD == a % DWORD
  {
  }

  lemma {:induction false} UncutPlus(x: nat, k: nat, m: nat)
    ensures Uncut(Uncut(x, k), m) == Uncut(x, k + m)
  {
    if m > 0 {
      UncutPlus(x, k, m - 1);
    }
  }

  function Power(j: nat): nat {
    if j == 0 then 1 else 2 * Power(j - 1)
  }

  // 2^j steps at once multiply by one more than a multiple of 2^(j + 2) and add an odd multiple of 2^j.

  function Factor(j: nat): nat {
    if j == 0 then 17267 else Factor(j - 1) + 2 * Power(j - 1) * Factor(j - 1) * Factor(j - 1)
  }

  function Summand(j: nat): nat {
    if j == 0 then 0 else Summand(j - 1) + Power(j - 1) * Factor(j - 1) * (2 * Summand(j - 1) + 1)
  }

  function AtOnce(p: nat, a: nat, c: nat, x: nat): nat {
    (1 + 4 * p * a) * x + p * (2 * c + 1)
  }

  lemma Twice(p: nat, a: nat, c: nat, x: nat)
    ensures AtOnce(p, a, c, AtOnce(p, a, c, x)) == AtOnce(2 * p, a + 2 * p * a * a, c + p * a * (2 * c + 1), x)
  {
  }

  lemma {:induction false} StepsAtOnce(j: nat, x: nat)
    ensures Uncut(x, Power(j)) == AtOnce(Power(j), Factor(j), Summand(j), x)
  {
    if j == 0 {
      assert Uncut(x, 1) == Uncut(x, 0) * 69069 + 1;
    } else {
      var p, a, c := Power(j - 1), Factor(j - 1), Summand(j - 1);
      hide AtOnce;
      StepsAtOnce(j - 1, x);
      StepsAtOnce(j - 1, AtOnce(p, a, c, x));
      UncutPlus(x, p, p);
      Twice(p, a, c, x);
    }
  }

  /** Within 2^j steps the last j bits become zero. */
  lemma {:induction false} ReachesZero(j: nat, x: nat) returns (k: nat, q: nat)
    ensures k < Power(j) && Uncut(x, k) == Power(j) * q
  {
    if j == 0 {
      k, q := 0, x;
    } else {
      var p := Power(j - 1);
      k, q := ReachesZero(j - 1, x);
      if q % 2 == 1 {
        StepsAtOnce(j - 1, p * q);
        UncutPlus(x, k, p);
        q := OneMoreBit(p, Factor(j - 1), Summand(j - 1), q);
        k := k + p;
      } else {
        q := Halved(p, q);
      }
    }
  }

  lemma OneMoreBit(p: nat, a: nat, c: nat, q: nat) returns (h: nat)
    requires q % 2 == 1
    ensures AtOnce(p, a, c, p * q) == 2 * p * h
  {
    h := q / 2 + 2 * p * a * q + c + 1;
    assert q == 2 * (q / 2) + 1;
    assert AtOnce(p, a, c, p * q) == p * (q + 4 * p * a * q + 2 * c + 1);
    assert q + 4 * p * a * q + 2 * c + 1 == 2 * h;
  }

  lemma Halved(p: nat, q: nat) returns (h: nat)
    requires q % 2 == 0
    ensures p * q == 2 * p * h
  {
    h := q / 2;
  }

  /** From any seed the generator comes to zero within 2^32 steps. */
  lemma SeedsReachZero(seed: nat) returns (k: nat)
    requires seed < DWORD
    ensures k < DWORD && Seeds(seed, k) == 0
  {
    var q;
    k, q := ReachesZero(32, seed);
    SeedsAreCut(seed, k);
    assert Power(32) == DWORD by {
      assert Power(8) == 256 && Power(16) == 65536 && Power(24) == 16777216;
    }
    Cut(0, q);
  }
}
