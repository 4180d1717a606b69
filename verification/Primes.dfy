/** The first 64 primes, from which SHA-256 takes its constants. */
module Primes {
  import opened Arith

  const P0: seq<nat> := [2, 3, 5, 7, 11, 13, 17, 19, 23, 29, 31, 37, 41, 43, 47, 53]
  const P1: seq<nat> := [59, 61, 67, 71, 73, 79, 83, 89, 97, 101, 103, 107, 109, 113, 127, 131]
  const P2: seq<nat> := [137, 139, 149, 151, 157, 163, 167, 173, 179, 181, 191, 193, 197, 199, 211, 223]
  const P3: seq<nat> := [227, 229, 233, 239, 241, 251, 257, 263, 269, 271, 277, 281, 283, 293, 307, 311]

  const PRIMES: seq<nat> := P0 + P1 + P2 + P3

  ghost predicate IsPrime(n: nat) {
    n >= 2 && forall d :: 2 <= d < n ==> n % d != 0
  }

  // No prime up to 17 divides n properly.
  predicate Sieved(n: nat) {
    && (n % 2 != 0 || n == 2) && (n % 3 != 0 || n == 3) && (n % 5 != 0 || n == 5) && (n % 7 != 0 || n == 7)
    && (n % 11 != 0 || n == 11) && (n % 13 != 0 || n == 13) && (n % 17 != 0 || n == 17)
  }

  lemma DividesThrough(n: nat, f: nat, p: nat)
    requires f > 0 && p > 0 && n % f == 0 && f % p == 0
    ensures n % p == 0
  {
    var q, c := n / f, f / p;
    MulAssoc(q, c, p);
    ModUnique(n, q * c, 0, p);
  }

  lemma SmallFactor(f: nat, n: nat)
    requires 2 <= f <= 18 && f < n && n % f == 0
    ensures !Sieved(n)
  {
    var p: nat := if f % 2 == 0 then 2 else if f % 3 == 0 then 3 else if f % 5 == 0 then 5 else f;
    DividesThrough(n, f, p);
    assert p == 2 || p == 3 || p == 5 || p == 7 || p == 11 || p == 13 || p == 17;
  }

  lemma Cofactor(n: nat, d: nat)
    requires n < 361 && 18 < d < n && n % d == 0
    ensures 2 <= n / d <= 18 && n % (n / d) == 0
  {
    var m := n / d;
    if m >= 19 {
      MulMono(19, m, d);
    } else if m <= 1 {
      MulMono(m, 1, d);
    }
    ModUnique(n, d, 0, m);
  }

  lemma SieveIsPrime(n: nat)
    requires 2 <= n < 361
    ensures IsPrime(n) <==> Sieved(n)
  {
    if Sieved(n) {
      forall d | 2 <= d < n
        ensures n % d != 0
      {
        if n % d == 0 {
          if d <= 18 {
            SmallFactor(d, n);
          } else {
            Cofactor(n, d);
            SmallFactor(n / d, n);
          }
        }
      }
    }
  }

  lemma Row0From2(n: nat)
    requires 2 <= n < 22
    ensures n in P0 <==> Sieved(n)
  {
  }

  lemma Row0From22(n: nat)
    requires 22 <= n < 54
    ensures n in P0 <==> Sieved(n)
  {
  }

  lemma Row1From54(n: nat)
    requires 54 <= n < 76
    ensures n in P1 <==> Sieved(n)
  {
  }

  lemma Row1From76(n: nat)
    requires 76 <= n < 96
    ensures n in P1 <==> Sieved(n)
  {
  }

  lemma Row1From96(n: nat)
    requires 96 <= n < 132
    ensures n in P1 <==> Sieved(n)
  {
  }

  lemma Row2From132(n: nat)
    requires 132 <= n < 142
    ensures n in P2 <==> Sieved(n)
  {
  }

  lemma Row2From142(n: nat)
    requires 142 <= n < 152
    ensures n in P2 <==> Sieved(n)
  {
  }

  lemma Row2From152(n: nat)
    requires 152 <= n < 172
    ensures n in P2 <==> Sieved(n)
  {
  }

  lemma Row2From172(n: nat)
    requires 172 <= n < 198
    ensures n in P2 <==> Sieved(n)
  {
  }

  lemma Row2From198(n: nat)
    requires 198 <= n < 211
    ensures n in P2 <==> Sieved(n)
  {
  }

  lemma Row2From211(n: nat)
    requires 211 <= n < 224
    ensures n in P2 <==> Sieved(n)
  {
  }

  lemma Row3From224(n: nat)
    requires 224 <= n < 246
    ensures n in P3 <==> Sieved(n)
  {
  }

  lemma Row3From246(n: nat)
    requires 246 <= n < 268
    ensures n in P3 <==> Sieved(n)
  {
  }

  lemma Row3From268(n: nat)
    requires 268 <= n < 290
    ensures n in P3 <==> Sieved(n)
  {
  }

  lemma Row3From290(n: nat)
    requires 290 <= n < 301
    ensures n in P3 <==> Sieved(n)
  {
  }

  lemma Row3From301(n: nat)
    requires 301 <= n < 312
    ensures n in P3 <==> Sieved(n)
  {
  }

  lemma RowBounds(n: nat)
    ensures n in P0 ==> 2 <= n < 54
    ensures n in P1 ==> 54 <= n < 132
    ensures n in P2 ==> 132 <= n < 224
    ensures n in P3 ==> 224 <= n < 312
  {
  }

  /** Up to 311 the table holds exactly the primes. */
  lemma TableIsPrimes(n: nat)
    ensures n in PRIMES <==> n <= 311 && IsPrime(n)
  {
    hide Sieved;
    RowBounds(n);
    if 2 <= n < 312 {
      SieveIsPrime(n);
      if n < 22 {
        Row0From2(n);
      } else if n < 54 {
        Row0From22(n);
      } else if n < 76 {
        Row1From54(n);
      } else if n < 96 {
        Row1From76(n);
      } else if n < 132 {
        Row1From96(n);
      } else if n < 142 {
        Row2From132(n);
      } else if n < 152 {
        Row2From142(n);
      } else if n < 172 {
        Row2From152(n);
      } else if n < 198 {
        Row2From172(n);
      } else if n < 211 {
        Row2From198(n);
      } else if n < 224 {
        Row2From211(n);
      } else if n < 246 {
        Row3From224(n);
      } else if n < 268 {
        Row3From246(n);
      } else if n < 290 {
        Row3From268(n);
      } else if n < 301 {
        Row3From290(n);
      } else {
        Row3From301(n);
      }
    }
  }

  lemma RowsAscend(t: nat)
    requires t < 15
    ensures P0[t] < P0[t + 1] && P1[t] < P1[t + 1] && P2[t] < P2[t + 1] && P3[t] < P3[t + 1]
  {
  }

  lemma RowEnds()
    ensures |P0| == |P1| == |P2| == |P3| == 16
    ensures P0[15] < P1[0] && P1[15] < P2[0] && P2[15] < P3[0]
  {
  }

  /** And it is in order. */
  lemma TableAscends(t: nat)
    requires t < 63
    ensures PRIMES[t] < PRIMES[t + 1]
  {
    hide P0, P1, P2, P3;
    RowEnds();
    if t % 16 < 15 {
      RowsAscend(t % 16);
    }
  }
}
