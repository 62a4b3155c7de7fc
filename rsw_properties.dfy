/**
 * What the owner's derivations and the solver promise together: the totient shortcut agrees
 * with the solver's full exponent (and needs a base coprime to n), both masking modes
 * round-trip, SetupTimelockPuzzle fails only for unset fields, and the answer it returns
 * is |ck - b| rather than the key.
 */
module RswProperties {
  import opened Wrappers
  import opened NumberTheory
  import opened BigNat
  import opened Rsw

  /** n = pq and ϕ = (p-1)(q-1) once p and q are set, so n - ϕ = p + q - 1; for primes 0 < ϕ < n. */
  lemma ModulusAndTotient(tl: TimelockRSW)
    requires tl.p.Some? && tl.q.Some?
    ensures tl.N() == Ok(tl.p.value * tl.q.value)
    ensures tl.Phi() == Ok((tl.p.value - 1) * (tl.q.value - 1))
    ensures tl.N().value - tl.Phi().value == tl.p.value + tl.q.value - 1
    ensures IsPrime(tl.p.value) && IsPrime(tl.q.value) ==> 0 < tl.Phi().value < tl.N().value
  {
    var p: int, q: int := tl.p.value, tl.q.value;
    assert p * q - (p - 1) * (q - 1) == p + q - 1;
    if IsPrime(p) && IsPrime(q) {
      MulAtLeast(p - 1, q - 1, 1);
    }
  }

  /**
   * The owner's shortcut gives the solver's value: with distinct primes and a base coprime
   * to n, b = a^(2^t mod ϕ) mod n = a^(2^t) mod n, which is also t squarings of a mod n.
   */
  lemma OwnerMatchesSolver(tl: TimelockRSW)
    requires tl.Trapdoor() && tl.t.Some?
    ensures tl.B() == Ok(ModExp(tl.a.value, Pow(2, tl.t.value), tl.p.value * tl.q.value))
    ensures tl.B() == Ok(Reduce(Squarings(tl.a.value, tl.t.value, tl.p.value * tl.q.value), tl.p.value * tl.q.value))
  {
    var p, q, a, t := tl.p.value, tl.q.value, tl.a.value, tl.t.value;
    var n := p * q;
    var phi: nat := Totient(p, q);
    assert tl.N() == Ok(n);
    assert tl.E() == Ok(Reduce(Pow(2, t), phi));
    ReducedExponent(p, q, n, phi, a, Pow(2, t));
    SquaringsArePower(a, t, n);
  }

  /** (p-1)(q-1) for primes p and q, which is positive. */
  lemma Totient(p: nat, q: nat) returns (phi: nat)
    requires IsPrime(p) && IsPrime(q)
    ensures phi == (p - 1) * (q - 1) && phi > 0
  {
    MulAtLeast(p - 1, q - 1, 1);
    phi := (p - 1) * (q - 1);
  }

  lemma ThreeAndFiveArePrime()
    ensures IsPrime(3) && IsPrime(5)
  {
    forall d | 1 < d < 5
      ensures !Divides(d, 5)
    {
      assert d == 2 || d == 3 || d == 4;
    }
  }

  /**
   * The shortcut needs a base coprime to n: for the primes 3 and 5, a = 3 and t = 3 the
   * owner's exponent 2^3 mod 8 is 0, so b = 1, while 3^(2^3) mod 15 = 6.
   */
  lemma TrapdoorNeedsCoprimeBase(tl: TimelockRSW)
    requires tl.p == Some(3) && tl.q == Some(5) && tl.a == Some(3) && tl.t == Some(3)
    ensures IsPrime(3) && IsPrime(5) && Gcd(3, 15) == 3
    ensures tl.E() == Ok(0) && tl.B() == Ok(1)
    ensures ModExp(3, Pow(2, 3), 15) == 6
  {
    ThreeAndFiveArePrime();
  }

  /** Once t is recorded, the puzzle is issued exactly when p, q and a are set. */
  lemma SetupSucceedsWhenReady(tl: TimelockRSW)
    requires tl.t.Some?
    ensures tl.Issued().Ok? <==> tl.p.Some? && tl.q.Some? && tl.a.Some?
    ensures tl.p.None? || tl.q.None? ==> tl.Issued() == Err(CouldNotFind(ModulusN, NeedPQForN))
    ensures tl.p.Some? && tl.q.Some? && tl.a.None? ==>
      tl.Issued() == Err(CouldNotFind(MaskedCk, CouldNotFind(LockedB, NeedA)))
  {
  }

  /**
   * Round trip in XOR mode: solving the issued puzzle gives the key's value back as
   * Int.Bytes writes it, which is the key itself exactly when it has no leading zero byte.
   */
  lemma SetupRoundTrip(tl: TimelockRSW)
    requires tl.Trapdoor() && tl.t.Some?
    ensures tl.Issued().Ok?
    ensures tl.Issued().value.puzzle.Solve() == Bytes(SetBytes(tl.key))
    ensures tl.Issued().value.puzzle.Solve() == tl.key <==> Minimal(tl.key)
  {
    OwnerMatchesSolver(tl);
    XorUnmask(tl.B().value, SetBytes(tl.key));
    BytesRoundTrip(tl.key);
  }

  /** Round trip in ADD mode: a puzzle carrying ck = b + k is solved by subtraction. */
  lemma AddModeRoundTrip(tl: TimelockRSW)
    requires tl.Trapdoor() && tl.t.Some?
    ensures tl.CkAdd().Ok?
    ensures PuzzleRSW(tl.N().value, tl.a.value, tl.t.value, tl.CkAdd().value).SolveCkADD()
      == Bytes(SetBytes(tl.key))
  {
    OwnerMatchesSolver(tl);
  }

  /** A puzzle of duration 0 is masked with a mod n itself. */
  lemma ZeroDuration(pz: PuzzleRSW)
    requires pz.t == 0
    ensures pz.Mask() == Reduce(pz.a, pz.n)
  {
  }

  /**
   * The answer SetupTimelockPuzzle returns is |ck - b|, not the key: with p = 61, q = 53,
   * a = 2, t = 0 and the key [3], b = 2 and ck = 2 XOR 3 = 1, so the answer is [1] while
   * solving the puzzle gives [3].
   */
  lemma SetupAnswerIsNotTheKey(tl: TimelockRSW)
    requires tl.p == Some(61) && tl.q == Some(53) && tl.a == Some(2) && tl.t == Some(0)
    requires tl.key == [3]
    ensures tl.Issued() == Ok(Issue(PuzzleRSW(3233, 2, 0, 1), [1]))
    ensures PuzzleRSW(3233, 2, 0, 1).Solve() == [3]
  {
    assert tl.B() == Ok(2);
    assert SetBytes(tl.key) == 3 by {
      assert tl.key[..0] == [];
    }
    assert Xor(2, 3) == 1;
    assert tl.CkXor() == Ok(1);
    assert Xor(1, 2) == 3;
  }

  /**
   * The worked example: p = 61, q = 53, a = 2, key [5], t = 3 give n = 3233, ϕ = 3120,
   * e = 8, b = 256 (the squarings 2, 4, 16, 256), ck = 256 XOR 5 = 261, and the puzzle
   * solves to [5].
   */
  lemma WorkedVector(tl: TimelockRSW)
    requires tl.p == Some(61) && tl.q == Some(53) && tl.a == Some(2) && tl.t == Some(3)
    requires tl.key == [5]
    ensures tl.N() == Ok(3233) && tl.Phi() == Ok(3120) && tl.E() == Ok(8) && tl.B() == Ok(256)
    ensures Squarings(2, 1, 3233) == 4 && Squarings(2, 2, 3233) == 16 && Squarings(2, 3, 3233) == 256
    ensures tl.CkXor() == Ok(261)
    ensures tl.Issued() == Ok(Issue(PuzzleRSW(3233, 2, 3, 261), [5]))
    ensures PuzzleRSW(3233, 2, 3, 261).Solve() == [5]
  {
    assert tl.E() == Ok(8);
    assert ModExp(2, 8, 3233) == 256;
    assert tl.B() == Ok(256);
    assert SetBytes(tl.key) == 5 by {
      assert tl.key[..0] == [];
    }
    assert Xor(256, 5) == 261;
    assert tl.CkXor() == Ok(261);
    assert Xor(261, 256) == 5;
  }
}
