/**
 * The RSW time-lock puzzle (Rivest, Shamir and Wagner, "Time-lock puzzles and timed-release
 * crypto", 1996). The owner, TimelockRSW, knows two primes p and q and can therefore reduce
 * the exponent 2^t modulo the totient; the public PuzzleRSW (n, a, t, ck) lets anyone recover
 * the payload by computing a^(2^t) mod n, that is by t modular squarings.
 */
module Rsw {
  import opened Wrappers
  import opened NumberTheory
  import opened BigNat

  /** The derived quantity named by a wrapped error ("Could not find ..."). */
  datatype Quantity = ModulusN | TotientPhi | ExponentE | LockedB | MaskedCk

  /** The errors of the derivations; each caller wraps the error of the derivation it needed. */
  datatype Error =
    | NeedPQForN
    | NeedPQForPhi
    | NeedT
    | NeedA
    | CouldNotFind(what: Quantity, cause: Error)

  /** The public puzzle: modulus, base, duration and masked payload. */
  datatype PuzzleRSW = PuzzleRSW(n: nat, a: nat, t: nat, ck: nat)
  {
    /** The mask a^(2^t) mod n, recomputed from the public fields alone. */
    function Mask(): (m: nat)
      ensures m == Reduce(Squarings(a, t, n), n)
      ensures n > 0 ==> m < n
    {
      SquaringsArePower(a, t, n);
      ModExp(a, Pow(2, t), n)
    }

    /** Unmasks by subtraction; Int.Bytes keeps only the absolute value of the difference. */
    function SolveCkADD(): (answer: seq<byte>)
      ensures Minimal(answer)
      ensures ck >= Mask() ==> SetBytes(answer) + Mask() == ck
      ensures ck < Mask() ==> SetBytes(answer) + ck == Mask()
    {
      SetBytesOfBytes(AbsDiff(ck, Mask()));
      BytesMinimal(AbsDiff(ck, Mask()));
      Bytes(AbsDiff(ck, Mask()))
    }

    /** Unmasks by exclusive or. */
    function SolveCkXOR(): (answer: seq<byte>)
      ensures Minimal(answer)
      ensures Xor(SetBytes(answer), Mask()) == ck
    {
      SetBytesOfBytes(Xor(ck, Mask()));
      BytesMinimal(Xor(ck, Mask()));
      XorSelfInverse(ck, Mask());
      Bytes(Xor(ck, Mask()))
    }

    /** The default solver: exclusive-or unmasking, the mode SetupTimelockPuzzle uses. */
    function Solve(): (answer: seq<byte>)
      ensures Minimal(answer)
      ensures Xor(SetBytes(answer), Mask()) == ck
      ensures answer == SolveCkXOR()
    {
      SolveCkXOR()
    }
  }

  /** What SetupTimelockPuzzle hands out: the public puzzle and its answer. */
  datatype Issue = Issue(puzzle: PuzzleRSW, answer: seq<byte>)

  /** The owner side: the secret primes, the base, the payload and the duration. */
  class TimelockRSW {
    var rsaKeyBits: int
    var key: seq<byte>
    var p: Option<nat>
    var q: Option<nat>
    var t: Option<nat>
    var a: Option<nat>

    /**
     * New, with the primes the RSA key generator would produce given as p and q. The base
     * is a Go int64.
     */
    constructor New(key: seq<byte>, a: nat, rsaKeyBits: int, p: nat, q: nat)
      requires a < 0x8000_0000_0000_0000
      requires IsPrime(p) && IsPrime(q) && p != q
      ensures this.rsaKeyBits == rsaKeyBits && this.key == key && this.a == Some(a)
      ensures this.p == Some(p) && this.q == Some(q) && this.t == None
    {
      this.rsaKeyBits := rsaKeyBits;
      this.p := Some(p);
      this.q := Some(q);
      this.a := Some(a);
      this.key := key;
      this.t := None;
    }

    /** New with a 2048-bit modulus. */
    static method New2048(key: seq<byte>, a: nat, p: nat, q: nat) returns (tl: TimelockRSW)
      requires a < 0x8000_0000_0000_0000
      requires IsPrime(p) && IsPrime(q) && p != q
      ensures fresh(tl)
      ensures tl.rsaKeyBits == 2048 && tl.key == key && tl.a == Some(a)
      ensures tl.p == Some(p) && tl.q == Some(q) && tl.t == None
    {
      tl := new TimelockRSW.New(key, a, 2048, p, q);
    }

    /** New with a 2048-bit modulus and the base 2. */
    static method New2048A2(key: seq<byte>, p: nat, q: nat) returns (tl: TimelockRSW)
      requires IsPrime(p) && IsPrime(q) && p != q
      ensures fresh(tl)
      ensures tl.rsaKeyBits == 2048 && tl.key == key && tl.a == Some(2)
      ensures tl.p == Some(p) && tl.q == Some(q) && tl.t == None
    {
      tl := new TimelockRSW.New(key, 2, 2048, p, q);
    }

    /** The trapdoor conditions: distinct primes p, q and a base coprime to n = pq. */
    ghost predicate Trapdoor()
      reads this
    {
      p.Some? && q.Some? && a.Some? &&
      IsPrime(p.value) && IsPrime(q.value) && p.value != q.value &&
      Gcd(a.value, p.value * q.value) == 1
    }

    /** n = pq. */
    function N(): (r: Result<nat, Error>)
      reads this
      ensures r.Err? <==> p.None? || q.None?
      ensures r.Err? ==> r.error == NeedPQForN
    {
      if p.None? || q.None? then Err(NeedPQForN) else Ok(p.value * q.value)
    }

    /** The totient (p-1)(q-1); a Go big.Int, so it is negative if exactly one of p, q is 0. */
    function Phi(): (r: Result<int, Error>)
      reads this
      ensures r.Err? <==> p.None? || q.None?
      ensures r.Err? ==> r.error == NeedPQForPhi
    {
      if p.None? || q.None? then Err(NeedPQForPhi) else Ok((p.value - 1) * (q.value - 1))
    }

    /** The owner's exponent e = 2^t mod ϕ (big.Int.Exp uses |ϕ|, and a zero ϕ means no reduction). */
    function E(): (r: Result<nat, Error>)
      reads this
      ensures t.None? ==> r == Err(NeedT)
      ensures t.Some? && Phi().Err? ==> r == Err(CouldNotFind(TotientPhi, Phi().error))
      ensures r.Ok? <==> t.Some? && Phi().Ok?
      ensures r.Ok? && Phi().value != 0 ==>
        r.value < Abs(Phi().value) && r.value % Abs(Phi().value) == Pow(2, t.value) % Abs(Phi().value)
    {
      if t.None? then Err(NeedT)
      else match Phi()
        case Err(cause) => Err(CouldNotFind(TotientPhi, cause))
        case Ok(phi) =>
          var m := Abs(phi);
          if m != 0 then
            ModUnique(Pow(2, t.value) % m, m, 0, Pow(2, t.value) % m);
            Ok(ModExp(2, t.value, m))
          else
            Ok(ModExp(2, t.value, m))
    }

    /** The locked value b = a^e mod n. */
    function B(): (r: Result<nat, Error>)
      reads this
      ensures a.None? ==> r == Err(NeedA)
      ensures a.Some? && N().Err? ==> r == Err(CouldNotFind(ModulusN, N().error))
      ensures a.Some? && N().Ok? && E().Err? ==> r == Err(CouldNotFind(ExponentE, E().error))
      ensures r.Ok? <==> a.Some? && N().Ok? && E().Ok?
      ensures r.Ok? && N().value > 0 ==> r.value < N().value
    {
      if a.None? then Err(NeedA)
      else match N()
        case Err(cause) => Err(CouldNotFind(ModulusN, cause))
        case Ok(n) =>
          match E()
          case Err(cause) => Err(CouldNotFind(ExponentE, cause))
          case Ok(e) => Ok(ModExp(a.value, e, n))
    }

    /** The masked payload ck = b XOR k, with k the big-endian value of the key. */
    function CkXor(): (r: Result<nat, Error>)
      reads this
      ensures B().Err? ==> r == Err(CouldNotFind(LockedB, B().error))
      ensures r.Ok? <==> B().Ok?
      ensures r.Ok? ==> Xor(r.value, B().value) == SetBytes(key)
    {
      match B()
      case Err(cause) => Err(CouldNotFind(LockedB, cause))
      case Ok(b) =>
        XorUnmask(b, SetBytes(key));
        XorCommutes(Xor(b, SetBytes(key)), b);
        Ok(Xor(b, SetBytes(key)))
    }

    /** The masked payload ck = b + k, without reduction modulo n. */
    function CkAdd(): (r: Result<nat, Error>)
      reads this
      ensures B().Err? ==> r == Err(CouldNotFind(LockedB, B().error))
      ensures r.Ok? <==> B().Ok?
      ensures r.Ok? ==> r.value >= B().value && r.value - B().value == SetBytes(key)
    {
      match B()
      case Err(cause) => Err(CouldNotFind(LockedB, cause))
      case Ok(b) => Ok(b + SetBytes(key))
    }

    /** What SetupTimelockPuzzle computes once it has recorded t. */
    function Issued(): (r: Result<Issue, Error>)
      reads this
      ensures N().Err? ==> r == Err(CouldNotFind(ModulusN, N().error))
      ensures N().Ok? && CkXor().Err? ==> r == Err(CouldNotFind(MaskedCk, CkXor().error))
      ensures r.Ok? <==> N().Ok? && CkXor().Ok?
      ensures r.Ok? ==> r.value.puzzle == PuzzleRSW(N().value, a.value, t.value, CkXor().value)
      ensures r.Ok? ==> SetBytes(r.value.answer) == AbsDiff(CkXor().value, B().value)
      ensures r.Ok? ==> Minimal(r.value.answer)
    {
      match N()
      case Err(cause) => Err(CouldNotFind(ModulusN, cause))
      case Ok(n) =>
        match CkXor()
        case Err(cause) => Err(CouldNotFind(MaskedCk, cause))
        case Ok(ck) =>
          var puzzle := PuzzleRSW(n, a.value, t.value, ck);
          // b() is asked for again; it cannot fail now, since ckXOR() has just succeeded
          var b := B().value;
          SetBytesOfBytes(AbsDiff(ck, b));
          BytesMinimal(AbsDiff(ck, b));
          Ok(Issue(puzzle, Bytes(AbsDiff(ck, b))))
    }

    /** Records t, then derives the public puzzle and the answer. */
    method SetupTimelockPuzzle(t: nat) returns (r: Result<Issue, Error>)
      requires t < 0x1_0000_0000_0000_0000
      modifies this
      ensures this.t == Some(t)
      ensures p == old(p) && q == old(q) && a == old(a) && key == old(key) && rsaKeyBits == old(rsaKeyBits)
      ensures r == Issued()
    {
      this.t := Some(t);
      var n := N();
      if n.Err? {
        return Err(CouldNotFind(ModulusN, n.error));
      }
      var ck := CkXor();
      if ck.Err? {
        return Err(CouldNotFind(MaskedCk, ck.error));
      }
      var puzzle := PuzzleRSW(n.value, a.value, this.t.value, ck.value);
      var b := B();
      if b.Err? {
        // unreachable: ckXOR() has just computed b() successfully
        assert false;
      }
      r := Ok(Issue(puzzle, Bytes(AbsDiff(ck.value, b.value))));
    }
  }
}
