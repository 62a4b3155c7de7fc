# RSW time-lock puzzle, modelled in Dafny

This project models the Rivest–Shamir–Wagner time-lock puzzle of `crypto/rsw/rswtimelock.go`.

**Owner side.** `TimelockRSW` holds two secret primes `p` and `q`, a base `a`, a payload `key` and a duration `t`. From these it derives:

- `n = pq`
- `ϕ = (p-1)(q-1)`
- the reduced exponent `e = 2^t mod ϕ`
- the locked value `b = a^e mod n`
- the masked payload `ck`, either `b XOR k` or `b + k`, where `k` is the key read as a big-endian integer.

`SetupTimelockPuzzle(t)` records `t` in the owner. It returns the public `PuzzleRSW (n, a, t, ck)` and an "answer".

**Solver side.** `PuzzleRSW` recomputes the mask `a^(2^t) mod n` from the public fields alone. It then unmasks with XOR (`SolveCkXOR`, `Solve`) or with subtraction (`SolveCkADD`).

Layout:

- `wrappers.dfy` (`Wrappers`): `Option` stands for a Go pointer that may be nil. `Result` stands for a Go `(value, err)` pair.
- `number_theory.dfy` (`NumberTheory`): the arithmetic behind the scheme.
  - Powers, and `ModExp`, which is `big.Int.Exp`: a zero modulus means no reduction, and the sign of the modulus is ignored.
  - `Gcd` and primes.
  - Euclid's lemma, Fermat's little theorem (by the product of the residues `a·1 … a·(p-1)`) and Euler's theorem for `n = pq`.
  - The exponent-reduction theorem.
  - Repeated squaring.
- `big_nat.dfy` (`BigNat`): the `math/big` operations the code applies to non-negative values: `Xor`, the absolute difference that `Sub(...).Bytes()` leaves, and the big-endian `SetBytes` and `Bytes`.
- `rsw.dfy` (`Rsw`): the owner and the puzzle.
  - Errors are a `Quantity`/`Error` chain. It mirrors the "Could not find …" wrapping, so the order in which the derivations fail is visible.
  - `PuzzleRSW` is an immutable datatype. Its solvers are member functions.
  - `TimelockRSW` is a class with `Option<nat>` fields. Its derivations are functions that read the object. `SetupTimelockPuzzle` is a method that modifies the object.
- `rsw_properties.dfy` (`RswProperties`): lemmas relating the two sides.

Where the code differs from the scheme as it is usually described, the code is modelled:

- The answer of `SetupTimelockPuzzle` is `Bytes(|ck - b|)`, not the key (see `SetupAnswerIsNotTheKey`).
- The code has none of the following:
  - a rejection of `p = q`
  - a check of a zero base
  - a bound `k < n`
  - a fixed-length encoding of `b` and `k`
  - cancellation
- The solver uses `big.Int.Exp` on the full exponent `2^t`. The model proves that this equals `t` modular squarings (`PuzzleRSW.Mask`).
- For the worked example `p = 61, q = 53, a = 2, key = [5], t = 3`, the code gives the masked value `ck = 256 XOR 5 = 261`.

## Model

| member | source | states |
|---|---|---|
| `Rsw.TimelockRSW.New` | crypto/rsw/rswtimelock.go:34-54 | sets `rsaKeyBits`, `key`, `a` and the two primes; `t` stays unset |
| `Rsw.TimelockRSW.New2048` | crypto/rsw/rswtimelock.go:57-59 | a fresh owner with `rsaKeyBits = 2048` and the given base |
| `Rsw.TimelockRSW.New2048A2` | crypto/rsw/rswtimelock.go:62-64 | a fresh owner with `rsaKeyBits = 2048` and base 2 |
| `Rsw.TimelockRSW.N` | crypto/rsw/rswtimelock.go:66-74 | `n()` fails, with its own error, exactly when `p` or `q` is unset |
| `Rsw.TimelockRSW.Phi` | crypto/rsw/rswtimelock.go:77-85 | `ϕ()` fails, with its own error, exactly when `p` or `q` is unset |
| `Rsw.TimelockRSW.E` | crypto/rsw/rswtimelock.go:88-101 | the unset-`t` error comes before `ϕ`'s error; otherwise `e()` fails exactly when `ϕ()` does, wrapping its error; on success with `ϕ ≠ 0`, `e < |ϕ|` and `e ≡ 2^t (mod ϕ)` |
| `Rsw.TimelockRSW.B` | crypto/rsw/rswtimelock.go:104-122 | the checks run in this order: `a` unset, then `n()`'s error (wrapped), then `e()`'s error (wrapped); it succeeds exactly when all three succeed, and then `b < n` whenever `n > 0` |
| `Rsw.TimelockRSW.CkXor` | crypto/rsw/rswtimelock.go:124-136 | fails exactly when `b()` fails, wrapping its error; on success `ck XOR b` is the key's value, for every key with no bound `k < n` |
| `Rsw.TimelockRSW.CkAdd` | crypto/rsw/rswtimelock.go:138-151 | fails exactly when `b()` fails; on success `ck ≥ b` and `ck - b` is the key's value (no reduction mod `n`) |
| `Rsw.TimelockRSW.Issued` | crypto/rsw/rswtimelock.go:157-183 | with `t` recorded: `n()`'s error comes first, then `ckXOR()`'s (each wrapped); on success the puzzle is `(pq, a, t, ckXOR)` and the answer is the minimal big-endian encoding of `|ck - b|` (no leading zero byte) |
| `Rsw.TimelockRSW.SetupTimelockPuzzle` | crypto/rsw/rswtimelock.go:155-184 | sets `t` (overwriting any earlier one) and leaves `p`, `q`, `a`, `key`, `rsaKeyBits` unchanged; returns `Issued()` of the new state; the third error check, after `ckXOR()` succeeded, is unreachable |
| `Rsw.PuzzleRSW.Mask` | crypto/rsw/rswtimelock.go:192-196 | `a^(2^t) mod n` equals `t` squarings `s₀ = a, sᵢ₊₁ = sᵢ² mod n`, reduced mod `n`; it is below `n` when `n > 0` |
| `Rsw.PuzzleRSW.SolveCkADD` | crypto/rsw/rswtimelock.go:186-190 | the answer has no leading zero byte and encodes `|ck - mask|`; it never fails |
| `Rsw.PuzzleRSW.SolveCkXOR` | crypto/rsw/rswtimelock.go:192-196 | the answer has no leading zero byte, and XOR-ing its value with the mask gives back `ck`; it never fails |
| `Rsw.PuzzleRSW.Solve` | crypto/rsw/rswtimelock.go:198-201 | the answer has no leading zero byte, and XOR-ing its value with the mask `a^(2^t) mod n` gives back `ck`; this is the exclusive-or unmasking |
| `RswProperties.ModulusAndTotient` | crypto/rsw/rswtimelock.go:66-85 | with `p`, `q` set: `n = pq`, `ϕ = (p-1)(q-1)`, `n - ϕ = p + q - 1`; for primes `0 < ϕ < n` |
| `RswProperties.OwnerMatchesSolver` | crypto/rsw/rswtimelock.go:103-122 | for distinct primes and `gcd(a, n) = 1`, the owner's `b = a^(2^t mod ϕ) mod n` equals the solver's `a^(2^t) mod n`, and so equals `t` squarings |
| `RswProperties.TrapdoorNeedsCoprimeBase` | crypto/rsw/rswtimelock.go:103 | the identity in the comment of `b()` fails without coprimality: `p=3, q=5, a=3, t=3` give `e = 0` and `b = 1`, while `3^8 mod 15 = 6` |
| `RswProperties.SetupSucceedsWhenReady` | crypto/rsw/rswtimelock.go:155-184 | once `t` is recorded, setup succeeds exactly when `p`, `q` and `a` are set; names the error of each failing case |
| `RswProperties.SetupRoundTrip` | crypto/rsw/rswtimelock.go:155-201 | under the trapdoor conditions, `Solve` of the issued puzzle returns `Bytes(SetBytes(key))`; this equals `key` exactly when `key` has no leading zero byte |
| `RswProperties.AddModeRoundTrip` | crypto/rsw/rswtimelock.go:138-151 | under the trapdoor conditions, a puzzle carrying `ck = b + k` is solved by `SolveCkADD` to `Bytes(k)` |
| `RswProperties.ZeroDuration` | crypto/rsw/rswtimelock.go:192-196 | for `t = 0` the mask is `a mod n` |
| `RswProperties.SetupAnswerIsNotTheKey` | crypto/rsw/rswtimelock.go:181-182 | `p=61, q=53, a=2, t=0, key=[3]`: the returned answer is `[1]`, while the puzzle solves to `[3]` |
| `RswProperties.WorkedVector` | crypto/rsw/rswtimelock.go:155-201 | `p=61, q=53, a=2, key=[5], t=3`: `n=3233`, `ϕ=3120`, `e=8`, `b=256` (squarings 2→4→16→256), `ck=261`; the answer and the solution are both `[5]` |
| `NumberTheory.ReducedExponent` | crypto/rsw/rswtimelock.go:99 | for distinct primes `p`, `q` and `gcd(a, pq) = 1`, reducing any exponent mod `(p-1)(q-1)` leaves `a^x mod pq` unchanged (Euler's theorem) |
| `NumberTheory.SquaringsArePower` | crypto/rsw/rswtimelock.go:186-196 | `t` squarings of `a`, reduced by `n`, equal `big.Int.Exp(a, 2^t, n)`, also for `n = 0` |
| `BigNat.XorUnmask` | crypto/rsw/rswtimelock.go:134 | `(b XOR k) XOR b = k` for all naturals |
| `BigNat.BytesRoundTrip` | crypto/rsw/rswtimelock.go:131 | `Bytes(SetBytes(bs)) = bs` exactly when `bs` has no leading zero byte |
| `BigNat.SetBytesOfBytes` | crypto/rsw/rswtimelock.go:195 | `SetBytes(Bytes(x)) = x` |

## Left out

- Prime generation: `rsa.GenerateMultiPrimeKey` over `crypto/rand`, its error and the check for exactly two primes (lines 39-46) are randomness and library code. The primes are parameters of `New`, and it requires them to be distinct primes, as the key generator guarantees. `rsaKeyBits` is stored but has no effect.
- The `crypto.Timelock` and `crypto.Puzzle` interfaces are not part of this model. `fmt.Errorf` messages become `Error` values that keep only the wrapping structure.
- Negative bases: `New` takes an `int64` base. The model takes a natural number below 2^63. `Exp` and `Xor` on negative `big.Int` values are not modelled.
- The puzzle's `a` shares the owner's `*big.Int`. Neither side mutates it, so it is modelled as a copied value.
- `New` keeps the caller's `key` slice (line 50), so a caller who changes that slice afterwards changes what later setups lock. The model copies the key as an immutable sequence and does not capture this aliasing.
- A `PuzzleRSW` with a nil `a`, `t` or `ck`, which makes the Go solvers panic, cannot be expressed: the puzzle's fields are plain naturals. (A nil `n` is no reduction in `big.Int.Exp`; the model's `n = 0` covers that case.)
- Sequential-work hardness and the running time of `Exp(2, t, nil)` are not functional properties. The code has no cancellation.
