/**
 * The operations of Go's math/big that the puzzle applies to non-negative integers: bitwise
 * exclusive or (Int.Xor), subtraction followed by Int.Bytes (which keeps only the absolute
 * value), and the big-endian conversions Int.SetBytes and Int.Bytes.
 */
module BigNat {

  newtype byte = x: int | 0 <= x < 256

  /** Bitwise exclusive or of two naturals, bit by bit from the least significant. */
  function Xor(x: nat, y: nat): nat
    decreases x + y
  {
    if x == 0 && y == 0 then 0
    else 2 * Xor(x / 2, y / 2) + (if x % 2 == y % 2 then 0 else 1)
  }

  /** |x - y|: what Int.Bytes keeps of the difference x - y. */
  function AbsDiff(x: nat, y: nat): nat
  {
    if x >= y then x - y else y - x
  }

  /** Int.SetBytes: the bytes read as a big-endian unsigned integer. */
  function SetBytes(bs: seq<byte>): nat
  {
    if bs == [] then 0 else SetBytes(bs[..|bs| - 1]) * 256 + bs[|bs| - 1] as nat
  }

  /** Int.Bytes: the big-endian bytes of x, without leading zero bytes (none at all for 0). */
  function Bytes(x: nat): seq<byte>
  {
    if x == 0 then [] else Bytes(x / 256) + [(x % 256) as byte]
  }

  /** No leading zero byte: the form Int.Bytes produces. */
  predicate Minimal(bs: seq<byte>)
  {
    bs == [] || bs[0] != 0
  }

  // ---------------------------------------------------------------------------
  // Exclusive or

  lemma {:induction false} XorZero(x: nat)
    ensures Xor(x, 0) == x
    decreases x
  {
    if x > 0 {
      XorZero(x / 2);
    }
  }

  lemma {:induction false} XorCommutes(x: nat, y: nat)
    ensures Xor(x, y) == Xor(y, x)
    decreases x + y
  {
    if x != 0 || y != 0 {
      XorCommutes(x / 2, y / 2);
    }
  }

  /** Exclusive or with the same value twice gives back the original: (x XOR y) XOR y = x. */
  lemma {:induction false} XorSelfInverse(x: nat, y: nat)
    ensures Xor(Xor(x, y), y) == x
    decreases x + y
  {
    if y == 0 {
      XorZero(x);
    } else {
      var w := Xor(x / 2, y / 2);
      var z := Xor(x, y);
      assert z == 2 * w + (if x % 2 == y % 2 then 0 else 1);
      assert z / 2 == w;
      XorSelfInverse(x / 2, y / 2);
    }
  }

  /** Unmasking: the mask XOR-ed with the masked value gives back the payload. */
  lemma XorUnmask(b: nat, k: nat)
    ensures Xor(Xor(b, k), b) == k
  {
    XorCommutes(b, k);
    XorSelfInverse(k, b);
  }

  // ---------------------------------------------------------------------------
  // Big-endian bytes

  lemma {:induction false} BytesMinimal(x: nat)
    ensures Minimal(Bytes(x))
    decreases x
  {
    if x > 0 {
      BytesMinimal(x / 256);
    }
  }

  /** Reading back the bytes of x gives x. */
  lemma {:induction false} SetBytesOfBytes(x: nat)
    ensures SetBytes(Bytes(x)) == x
    decreases x
  {
    if x > 0 {
      var bs := Bytes(x);
      assert bs[..|bs| - 1] == Bytes(x / 256);
      SetBytesOfBytes(x / 256);
    }
  }

  lemma {:induction false} SetBytesPositive(bs: seq<byte>)
    requires bs != [] && bs[0] != 0
    ensures SetBytes(bs) > 0
    decreases |bs|
  {
    if |bs| > 1 {
      SetBytesPositive(bs[..|bs| - 1]);
    }
  }

  /** Writing back the value of a byte string without leading zeros gives that byte string. */
  lemma {:induction false} BytesOfSetBytes(bs: seq<byte>)
    requires Minimal(bs)
    ensures Bytes(SetBytes(bs)) == bs
    decreases |bs|
  {
    if bs != [] {
      var init, last := bs[..|bs| - 1], bs[|bs| - 1];
      if init == [] {
        assert bs == [last];
      } else {
        SetBytesPositive(init);
        BytesOfSetBytes(init);
      }
      var x := SetBytes(bs);
      assert x == SetBytes(init) * 256 + last as nat;
      assert x / 256 == SetBytes(init) && x % 256 == last as nat;
      assert bs == init + [last];
    }
  }

  /** Int.Bytes(Int.SetBytes(bs)) is bs exactly when bs has no leading zero byte. */
  lemma BytesRoundTrip(bs: seq<byte>)
    ensures Bytes(SetBytes(bs)) == bs <==> Minimal(bs)
  {
    BytesMinimal(SetBytes(bs));
    if Minimal(bs) {
      BytesOfSetBytes(bs);
    }
  }
}
