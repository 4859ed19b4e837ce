/** Bytes, hashes and machine words, as the TypeScript and Rust sources use them. */
module Bytes {

  type Byte = b: int | 0 <= b < 0x100
  type Bytes = seq<Byte>

  /** A SHA-256 output. The hash itself is a parameter: any function from byte strings to 32 bytes. */
  type Digest = d: Bytes | |d| == 32 witness seq(32, _ => 0)
  type Sha = Bytes -> Digest

  const TWO_32 := 0x1_0000_0000

  const MAX_U64 := 0xFFFF_FFFF_FFFF_FFFF
  const MAX_I64 := 0x7FFF_FFFF_FFFF_FFFF
  const MIN_I64 := -0x8000_0000_0000_0000

  type U64 = x: int | 0 <= x <= MAX_U64
  type I64 = x: int | MIN_I64 <= x <= MAX_I64

  datatype Option<+T> = None | Some(value: T) {
    function GetOr(default: T): T { if Some? then value else default }
  }
  datatype Result<+T, +E> = Ok(value: T) | Err(error: E)

  ghost function AnyOf<T>(s: set<T>): (x: T)
    requires s != {}
    ensures x in s
  {
    var x :| x in s; x
  }

  /** Two different inputs, one among `xs` and one among `ys`, with the same hash. Both sets are the
      finitely many strings that two runs really hashed, so the statement is not met by every hash. */
  ghost predicate Collide(H: Sha, xs: set<Bytes>, ys: set<Bytes>) {
    exists x, y :: x in xs && y in ys && x != y && H(x) == H(y)
  }

  lemma CollideMonotone(H: Sha, xs: set<Bytes>, ys: set<Bytes>, xs': set<Bytes>, ys': set<Bytes>)
    requires Collide(H, xs, ys) && xs <= xs' && ys <= ys'
    ensures Collide(H, xs', ys')
  {
    var x, y :| x in xs && y in ys && x != y && H(x) == H(y);
    assert x in xs' && y in ys';
  }

  /** Concatenations that agree agree part by part once the first parts have one length. */
  lemma SplitConcat(a: Bytes, b: Bytes, c: Bytes, d: Bytes)
    requires |a| == |c| && a + b == c + d
    ensures a == c && b == d
  {
    assert a == (a + b)[..|a|] && c == (c + d)[..|a|];
    assert b == (a + b)[|a|..] && d == (c + d)[|a|..];
  }

  // ----- bitwise operators on words of `bits` bits -----

  function Xor(bits: nat, a: nat, b: nat): (x: nat)
    ensures x < Pow2(bits)
  {
    if bits == 0 then 0 else (a + b) % 2 + 2 * Xor(bits - 1, a / 2, b / 2)
  }

  function Or(bits: nat, a: nat, b: nat): (x: nat)
    ensures x < Pow2(bits)
  {
    if bits == 0 then 0
    else (if a % 2 == 1 || b % 2 == 1 then 1 else 0) + 2 * Or(bits - 1, a / 2, b / 2)
  }

  lemma XorDigits(bits: nat, a: nat, b: nat)
    requires bits > 0
    ensures Xor(bits, a, b) % 2 == (a + b) % 2 && Xor(bits, a, b) / 2 == Xor(bits - 1, a / 2, b / 2)
  {
  }

  lemma ParityCancels(a: nat, b: nat, x: nat)
    requires x % 2 == (a + b) % 2
    ensures (x + b) % 2 == a % 2
  {
  }

  /** Xor-ing twice with the same word gives the word back. */
  lemma {:induction false} XorInvolution(bits: nat, a: nat, b: nat)
    requires a < Pow2(bits)
    ensures Xor(bits, Xor(bits, a, b), b) == a
  {
    if bits > 0 {
      var x := Xor(bits, a, b);
      XorDigits(bits, a, b);
      XorDigits(bits, x, b);
      ParityCancels(a, b, x);
      XorInvolution(bits - 1, a / 2, b / 2);
    }
  }

  predicate Bit(a: nat, k: nat) { if k == 0 then a % 2 == 1 else Bit(a / 2, k - 1) }

  lemma ParityOfSum(a: nat, b: nat)
    ensures (a + b) % 2 == 0 <==> a % 2 == b % 2
  {
  }

  /** Xor is xor: bit k of the result is set exactly when bit k of one word is and of the other is not. */
  lemma {:induction false} XorBit(bits: nat, a: nat, b: nat, k: nat)
    requires k < bits
    ensures Bit(Xor(bits, a, b), k) <==> Bit(a, k) != Bit(b, k)
  {
    var x := Xor(bits, a, b);
    XorDigits(bits, a, b);
    if k == 0 {
      ParityOfSum(a, b);
      BitZero(x);
      BitZero(a);
      BitZero(b);
    } else {
      XorBit(bits - 1, a / 2, b / 2, k - 1);
      BitShifts(x, k);
      BitShifts(a, k);
      BitShifts(b, k);
    }
  }

  lemma BitZero(a: nat)
    ensures Bit(a, 0) <==> a % 2 != 0
  {
  }

  lemma BitShifts(a: nat, k: nat)
    requires k > 0
    ensures Bit(a, k) <==> Bit(a / 2, k - 1)
  {
  }

  lemma {:induction false} XorCommutes(bits: nat, a: nat, b: nat)
    ensures Xor(bits, a, b) == Xor(bits, b, a)
  {
    if bits > 0 {
      XorCommutes(bits - 1, a / 2, b / 2);
    }
  }

  lemma {:induction false} XorZero(bits: nat, a: nat, b: nat)
    requires a < Pow2(bits) && b < Pow2(bits)
    ensures Xor(bits, a, b) == 0 <==> a == b
  {
    if bits > 0 {
      XorZero(bits - 1, a / 2, b / 2);
      XorDigits(bits, a, b);
      ParityOfSum(a, b);
      HalvesDecide(a, b);
      HalvesDecide(Xor(bits, a, b), 0);
    }
  }

  lemma HalvesDecide(a: nat, b: nat)
    ensures a == b <==> a / 2 == b / 2 && a % 2 == b % 2
  {
  }

  lemma {:induction false} OrZero(bits: nat, a: nat, b: nat)
    requires a < Pow2(bits) && b < Pow2(bits)
    ensures Or(bits, a, b) == 0 <==> a == 0 && b == 0
  {
    if bits > 0 {
      OrZero(bits - 1, a / 2, b / 2);
    }
  }

  function Pow2(n: nat): (p: nat)
    ensures p >= 1
  {
    if n == 0 then 1 else 2 * Pow2(n - 1)
  }

  lemma Pow2Of32()
    ensures Pow2(32) == TWO_32
  {
    assert Pow2(8) == 0x100;
    assert Pow2(16) == 0x1_0000;
    assert Pow2(24) == 0x100_0000;
  }

  /** A word of differences stays 0 exactly as long as the bytes agree. */
  lemma DifferenceStep(diff: nat, x: Byte, y: Byte)
    requires diff < Pow2(8)
    ensures Or(8, diff, Xor(8, x, y)) == 0 <==> diff == 0 && x == y
  {
    assert Pow2(4) == 16 && Pow2(8) == 0x100;
    XorZero(8, x, y);
    OrZero(8, diff, Xor(8, x, y));
  }

  /** `constantTimeEqual`: the two-string comparison of `merkle.ts` and `wal.ts`. */
  method ConstantTimeEqual(a: Bytes, b: Bytes) returns (same: bool)
    ensures same <==> a == b
  {
    if |a| != |b| {
      return false;
    }
    var diff: nat := 0;
    for i := 0 to |a|
      invariant diff < Pow2(8)
      invariant diff == 0 <==> a[..i] == b[..i]
    {
      DifferenceStep(diff, a[i], b[i]);
      diff := Or(8, diff, Xor(8, a[i], b[i]));
      assert a[..i + 1] == a[..i] + [a[i]] && b[..i + 1] == b[..i] + [b[i]];
    }
    assert a[..|a|] == a && b[..|b|] == b;
    return diff == 0;
  }

  // ----- 32-bit little-endian words -----

  /** `DataView.setUint32(_, x, true)`: the value is taken modulo 2^32. */
  function Le32(x: nat): (bs: Bytes)
    ensures |bs| == 4
  {
    [x % 0x100, x / 0x100 % 0x100, x / 0x1_0000 % 0x100, x / 0x100_0000 % 0x100]
  }

  /** `DataView.getUint32(at, true)`. */
  function Word32(bs: Bytes, at: nat): (x: nat)
    requires at + 4 <= |bs|
    ensures x < TWO_32
  {
    var b0: int, b1: int, b2: int, b3: int := bs[at], bs[at + 1], bs[at + 2], bs[at + 3];
    b0 + 0x100 * b1 + 0x1_0000 * b2 + 0x100_0000 * b3
  }

  /** Little-endian: the first byte counts least. */
  lemma LittleEndian(bs: Bytes, at: nat)
    requires at + 4 <= |bs|
    ensures var b0: int, b1: int, b2: int, b3: int := bs[at], bs[at + 1], bs[at + 2], bs[at + 3];
            Word32(bs, at) == b0 + 256 * (b1 + 256 * (b2 + 256 * b3))
  {
  }

  lemma Le32RoundTrip(x: nat)
    ensures Word32(Le32(x), 0) == x % TWO_32
  {
    var y := x / 0x100;
    var z := y / 0x100;
    assert x / 0x1_0000 == z;
    assert x / 0x100_0000 == z / 0x100;
    assert x == x % 0x100 + 0x100 * (y % 0x100) + 0x1_0000 * (z % 0x100) + 0x100_0000 * (z / 0x100);
  }
}
