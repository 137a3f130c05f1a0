/**
 * The reference definition of CRC-16, over GF(2): a register of sixteen bits fed with message bits,
 * lowest bit of each byte first. Here lie the algebraic facts the detection theorems rest on.
 */
module Gf2 {
  type Vector = seq<bool>

  // ----- Vectors over GF(2) -----

  function Xor(a: Vector, b: Vector): (c: Vector)
    requires |a| == |b|
    ensures |c| == |a| && forall i :: 0 <= i < |c| ==> c[i] == (a[i] != b[i])
  {
    seq(|a|, i requires 0 <= i < |a| => a[i] != b[i])
  }

  function Zeros(n: nat): (z: Vector)
    ensures |z| == n && forall i :: 0 <= i < n ==> !z[i]
  {
    seq(n, i => false)
  }

  /** Whether an odd number of bits is set. */
  function Odd(v: Vector): bool {
    if v == [] then false else v[0] != Odd(v[1..])
  }

  lemma {:induction false} OddXor(a: Vector, b: Vector)
    requires |a| == |b|
    ensures Odd(Xor(a, b)) == (Odd(a) != Odd(b))
  {
    if a != [] {
      assert Xor(a, b)[1..] == Xor(a[1..], b[1..]);
      OddXor(a[1..], b[1..]);
    }
  }

  lemma {:induction false} OddAppend(a: Vector, b: Vector)
    ensures Odd(a + b) == (Odd(a) != Odd(b))
  {
    if a == [] {
      assert a + b == b;
    } else {
      assert (a + b)[1..] == a[1..] + b;
      OddAppend(a[1..], b);
    }
  }

  // ----- The register -----

  const WIDTH := 16

  /** 0xA001, least significant bit first. */
  const POLYNOMIAL: Vector :=
    [true, false, false, false, false, false, false, false, false, false, false, false, false, true, false, true]

  type Register = v: Vector | |v| == WIDTH witness POLYNOMIAL

  const INITIAL: Register :=
    [true, true, true, true, true, true, true, true, true, true, true, true, true, true, true, true]

  function Shift(c: Register): Register {
    var s := c[1..] + [false];
    if c[0] then Xor(s, POLYNOMIAL) else s
  }

  function ShiftN(c: Register, n: nat): Register
    decreases n
  {
    if n == 0 then c else ShiftN(Shift(c), n - 1)
  }

  function Flip(c: Register, b: bool): Register {
    c[0 := c[0] != b]
  }

  /** The register after a sequence of message bits. */
  function Feed(c: Register, bits: Vector): Register
    decreases |bits|
  {
    if bits == [] then c else Feed(Shift(Flip(c, bits[0])), bits[1..])
  }

  lemma ShiftXor(a: Register, b: Register)
    ensures Shift(Xor(a, b)) == Xor(Shift(a), Shift(b))
  {
    forall i | 0 <= i < WIDTH
      ensures Shift(Xor(a, b))[i] == Xor(Shift(a), Shift(b))[i]
    {
      assert i < 15 ==> Xor(a, b)[1..][i] == (a[1..][i] != b[1..][i]);
    }
  }

  lemma ShiftInjective(a: Register, b: Register)
    requires Shift(a) == Shift(b)
    ensures a == b
  {
    assert Shift(a)[15] == a[0] && Shift(b)[15] == b[0];
    forall i | 1 <= i < WIDTH
      ensures a[i] == b[i]
    {
      assert Shift(a)[i - 1] == (a[i] != (a[0] && POLYNOMIAL[i - 1]));
      assert Shift(b)[i - 1] == (b[i] != (b[0] && POLYNOMIAL[i - 1]));
    }
  }

  lemma ShiftKeepsParity(c: Register)
    ensures Odd(Shift(c)) == Odd(c)
  {
    OddAppend(c[1..], [false]);
    if c[0] {
      OddXor(c[1..] + [false], POLYNOMIAL);
      PolynomialIsOdd();
    }
  }

  /** The generator has an even number of terms, so the register constant has three ones. */
  lemma PolynomialIsOdd()
    ensures Odd(POLYNOMIAL)
  {
    var p := POLYNOMIAL;
    assert p == [true] + Zeros(12) + [true, false, true];
    OddAppend([true] + Zeros(12), [true, false, true]);
    OddAppend([true], Zeros(12));
    OddZeros(12);
    assert Odd([true, false, true]) == false;
    assert Odd([true]);
  }

  lemma {:induction false} OddZeros(n: nat)
    ensures !Odd(Zeros(n))
  {
    if n > 0 {
      assert Zeros(n)[1..] == Zeros(n - 1);
      OddZeros(n - 1);
    }
  }

  // ----- Feeding is linear, injective in the register, and keeps parity -----

  lemma {:induction false} FeedXor(a: Register, b: Register, u: Vector, v: Vector)
    requires |u| == |v|
    ensures Feed(Xor(a, b), Xor(u, v)) == Xor(Feed(a, u), Feed(b, v))
    decreases |u|
  {
    if u != [] {
      var a', b' := Flip(a, u[0]), Flip(b, v[0]);
      assert Flip(Xor(a, b), Xor(u, v)[0]) == Xor(a', b');
      ShiftXor(a', b');
      assert Xor(u, v)[1..] == Xor(u[1..], v[1..]);
      FeedXor(Shift(a'), Shift(b'), u[1..], v[1..]);
    }
  }

  lemma {:induction false} FeedInjective(a: Register, b: Register, bits: Vector)
    requires Feed(a, bits) == Feed(b, bits)
    ensures a == b
    decreases |bits|
  {
    if bits != [] {
      FeedInjective(Shift(Flip(a, bits[0])), Shift(Flip(b, bits[0])), bits[1..]);
      ShiftInjective(Flip(a, bits[0]), Flip(b, bits[0]));
      assert Flip(a, bits[0])[0] == Flip(b, bits[0])[0];
      forall i | 0 <= i < WIDTH
        ensures a[i] == b[i]
      {
        assert i > 0 ==> Flip(a, bits[0])[i] == Flip(b, bits[0])[i];
      }
    }
  }

  lemma {:induction false} FeedParity(c: Register, bits: Vector)
    ensures Odd(Feed(c, bits)) == (Odd(c) != Odd(bits))
    decreases |bits|
  {
    if bits != [] {
      FeedParity(Shift(Flip(c, bits[0])), bits[1..]);
      ShiftKeepsParity(Flip(c, bits[0]));
      assert Flip(c, bits[0])[1..] == c[1..];
    }
  }

  lemma {:induction false} FeedAppend(c: Register, u: Vector, v: Vector)
    ensures Feed(c, u + v) == Feed(Feed(c, u), v)
    decreases |u|
  {
    if u == [] {
      assert u + v == v;
    } else {
      assert (u + v)[1..] == u[1..] + v;
      FeedAppend(Shift(Flip(c, u[0])), u[1..], v);
    }
  }

  lemma {:induction false} FeedZeros(n: nat)
    ensures Feed(Zeros(WIDTH), Zeros(n)) == Zeros(WIDTH)
  {
    if n > 0 {
      var z: Register := Zeros(WIDTH);
      assert Shift(Flip(z, false)) == z;
      assert Zeros(n)[1..] == Zeros(n - 1);
      FeedZeros(n - 1);
    }
  }

  function Pad(w: Vector): Register
    requires |w| <= WIDTH
  {
    w + Zeros(WIDTH - |w|)
  }

  /** Up to sixteen bits may be mixed into the register at once, then shifted: the byte-wise form. */
  lemma {:induction false} FeedWindow(c: Register, w: Vector)
    requires |w| <= WIDTH
    ensures Feed(c, w) == ShiftN(Xor(c, Pad(w)), |w|)
    decreases |w|
  {
    if w == [] {
      assert Xor(c, Pad(w)) == c;
    } else {
      var c1, r := Flip(c, w[0]), w[1..];
      var ahead: Register := [false] + r + Zeros(WIDTH - |w|);
      assert Xor(c, Pad(w)) == Xor(c1, ahead);
      ShiftXor(c1, ahead);
      assert Shift(ahead) == Pad(r);
      FeedWindow(Shift(c1), r);
    }
  }

  lemma {:induction false} ShiftNZero(c: Register, n: nat)
    ensures ShiftN(c, n) == Zeros(WIDTH) <==> c == Zeros(WIDTH)
    decreases n
  {
    if n > 0 {
      ShiftNZero(Shift(c), n - 1);
      var z: Register := Zeros(WIDTH);
      assert Shift(z) == z;
      if Shift(c) == z {
        ShiftInjective(c, z);
      }
    }
  }

  lemma XorIsZero(a: Register, b: Register)
    ensures Xor(a, b) == Zeros(WIDTH) <==> a == b
  {
    if Xor(a, b) == Zeros(WIDTH) {
      forall i | 0 <= i < WIDTH
        ensures a[i] == b[i]
      {
        assert !Xor(a, b)[i];
      }
    }
  }

  // ----- Error patterns -----

  /** Some bit is flipped, and all flipped bits lie within sixteen consecutive ones. */
  predicate Burst(e: Vector, start: nat) {
    && start <= |e|
    && (exists i :: start <= i < |e| && e[i])
    && forall i :: 0 <= i < |e| && e[i] ==> start <= i < start + WIDTH
  }

  lemma BurstLeavesResidue(e: Vector, start: nat)
    requires Burst(e, start)
    ensures Feed(Zeros(WIDTH), e) != Zeros(WIDTH)
  {
    var stop := if start + WIDTH <= |e| then start + WIDTH else |e|;
    var w := e[start..stop];
    assert e[..start] == Zeros(start);
    assert e[stop..] == Zeros(|e| - stop);
    assert e == e[..start] + (w + e[stop..]);
    FeedAppend(Zeros(WIDTH), e[..start], w + e[stop..]);
    FeedZeros(start);
    FeedAppend(Zeros(WIDTH), w, e[stop..]);
    WindowLeavesResidue(e, start, stop);
    if Feed(Zeros(WIDTH), e) == Zeros(WIDTH) {
      FeedZeros(|e| - stop);
      FeedInjective(Feed(Zeros(WIDTH), w), Zeros(WIDTH), Zeros(|e| - stop));
    }
  }

  lemma WindowLeavesResidue(e: Vector, start: nat, stop: nat)
    requires Burst(e, start) && start <= stop <= |e| && stop - start <= WIDTH
    requires stop == |e| || stop == start + WIDTH
    ensures Feed(Zeros(WIDTH), e[start..stop]) != Zeros(WIDTH)
  {
    var i :| start <= i < |e| && e[i];
    hide *;
    assert e[start..stop][i - start];
    SetBitLeavesResidue(e[start..stop], i - start);
  }

  lemma SetBitLeavesResidue(w: Vector, i: nat)
    requires i < |w| <= WIDTH && w[i]
    ensures Feed(Zeros(WIDTH), w) != Zeros(WIDTH)
  {
    hide *;
    FeedWindow(Zeros(WIDTH), w);
    ShiftNZero(Xor(Zeros(WIDTH), Pad(w)), |w|);
    SetBitShows(w, i);
  }

  /** A set bit of a window is still set once the window is padded and mixed into the zero register. */
  lemma SetBitShows(w: Vector, i: nat)
    requires i < |w| <= WIDTH && w[i]
    ensures Xor(Zeros(WIDTH), Pad(w)) != Zeros(WIDTH)
  {
    assert Pad(w)[i];
    assert Xor(Zeros(WIDTH), Pad(w))[i];
  }
}
