/** Bit strings, the low bits of an integer in two's complement, and regrouping. */
module Bits {
  import opened Numerals

  type Bit = b: int | 0 <= b < 2

  function Pow2(k: nat): (p: nat)
    ensures p > 0
  {
    if k == 0 then 1 else 2 * Pow2(k - 1)
  }

  /** The `k` low bits of `v`, most significant first; a negative `v` is read in two's complement. */
  function LowBits(v: int, k: nat): (bits: seq<Bit>)
    ensures |bits| == k
    decreases k
  {
    if k == 0 then [] else LowBits(v / 2, k - 1) + [v % 2]
  }

  function BitsValue(bits: seq<Bit>): nat {
    if bits == [] then 0 else 2 * BitsValue(bits[..|bits| - 1]) + bits[|bits| - 1]
  }

  function Zeros(n: nat): seq<Bit> {
    seq(n, _ => 0)
  }

  /** Each number as a group of `w` bits, in sequence. */
  function Expand(xs: seq<nat>, w: nat): seq<Bit>
  {
    if xs == [] then [] else Expand(xs[..|xs| - 1], w) + LowBits(xs[|xs| - 1], w)
  }

  /** The numbers spelled by the whole groups of `w` bits; bits left over are dropped. */
  function Groups(bits: seq<Bit>, w: nat): seq<nat>
    requires w > 0
    decreases |bits|
  {
    if |bits| < w then [] else [BitsValue(bits[..w])] + Groups(bits[w..], w)
  }

  lemma {:induction false} LowBitsValue(v: nat, k: nat)
    requires v < Pow2(k)
    ensures BitsValue(LowBits(v, k)) == v
  {
    if k > 0 {
      LowBitsValue(v / 2, k - 1);
      assert LowBits(v, k)[..k - 1] == LowBits(v / 2, k - 1);
    }
  }

  lemma {:induction false} ValueLowBits(bits: seq<Bit>)
    ensures BitsValue(bits) < Pow2(|bits|) && LowBits(BitsValue(bits), |bits|) == bits
  {
    if bits != [] {
      var rest := bits[..|bits| - 1];
      ValueLowBits(rest);
      assert bits == rest + [bits[|bits| - 1]];
    }
  }

  lemma {:induction false} ValueAppend(a: seq<Bit>, b: seq<Bit>)
    ensures BitsValue(a + b) == BitsValue(a) * Pow2(|b|) + BitsValue(b)
  {
    if b == [] {
      assert a + b == a;
    } else {
      var rest, p := b[..|b| - 1], Pow2(|b| - 1);
      assert (a + b)[..|a + b| - 1] == a + rest;
      ValueAppend(a, rest);
      Doubled(BitsValue(a), p, Pow2(|b|));
    }
  }

  lemma Doubled(v: nat, p: nat, q: nat)
    requires q == 2 * p
    ensures v * q == 2 * (v * p)
  {
  }

  /** The low bits do not see multiples of a higher power of two: wrapping keeps them. */
  lemma {:induction false} LowBitsWrap(v: int, m: int, j: nat, k: nat)
    requires k <= j
    ensures LowBits(v + m * Pow2(j), k) == LowBits(v, k)
    decreases k
  {
    if k > 0 {
      var u := m * Pow2(j - 1);
      assert m * Pow2(j) == 2 * u;
      HalfOfSum(v, u);
      LowBitsWrap(v / 2, m, j - 1, k - 1);
    }
  }

  lemma HalfOfSum(v: int, u: int)
    ensures (v + 2 * u) / 2 == v / 2 + u && (v + 2 * u) % 2 == v % 2
  {
  }

  /** Shifting left and filling in `w` appends the bits of `w`. */
  lemma {:induction false} LowBitsAppend(v: int, k: nat, w: nat, j: nat)
    requires w < Pow2(j)
    ensures LowBits(v * Pow2(j) + w, k + j) == LowBits(v, k) + LowBits(w, j)
    decreases j
  {
    if j == 0 {
      assert v * 1 == v;
    } else {
      var u := v * Pow2(j - 1);
      assert v * Pow2(j) == 2 * u;
      HalfOfSum(w, u);
      assert (w + 2 * u) / 2 == u + w / 2;
      LowBitsAppend(v, k, w / 2, j - 1);
      assert LowBits(v * Pow2(j) + w, k + j) == LowBits(u + w / 2, k + j - 1) + [w % 2];
    }
  }

  /** The upper part of the low bits is what a right shift leaves. */
  lemma {:induction false} LowBitsSplit(v: int, k: nat, j: nat)
    ensures LowBits(v, k + j) == LowBits(v / Pow2(j), k) + LowBits(v, j)
    decreases j
  {
    if j == 0 {
      assert v / 1 == v;
    } else {
      LowBitsSplit(v / 2, k, j - 1);
      HalfThenRest(v, Pow2(j - 1));
    }
  }

  lemma HalfThenRest(v: int, p: nat)
    requires p > 0
    ensures v / 2 / p == v / (2 * p)
  {
    var q := v / 2 / p;
    var r := v / 2 % p;
    assert v / 2 == p * q + r;
    var s := 2 * r + v % 2;
    assert v == (2 * p) * q + s;
    assert 0 <= s < 2 * p;
    DivisionUnique(v, 2 * p, q, s);
  }

  lemma {:induction false} ExpandAppend(xs: seq<nat>, ys: seq<nat>, w: nat)
    ensures Expand(xs + ys, w) == Expand(xs, w) + Expand(ys, w)
  {
    hide LowBits;
    if ys == [] {
      assert xs + ys == xs;
    } else {
      var n := |ys| - 1;
      assert (xs + ys)[..|xs + ys| - 1] == xs + ys[..n];
      ExpandAppend(xs, ys[..n], w);
    }
  }

  lemma ExpandOne(x: nat, w: nat)
    ensures Expand([x], w) == LowBits(x, w)
  {
    assert [x][..0] == [];
  }

  lemma ExpandSnoc(xs: seq<nat>, x: nat, w: nat)
    ensures Expand(xs + [x], w) == Expand(xs, w) + LowBits(x, w)
  {
    assert (xs + [x])[..|xs|] == xs;
  }

  /** Grouping undoes expanding, whatever short remainder follows. */
  lemma {:induction false} GroupsOfExpand(xs: seq<nat>, rest: seq<Bit>, w: nat)
    requires w > 0 && |rest| < w && forall x | x in xs :: x < Pow2(w)
    ensures Groups(Expand(xs, w) + rest, w) == xs
  {
    hide *;
    if xs == [] {
      GroupsShort(rest, w);
    } else {
      assert xs[0] in xs && forall x | x in xs[1..] :: x in xs;
      var head, tail := LowBits(xs[0], w), Expand(xs[1..], w) + rest;
      ExpandCons(xs, w);
      assert Expand(xs, w) + rest == head + tail;
      GroupsStep(head, tail, w);
      LowBitsValue(xs[0], w);
      GroupsOfExpand(xs[1..], rest, w);
    }
  }

  lemma GroupsShort(rest: seq<Bit>, w: nat)
    requires w > 0 && |rest| < w
    ensures Groups(Expand([], w) + rest, w) == []
  {
  }

  lemma ExpandCons(xs: seq<nat>, w: nat)
    requires xs != []
    ensures Expand(xs, w) == LowBits(xs[0], w) + Expand(xs[1..], w)
  {
    hide *;
    assert xs == [xs[0]] + xs[1..];
    ExpandAppend([xs[0]], xs[1..], w);
    ExpandOne(xs[0], w);
  }

  lemma GroupsStep(head: seq<Bit>, tail: seq<Bit>, w: nat)
    requires w > 0 && |head| == w
    ensures Groups(head + tail, w) == [BitsValue(head)] + Groups(tail, w)
  {
    hide BitsValue;
    assert (head + tail)[..w] == head && (head + tail)[w..] == tail;
  }

  /** The bits make up `n` groups of `w`. */
  predicate Whole(bits: seq<Bit>, w: nat, n: nat) {
    if n == 0 then bits == [] else |bits| >= w && Whole(bits[w..], w, n - 1)
  }

  lemma {:induction false} WholeByLength(bits: seq<Bit>, w: nat, n: nat)
    requires |bits| == n * w
    ensures Whole(bits, w, n)
  {
    if n > 0 {
      assert |bits| == (n - 1) * w + w;
      WholeByLength(bits[w..], w, n - 1);
    }
  }

  /** Expanding undoes grouping when the groups come out even. */
  lemma {:induction false} ExpandOfGroups(bits: seq<Bit>, w: nat, n: nat)
    requires w > 0 && Whole(bits, w, n)
    ensures Expand(Groups(bits, w), w) == bits
    ensures |Groups(bits, w)| == n && forall x | x in Groups(bits, w) :: x < Pow2(w)
    decreases n
  {
    hide LowBits, BitsValue, Pow2;
    if n > 0 {
      var head, tail := bits[..w], bits[w..];
      assert bits == head + tail;
      ExpandOfGroups(tail, w, n - 1);
      ValueLowBits(head);
      ExpandOne(BitsValue(head), w);
      GroupsStep(head, tail, w);
      hide Groups, Expand, Whole;
      ExpandAppend([BitsValue(head)], Groups(tail, w), w);
    }
  }

  lemma {:induction false} ExpandLength(xs: seq<nat>, w: nat)
    ensures |Expand(xs, w)| == |xs| * w
  {
    if xs != [] {
      ExpandLength(xs[..|xs| - 1], w);
      assert |xs| * w == (|xs| - 1) * w + w;
    }
  }
}
