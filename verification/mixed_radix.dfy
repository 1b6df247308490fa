/** The mixed-radix numbering that both the state table and the action table
    use: an ordinal is split into digits, most significant first, where the
    weight of digit k is the product of the radices after k (the `deno` of
    set_states and set_action). */
module MixedRadix {

  function Prod(rs: seq<nat>): nat
  {
    if |rs| == 0 then 1 else rs[0] * Prod(rs[1..])
  }

  function Pow(b: nat, e: nat): nat
  {
    if e == 0 then 1 else b * Pow(b, e - 1)
  }

  function Repeat(x: nat, n: nat): (s: seq<nat>)
    ensures |s| == n
    ensures forall i :: 0 <= i < n ==> s[i] == x
  {
    seq(n, _ => x)
  }

  predicate Positive(rs: seq<nat>)
  {
    forall i :: 0 <= i < |rs| ==> rs[i] > 0
  }

  /** `ds` is a digit vector for the radices `rs`. */
  predicate IsDigits(ds: seq<nat>, rs: seq<nat>)
  {
    |ds| == |rs| && forall i :: 0 <= i < |rs| ==> ds[i] < rs[i]
  }

  lemma {:induction false} ProdPositive(rs: seq<nat>)
    requires Positive(rs)
    ensures Prod(rs) > 0
  {
    if |rs| > 0 {
      ProdPositive(rs[1..]);
    }
  }

  /** An ordinal below the product exists only if no radix is zero. */
  lemma {:induction false} BelowProdMeansPositive(x: nat, rs: seq<nat>)
    requires x < Prod(rs)
    ensures Positive(rs)
    decreases |rs|
  {
    if |rs| > 0 {
      MulZero(rs[0], Prod(rs[1..]));
      BelowProdMeansPositive(0, rs[1..]);
      forall i | 0 <= i < |rs|
        ensures rs[i] > 0
      {
        if i > 0 {
          assert rs[i] == rs[1..][i - 1];
        }
      }
    }
  }

  lemma MulZero(a: nat, b: nat)
    ensures a == 0 || b == 0 ==> a * b == 0
  {
  }

  lemma {:induction false} MulLeMono(a: nat, b: nat, w: nat)
    ensures a <= b ==> a * w <= b * w
  {
    if w > 0 {
      MulLeMono(a, b, w - 1);
      assert a * w == a * (w - 1) + a;
      assert b * w == b * (w - 1) + b;
    }
  }

  lemma DivMod(x: nat, w: nat)
    requires w > 0
    ensures x == (x / w) * w + x % w
    ensures 0 <= x % w < w
  {
  }

  lemma {:induction false} ProdRepeat(x: nat, n: nat)
    ensures Prod(Repeat(x, n)) == Pow(x, n)
  {
    if n > 0 {
      assert Repeat(x, n)[1..] == Repeat(x, n - 1);
      ProdRepeat(x, n - 1);
    }
  }

  /** Digits of `x`, most significant first. */
  function Decode(x: nat, rs: seq<nat>): (ds: seq<nat>)
    requires Positive(rs)
    ensures |ds| == |rs|
    decreases |rs|
  {
    if |rs| == 0 then []
    else
      ProdPositive(rs[1..]);
      var w := Prod(rs[1..]);
      [x / w] + Decode(x % w, rs[1..])
  }

  /** The ordinal whose digits are `ds`. */
  function Encode(ds: seq<nat>, rs: seq<nat>): nat
    requires |ds| == |rs|
  {
    if |rs| == 0 then 0 else ds[0] * Prod(rs[1..]) + Encode(ds[1..], rs[1..])
  }

  lemma {:induction false} DecodeIsDigits(x: nat, rs: seq<nat>)
    requires x < Prod(rs)
    ensures Positive(rs)
    ensures IsDigits(Decode(x, rs), rs)
    decreases |rs|
  {
    BelowProdMeansPositive(x, rs);
    if |rs| > 0 {
      var w := Prod(rs[1..]);
      ProdPositive(rs[1..]);
      assert x / w < rs[0] by {
        DivBelow(x, rs[0], w);
      }
      DecodeIsDigits(x % w, rs[1..]);
      var ds := Decode(x, rs);
      forall i | 0 <= i < |rs|
        ensures ds[i] < rs[i]
      {
        if i > 0 {
          assert ds[i] == Decode(x % w, rs[1..])[i - 1];
          assert rs[i] == rs[1..][i - 1];
        }
      }
    }
  }

  lemma DivBelow(x: nat, a: nat, w: nat)
    requires w > 0 && x < a * w
    ensures x / w < a
  {
    DivMod(x, w);
    MulLeMono(a, x / w, w);
  }

  lemma {:induction false} EncodeBelow(ds: seq<nat>, rs: seq<nat>)
    requires IsDigits(ds, rs)
    ensures Encode(ds, rs) < Prod(rs)
  {
    if |rs| > 0 {
      assert IsDigits(ds[1..], rs[1..]) by {
        forall i | 0 <= i < |rs| - 1
          ensures ds[1..][i] < rs[1..][i]
        {
          assert ds[i + 1] < rs[i + 1];
        }
      }
      EncodeBelow(ds[1..], rs[1..]);
      var w := Prod(rs[1..]);
      MulLeMono(ds[0] + 1, rs[0], w);
      assert (ds[0] + 1) * w == ds[0] * w + w;
    }
  }

  /** Decoding then encoding gives the ordinal back. */
  lemma {:induction false} EncodeDecode(x: nat, rs: seq<nat>)
    requires x < Prod(rs)
    ensures Positive(rs)
    ensures Encode(Decode(x, rs), rs) == x
    decreases |rs|
  {
    BelowProdMeansPositive(x, rs);
    if |rs| > 0 {
      ProdPositive(rs[1..]);
      var w := Prod(rs[1..]);
      DivMod(x, w);
      EncodeDecode(x % w, rs[1..]);
      var ds := Decode(x, rs);
      assert ds[1..] == Decode(x % w, rs[1..]);
    }
  }

  /** Encoding then decoding gives the digits back. */
  lemma {:induction false} DecodeEncode(ds: seq<nat>, rs: seq<nat>)
    requires IsDigits(ds, rs)
    ensures Positive(rs)
    ensures Decode(Encode(ds, rs), rs) == ds
    decreases |rs|
  {
    EncodeBelow(ds, rs);
    BelowProdMeansPositive(Encode(ds, rs), rs);
    if |rs| > 0 {
      var w := Prod(rs[1..]);
      ProdPositive(rs[1..]);
      assert IsDigits(ds[1..], rs[1..]) by {
        forall i | 0 <= i < |rs| - 1
          ensures ds[1..][i] < rs[1..][i]
        {
          assert ds[i + 1] < rs[i + 1];
        }
      }
      var rest := Encode(ds[1..], rs[1..]);
      EncodeBelow(ds[1..], rs[1..]);
      var x := ds[0] * w + rest;
      assert x / w == ds[0] && x % w == rest by {
        DivModUnique(x, w, ds[0], rest);
      }
      DecodeEncode(ds[1..], rs[1..]);
      assert Decode(x, rs) == [ds[0]] + ds[1..];
    }
  }

  lemma DivModUnique(x: nat, w: nat, q: nat, r: nat)
    requires w > 0 && r < w && x == q * w + r
    ensures x / w == q && x % w == r
  {
    DivMod(x, w);
    var d, m := x / w, x % w;
    MulLeMono(q + 1, d, w);
    MulLeMono(d + 1, q, w);
    MulStep(q, w);
    MulStep(d, w);
    assert d == q;
  }

  lemma MulStep(a: nat, w: nat)
    ensures (a + 1) * w == a * w + w
  {
  }

  /** The ordinal of entry `k2` of row `k1`, in rows of width `b`. */
  function Pair(k1: nat, k2: nat, b: nat): nat
  {
    k1 * b + k2
  }

  /** An ordinal below `a * b` splits into a quotient below `a` and a
      remainder below `b`. */
  lemma BlockSplit(j: nat, a: nat, b: nat)
    requires j < a * b
    ensures b > 0 && j / b < a && j % b < b
  {
    MulZero(a, b);
    DivBelow(j, a, b);
  }

  /** The converse of `BlockSplit`. */
  lemma BlockJoin(k1: nat, k2: nat, a: nat, b: nat) returns (p: nat)
    requires k1 < a && k2 < b
    ensures p == k1 * b + k2 && p < a * b
  {
    MulLeMono(k1 + 1, a, b);
    MulStep(k1, b);
    p := k1 * b + k2;
  }

  /** A position inside a block has one quotient-remainder pair. */
  lemma BlockUnique(k1: nat, k2: nat, q1: nat, q2: nat, b: nat)
    requires k2 < b && q2 < b && k1 * b + k2 == q1 * b + q2
    ensures k1 == q1 && k2 == q2
  {
    DivModUnique(k1 * b + k2, b, k1, k2);
    DivModUnique(k1 * b + k2, b, q1, q2);
  }

  /** Digit-by-digit equality of two decodings forces equal ordinals. */
  lemma DecodeInjective(x: nat, y: nat, rs: seq<nat>)
    requires x < Prod(rs) && y < Prod(rs)
    requires Positive(rs) && Decode(x, rs) == Decode(y, rs)
    ensures x == y
  {
    EncodeDecode(x, rs);
    EncodeDecode(y, rs);
  }
}

/** Concatenation of blocks of given sizes: the global ordinal of the
    `j`-th entry of block `t` is the sum of the earlier block sizes plus `j`
    (the running `count` of set_states and set_action). */
module Layout {

  function Sum(sizes: seq<nat>): nat
  {
    if |sizes| == 0 then 0 else Sum(sizes[..|sizes| - 1]) + sizes[|sizes| - 1]
  }

  /** Global ordinal of the first entry of block `t`. */
  function Offset(sizes: seq<nat>, t: nat): nat
    requires t <= |sizes|
  {
    Sum(sizes[..t])
  }

  lemma OffsetStep(sizes: seq<nat>, t: nat)
    requires t < |sizes|
    ensures Offset(sizes, t + 1) == Offset(sizes, t) + sizes[t]
  {
    assert sizes[..t + 1][..t] == sizes[..t];
  }

  lemma {:induction false} OffsetMonotone(sizes: seq<nat>, a: nat, b: nat)
    requires a < b <= |sizes|
    ensures Offset(sizes, a) + sizes[a] <= Offset(sizes, b)
    decreases b - a
  {
    OffsetStep(sizes, a);
    if a + 1 < b {
      OffsetMonotone(sizes, a + 1, b);
    }
  }

  /** Block and position inside the block of a global ordinal. */
  function Locate(sizes: seq<nat>, i: nat): (r: (nat, nat))
    requires i < Sum(sizes)
    ensures r.0 < |sizes| && r.1 < sizes[r.0]
    ensures Offset(sizes, r.0) + r.1 == i
  {
    assert sizes[..|sizes|] == sizes;
    LocateFrom(sizes, i, 0)
  }

  function LocateFrom(sizes: seq<nat>, i: nat, t: nat): (r: (nat, nat))
    requires t <= |sizes| && Offset(sizes, t) <= i < Sum(sizes)
    ensures r.0 < |sizes| && r.1 < sizes[r.0]
    ensures Offset(sizes, r.0) + r.1 == i
    decreases |sizes| - t
  {
    assert sizes[..|sizes|] == sizes;
    OffsetStep(sizes, t);
    if i < Offset(sizes, t + 1) then (t, i - Offset(sizes, t))
    else LocateFrom(sizes, i, t + 1)
  }

  /** `LocateOffset` for an ordinal already known to be that offset. */
  lemma LocateAt(sizes: seq<nat>, t: nat, j: nat, i: nat)
    requires t < |sizes| && j < sizes[t] && i == Offset(sizes, t) + j
    ensures i < Sum(sizes) && Locate(sizes, i) == (t, j)
  {
    LocateOffset(sizes, t, j);
  }

  /** Every (block, position) pair has exactly one global ordinal. */
  lemma LocateOffset(sizes: seq<nat>, t: nat, j: nat)
    requires t < |sizes| && j < sizes[t]
    ensures Offset(sizes, t) + j < Sum(sizes)
    ensures Locate(sizes, Offset(sizes, t) + j) == (t, j)
  {
    assert sizes[..|sizes|] == sizes;
    OffsetMonotone(sizes, t, |sizes|);
    var i := Offset(sizes, t) + j;
    var r := Locate(sizes, i);
    if r.0 < t {
      OffsetMonotone(sizes, r.0, t);
    } else if r.0 > t {
      OffsetMonotone(sizes, t, r.0);
    }
  }
}
