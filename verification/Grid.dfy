/** The block grid of a subnet: block q holds the addresses a with a / step == q.

    Everything is stated on increasing enumerations, which is what merged range lists give. */
module Grid {
  import opened Pow2
  import opened Ranges

  ghost predicate WholeBlocks(f: seq<int>, step: int)
    requires step > 0
  {
    forall a, b :: a in f && a / step == b / step ==> b in f
  }

  /** The block numbers of an enumeration, one per `step` addresses. */
  function BlocksOf(f: seq<int>, step: int): seq<int>
    requires step > 0
    decreases |f|
  {
    if |f| < step then [] else [f[0] / step] + BlocksOf(f[step..], step)
  }

  // ---------------------------------------------------------------- division

  lemma DivBlock(a: int, q: int, step: int)
    requires step > 0
    ensures a / step == q <==> q * step <= a < q * step + step
    ensures a / step * step <= a < a / step * step + step
  {
    var d := a / step;
    assert a == d * step + a % step;
    if q * step <= a < q * step + step {
      if d < q { MulMono(d + 1, q, step); }
      if q < d { MulMono(q + 1, d, step); }
    }
  }

  lemma DivOffset(q: int, i: int, step: int)
    requires 0 <= i < step
    ensures (q * step + i) / step == q
  {
    DivBlock(q * step + i, q, step);
  }

  // ---------------------------------------------------------------- whole blocks

  /** The enumeration of a union of blocks starts with one block, in order. */
  lemma FirstBlock(f: seq<int>, step: int)
    requires step > 0 && Increasing(f) && WholeBlocks(f, step) && f != []
    ensures |f| >= step && f[0] == f[0] / step * step
    ensures forall i :: 0 <= i < step ==> f[i] == f[0] + i
    ensures forall a :: a in f[step..] <==> a in f && a / step != f[0] / step
    ensures Increasing(f[step..]) && WholeBlocks(f[step..], step)
  {
    var base := f[0] / step * step;
    DivBlock(f[0], f[0] / step, step);
    assert f[0] in f;
    DivOffset(f[0] / step, 0, step);
    assert base in f;
    assert f[0] == base;
    forall b | f[0] <= b < f[0] + step ensures b in f {
      DivOffset(f[0] / step, b - f[0], step);
    }
    FirstRun(f, step, step);
    forall a ensures a in f[step..] <==> a in f && a / step != f[0] / step {
      DivBlock(a, f[0] / step, step);
      if a in f[step..] {
        var j :| 0 <= j < |f[step..]| && f[step..][j] == a;
        assert f[step + j] == a && f[step - 1] < f[step + j];
      }
      if a in f && a / step != f[0] / step {
        var j :| 0 <= j < |f| && f[j] == a;
        assert f[step..][j - step] == a;
      }
    }
  }

  lemma {:induction false} FirstRun(f: seq<int>, step: int, n: int)
    requires step > 0 && Increasing(f) && f != [] && 0 <= n <= step
    requires forall b :: f[0] <= b < f[0] + step ==> b in f
    ensures |f| >= n && forall i :: 0 <= i < n ==> f[i] == f[0] + i
  {
    if n > 1 {
      FirstRun(f, step, n - 1);
      assert f[0] + (n - 1) in f;
      var j :| 0 <= j < |f| && f[j] == f[0] + (n - 1);
      assert j >= n - 1;
      if n - 1 < j { assert f[n - 2] < f[n - 1] < f[j]; }
    }
  }

  /** Blocks behind the first one have higher numbers. */
  lemma LaterBlock(f: seq<int>, step: int, b: int)
    requires step > 0 && Increasing(f) && |f| >= step && f[0] == f[0] / step * step
    requires b * step in f[step..]
    ensures f[0] / step < b
  {
    var k :| 0 <= k < |f[step..]| && f[step..][k] == b * step;
    assert f[step + k] == b * step && f[0] < f[step + k];
    if b <= f[0] / step { MulMono(b, f[0] / step, step); }
  }

  /** A union of blocks has an exact number of blocks, listed upwards, and position
      k * step + i of the enumeration is address i of block k. */
  lemma {:induction false} BlocksExact(f: seq<int>, step: int)
    requires step > 0 && Increasing(f) && WholeBlocks(f, step)
    ensures |f| == |BlocksOf(f, step)| * step
    ensures forall a :: a in f <==> a / step in BlocksOf(f, step)
    ensures Increasing(BlocksOf(f, step))
    decreases |f|
  {
    if f != [] {
      FirstBlock(f, step);
      var g := f[step..];
      var bs := BlocksOf(g, step);
      BlocksExact(g, step);
      var q := f[0] / step;
      assert BlocksOf(f, step) == [q] + bs;
      forall a ensures a in f <==> a / step in [q] + bs {
        DivBlock(a, q, step);
        if a / step == q {
          assert f[a - f[0]] == a;
        }
      }
      forall j | 0 <= j < |bs| ensures q < bs[j] {
        assert bs[j] in bs;
        DivOffset(bs[j], 0, step);
        assert bs[j] * step in g;
        LaterBlock(f, step, bs[j]);
      }
      assert |f| == step + |g|;
      assert (|bs| + 1) * step == |bs| * step + step;
    } else {
      assert BlocksOf(f, step) == [];
    }
  }

  lemma {:induction false} BlockAt(f: seq<int>, step: int, k: int)
    requires step > 0 && Increasing(f) && WholeBlocks(f, step)
    requires 0 <= k < |BlocksOf(f, step)|
    ensures 0 <= k * step && k * step + step <= |f|
    ensures f[k * step..k * step + step] == Span(BlocksOf(f, step)[k] * step, BlocksOf(f, step)[k] * step + step - 1)
    decreases k
  {
    FirstBlock(f, step);
    var g := f[step..];
    var q := f[0] / step;
    assert BlocksOf(f, step) == [q] + BlocksOf(g, step);
    if k == 0 {
      assert f[0..step] == Span(q * step, q * step + step - 1);
    } else {
      BlockAt(g, step, k - 1);
      var from := (k - 1) * step;
      assert k * step == from + step;
      SliceShift(f, step, from, from + step);
    }
  }

  /** Nothing of a block is cut off at the end. */
  lemma BlockWindow(f: seq<int>, step: int, k: int)
    requires step > 0 && Increasing(f) && WholeBlocks(f, step)
    requires 0 <= k < |BlocksOf(f, step)|
    ensures var from, to := Clamp(k * step, |f|), Clamp(k * step + step, |f|);
            from <= to && f[from..to] == Span(BlocksOf(f, step)[k] * step, BlocksOf(f, step)[k] * step + step - 1)
  {
    BlockAt(f, step, k);
  }

  lemma SliceShift(f: seq<int>, d: int, i: int, j: int)
    requires 0 <= d <= |f| && 0 <= i <= j <= |f| - d
    ensures f[d..][i..j] == f[i + d..j + d]
  {}

  // ---------------------------------------------------------------- counting

  /** Addresses spread over n blocks number at most n * step. */
  lemma {:induction false} SpaceBound(f: seq<int>, qs: set<int>, step: int)
    requires step > 0 && Increasing(f)
    requires forall a :: a in f ==> a / step in qs
    ensures |f| <= |qs| * step
    decreases |f|
  {
    if f != [] {
      var last := f[|f| - 1];
      assert last in f;
      var q := last / step;
      var k := Below(f, q * step);
      DivBlock(last, q, step);
      forall a | a in f[..k] ensures a / step in qs - {q} {
        DivBlock(a, q, step);
      }
      SpaceBound(f[..k], qs - {q}, step);
      assert |f| - k <= step by {
        if k < |f| {
          SpreadOut(f, k, |f| - 1);
        }
      }
      assert (|qs| - 1) * step == |qs| * step - step;
      assert |qs - {q}| == |qs| - 1;
    } else {
      MulMono(0, |qs|, step);
    }
  }

  /** How many addresses of an enumeration lie below `x`. */
  lemma {:induction false} Below(f: seq<int>, x: int) returns (k: nat)
    requires Increasing(f) && f != [] && f[|f| - 1] >= x
    ensures k < |f| && (forall i :: 0 <= i < k ==> f[i] < x) && (forall i :: k <= i < |f| ==> f[i] >= x)
  {
    if |f| == 1 || f[0] >= x {
      k := 0;
    } else {
      k := Below(f[1..], x);
      k := k + 1;
      assert forall i :: 1 <= i < |f| ==> f[i] == f[1..][i - 1];
    }
  }

  /** All addresses of n blocks number exactly n * step. */
  lemma {:induction false} SpaceExact(f: seq<int>, qs: set<int>, step: int)
    requires step > 0 && Increasing(f)
    requires forall a :: a in f <==> a / step in qs
    ensures |f| == |qs| * step && WholeBlocks(f, step)
  {
    BlocksExact(f, step);
    var bs := BlocksOf(f, step);
    forall q ensures q in bs <==> q in qs {
      DivOffset(q, 0, step);
      assert q * step in f <==> q in qs;
    }
    IncreasingCard(bs);
    assert (set a | a in bs) == qs;
  }

  /** An enumeration that covers n blocks has at least n * step addresses. */
  lemma SpaceAtLeast(f: seq<int>, qs: set<int>, step: int)
    requires step > 0 && Increasing(f)
    requires forall a :: a / step in qs ==> a in f
    ensures |f| >= |qs| * step
  {
    var inner := Keep(f, qs, step);
    SpaceExact(inner, qs, step);
  }

  /** The addresses of an enumeration that lie in blocks `qs`. */
  lemma {:induction false} Keep(f: seq<int>, qs: set<int>, step: int) returns (g: seq<int>)
    requires step > 0 && Increasing(f)
    ensures Increasing(g) && |g| <= |f| && forall a :: a in g <==> a in f && a / step in qs
  {
    if f == [] {
      g := [];
    } else {
      var front, last := f[..|f| - 1], f[|f| - 1];
      assert f == front + [last];
      g := Keep(front, qs, step);
      forall a | a in g ensures a < last {
        var i :| 0 <= i < |front| && front[i] == a;
        assert f[i] == a;
      }
      if last / step in qs {
        forall i | 0 <= i < |g| ensures g[i] < last { assert g[i] in g; }
        g := g + [last];
      }
    }
  }

  /** Pigeonhole: if addresses within blocks `qs` leave fewer than `step` of their space
      out, they touch every one of the blocks. */
  lemma EveryBlockMet(f: seq<int>, qs: set<int>, step: int, q: int)
    requires step > 0 && Increasing(f)
    requires forall a :: a in f ==> a / step in qs
    requires |qs| * step - |f| < step
    requires q in qs
    ensures exists a :: a in f && a / step == q
  {
    if forall a :: a in f ==> a / step != q {
      SpaceBound(f, qs - {q}, step);
      Without(qs, q, step);
      assert false;
    }
  }

  lemma Without(qs: set<int>, q: int, step: int)
    requires q in qs
    ensures |qs - {q}| * step == |qs| * step - step
  {
    assert |qs - {q}| == |qs| - 1;
  }
}
