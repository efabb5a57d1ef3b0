/**
 The documented meaning of attention for one query row: a softmax, over the keys the row may
 see, of the scaled scores, used to average the value rows
 (pod_attn/pod_attn/flash_attn_interface.py, lines 1192-1206).
 */
module AttentionSpec {
  import opened Floats

  /** One query row: its score against every key and which keys it may see. */
  datatype Row = Row(s: seq<real>, vis: seq<bool>) {
    ghost predicate Valid() {
      |s| == |vis|
    }

    predicate Sees(j: int) {
      0 <= j < |s| && j < |vis| && vis[j]
    }

    ghost predicate SeesNone(lo: int, hi: int) {
      forall j :: lo <= j < hi ==> !Sees(j)
    }

    /** `m` is the largest visible score in `[lo, hi)`. */
    ghost predicate MaxVisible(lo: int, hi: int, m: real) {
      && (forall j :: lo <= j < hi && Sees(j) ==> s[j] <= m)
      && (exists j :: lo <= j < hi && Sees(j) && s[j] == m)
    }
  }

  /** The keys from `lo` up to `hi`. */
  datatype Span = Span(lo: int, hi: int)

  /** One row of the output or of the accumulation buffers. */
  datatype RowResult = RowResult(o: seq<F>, lse: F)

  /** How a launch computes: the library functions and the softmax scale. */
  datatype Scaling = Scaling(t: Transcendental, scale: real) {
    function Scaled(x: real): real {
      scale * x
    }

    /** `exp(scale * x)`. */
    function Exp(x: real): real {
      t.Exp(Scaled(x))
    }

    lemma ScaledAdds(x: real, y: real)
      ensures Scaled(x + y) == Scaled(x) + Scaled(y)
    {
    }

    lemma ExpSum(x: real, y: real)
      requires t.Lawful()
      ensures Exp(x + y) == Exp(x) * Exp(y)
    {
      ScaledAdds(x, y);
      t.ExpSum(Scaled(x), Scaled(y));
    }
  }

  function At(x: seq<real>, j: int): real {
    if 0 <= j < |x| then x[j] else 0.0
  }

  /** The unnormalised softmax weight of key `j`, relative to the reference score `m`. */
  ghost function Weight(c: Scaling, row: Row, m: real, j: int): real {
    if row.Sees(j) then c.Exp(row.s[j] - m) else 0.0
  }

  /** The weighted sum over the keys in `[lo, hi)` of the values `x`. */
  ghost function Num(c: Scaling, row: Row, x: seq<real>, m: real, lo: int, hi: int): real
    decreases hi - lo
  {
    if lo >= hi then 0.0
    else Weight(c, row, m, lo) * At(x, lo) + Num(c, row, x, m, lo + 1, hi)
  }

  function Ones(n: nat): seq<real> {
    seq(n, _ => 1.0)
  }

  /** The sum of the weights in `[lo, hi)`. */
  ghost function Den(c: Scaling, row: Row, m: real, lo: int, hi: int): real {
    Num(c, row, Ones(|row.s|), m, lo, hi)
  }

  function Column(v: seq<seq<real>>, d: nat): (x: seq<real>)
    requires forall j :: 0 <= j < |v| ==> d < |v[j]|
  {
    seq(|v|, j requires 0 <= j < |v| => v[j][d])
  }

  ghost predicate Matrix(v: seq<seq<real>>, rows: nat, cols: nat) {
    |v| == rows && forall j :: 0 <= j < rows ==> |v[j]| == cols
  }

  /**
   The attention of one row over the keys in `[lo, hi)`: output `out` and log-sum-exp `lse`,
   where a row that sees no key has output zero and log-sum-exp `none`.
   */
  ghost predicate IsAttention(c: Scaling, row: Row, v: seq<seq<real>>, cols: nat, lo: int, hi: int, none: F,
                              out: seq<F>, lse: F)
    requires Matrix(v, |row.s|, cols)
  {
    && |out| == cols
    && (if row.SeesNone(lo, hi) then
          lse == none && forall d :: 0 <= d < cols ==> out[d] == Fin(0.0)
        else
          var den := Den(c, row, 0.0, lo, hi);
          && den > 0.0
          && lse == Fin(c.t.Log(den))
          && forall d :: 0 <= d < cols ==> out[d] == Fin(Num(c, row, Column(v, d), 0.0, lo, hi) / den))
  }

  lemma {:induction false} NumSplits(c: Scaling, row: Row, x: seq<real>, m: real, lo: int, mid: int, hi: int)
    requires lo <= mid <= hi
    ensures Num(c, row, x, m, lo, hi) == Num(c, row, x, m, lo, mid) + Num(c, row, x, m, mid, hi)
    decreases mid - lo
  {
    if lo < mid {
      NumSplits(c, row, x, m, lo + 1, mid, hi);
    }
  }

  lemma RebaseTerm(f: real, w: real, x: real, rest: real)
    ensures f * w * x + f * rest == f * (w * x + rest)
  {
  }

  /** Moving the reference score rescales every sum by one common factor. */
  lemma {:induction false} NumRebase(c: Scaling, row: Row, x: seq<real>, m: real, m': real, lo: int, hi: int)
    requires c.t.Lawful()
    ensures Num(c, row, x, m', lo, hi) == c.Exp(m - m') * Num(c, row, x, m, lo, hi)
    decreases hi - lo
  {
    var f := c.Exp(m - m');
    if lo < hi {
      NumRebase(c, row, x, m, m', lo + 1, hi);
      var w, w', rest := Weight(c, row, m, lo), Weight(c, row, m', lo), Num(c, row, x, m, lo + 1, hi);
      assert w' == f * w by {
        if row.Sees(lo) {
          c.ExpSum(m - m', row.s[lo] - m);
        }
      }
      RebaseTerm(f, w, At(x, lo), rest);
    }
  }

  lemma {:induction false} NumInvisible(c: Scaling, row: Row, x: seq<real>, m: real, lo: int, hi: int)
    requires row.SeesNone(lo, hi)
    ensures Num(c, row, x, m, lo, hi) == 0.0
    decreases hi - lo
  {
    if lo < hi {
      NumInvisible(c, row, x, m, lo + 1, hi);
    }
  }

  lemma {:induction false} DenNonNegative(c: Scaling, row: Row, m: real, lo: int, hi: int)
    requires c.t.Lawful()
    ensures Den(c, row, m, lo, hi) >= 0.0
    ensures !row.SeesNone(lo, hi) ==> Den(c, row, m, lo, hi) > 0.0
    decreases hi - lo
  {
    if lo < hi {
      DenNonNegative(c, row, m, lo + 1, hi);
      if row.Sees(lo) {
        c.t.ExpIsPositive(c.Scaled(row.s[lo] - m));
        assert At(Ones(|row.s|), lo) == 1.0;
      }
    }
  }
}
