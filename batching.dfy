/**
 * The batch plan of a dictionary-scan run: `for i in range(0, N, B)` over the
 * ordered wordlists, each batch the slice `wordlists[i:i + B]`.
 */
module Batching {
  import opened Arith

  /** The number of iterations of `range(0, n, b)`. */
  function NumBatches(n: nat, b: nat): nat
    requires b > 0
  {
    if n == 0 then 0 else 1 + NumBatches(if n <= b then 0 else n - b, b)
  }

  /** The iteration count is the ceiling of `n / b`. */
  lemma {:induction false} NumBatchesBounds(n: nat, b: nat)
    requires b > 0
    ensures var r := NumBatches(n, b);
            r * b >= n && (r == 0 || (r - 1) * b < n)
  {
    if n > b {
      NumBatchesBounds(n - b, b);
      var r := NumBatches(n - b, b);
      assert (r + 1) * b == r * b + b;
    }
  }

  /** `k * b`, the value `range(0, n, b)` yields at its `k`-th iteration, written as repeated steps. */
  function Offset(k: nat, b: nat): nat {
    if k == 0 then 0 else Offset(k - 1, b) + b
  }

  lemma {:induction false} OffsetIsProduct(k: nat, b: nat)
    ensures Offset(k, b) == k * b
  {
    if k > 0 {
      OffsetIsProduct(k - 1, b);
      assert (k - 1) * b + b == k * b;
    }
  }

  lemma MulMonotone(x: nat, y: nat, b: nat)
    requires x <= y
    ensures x * b <= y * b
  {
  }

  /** `range(0, n, b)` reaches `k * b` exactly when `k` is below the iteration count. */
  lemma BatchStartInRange(n: nat, b: nat, k: nat)
    requires b > 0
    ensures Offset(k, b) < n <==> k < NumBatches(n, b)
  {
    var r := NumBatches(n, b);
    NumBatchesBounds(n, b);
    OffsetIsProduct(k, b);
    if k < r {
      MulMonotone(k, r - 1, b);
    } else {
      MulMonotone(r, k, b);
    }
  }

  /** Batch `k`: the slice `s[k*b : k*b + b]`. */
  function Batch<T>(s: seq<T>, b: nat, k: nat): (r: seq<T>)
    requires b > 0 && k < NumBatches(|s|, b)
    ensures 0 < |r| <= b
  {
    BatchStartInRange(|s|, b, k);
    OffsetIsProduct(k, b);
    s[k * b..Min(k * b + b, |s|)]
  }

  /** The batches of `s`, in the order the loop dispatches them. */
  function Batches<T>(s: seq<T>, b: nat): (r: seq<seq<T>>)
    requires b > 0
    ensures |r| == NumBatches(|s|, b)
  {
    seq(NumBatches(|s|, b), k requires 0 <= k < NumBatches(|s|, b) => Batch(s, b, k))
  }

  function Flatten<T>(ss: seq<seq<T>>): seq<T> {
    if ss == [] then [] else ss[0] + Flatten(ss[1..])
  }

  lemma {:induction false} FlattenSnoc<T>(ss: seq<seq<T>>, x: seq<T>)
    ensures Flatten(ss + [x]) == Flatten(ss) + x
  {
    if ss == [] {
      assert [x][1..] == [];
    } else {
      assert (ss + [x])[1..] == ss[1..] + [x];
      FlattenSnoc(ss[1..], x);
    }
  }

  lemma MulSucc(k: nat, b: nat)
    requires k > 0
    ensures (k - 1) * b + b == k * b
  {
  }

  /** The elements of the first `k` batches: the first `min(k * b, |s|)` of `s`. */
  lemma {:induction false} FlattenPrefix<T>(s: seq<T>, b: nat, k: nat)
    requires b > 0 && k <= NumBatches(|s|, b)
    ensures Flatten(Batches(s, b)[..k]) == s[..Min(k * b, |s|)]
  {
    var plan := Batches(s, b);
    if k == 0 {
      assert plan[..k] == [];
    } else {
      FlattenPrefix(s, b, k - 1);
      assert plan[..k] == plan[..k - 1] + [plan[k - 1]];
      FlattenSnoc(plan[..k - 1], plan[k - 1]);
      BatchStartInRange(|s|, b, k - 1);
      OffsetIsProduct(k - 1, b);
      MulSucc(k, b);
      assert s[..(k - 1) * b] + s[(k - 1) * b..Min(k * b, |s|)] == s[..Min(k * b, |s|)];
    }
  }

  /** The batches are ceil(|s| / b) non-empty slices of at most `b`, and together they are `s`. */
  lemma BatchesShape<T>(s: seq<T>, b: nat)
    requires b > 0
    ensures var r := Batches(s, b);
            && |r| == NumBatches(|s|, b)
            && Flatten(r) == s
            && (forall k :: 0 <= k < |r| ==> 0 < |r[k]| <= b)
  {
    var r := Batches(s, b);
    NumBatchesBounds(|s|, b);
    FlattenPrefix(s, b, |r|);
    assert r[..|r|] == r;
  }
}
