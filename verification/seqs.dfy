/** Order-preserving selection from a sequence, the shape shared by the
    record filter and by the removal of empty path segments. */
module Seqs {
  import opened Wrappers

  /** The elements of `xs` accepted by `keep`, in their original order. */
  function Select<T>(xs: seq<T>, keep: T -> bool): (r: seq<T>)
    ensures |r| <= |xs|
    ensures forall k :: 0 <= k < |r| ==> keep(r[k])
  {
    if xs == [] then []
    else (if keep(xs[0]) then [xs[0]] else []) + Select(xs[1..], keep)
  }

  /** An element is selected exactly when it is in `xs` and accepted. */
  lemma {:induction false} SelectMembers<T>(xs: seq<T>, keep: T -> bool, x: T)
    ensures x in Select(xs, keep) <==> x in xs && keep(x)
  {
    if xs != [] {
      SelectMembers(xs[1..], keep, x);
      assert xs == [xs[0]] + xs[1..];
    }
  }

  /** Selection distributes over concatenation. */
  lemma {:induction false} SelectAppend<T>(a: seq<T>, b: seq<T>, keep: T -> bool)
    ensures Select(a + b, keep) == Select(a, keep) + Select(b, keep)
  {
    if a == [] {
      assert a + b == b;
    } else {
      assert (a + b)[0] == a[0];
      assert (a + b)[1..] == a[1..] + b;
      SelectAppend(a[1..], b, keep);
    }
  }

  /** Selecting from a one-element sequence. */
  lemma SelectSingleton<T>(x: T, keep: T -> bool)
    ensures Select([x], keep) == if keep(x) then [x] else []
  {
    assert [x][1..] == [];
  }

  /** The indices below `n` whose element `keep` accepts, in increasing order. */
  function IndicesBelow<T>(xs: seq<T>, keep: T -> bool, n: nat): (idx: seq<nat>)
    requires n <= |xs|
    ensures forall k :: 0 <= k < |idx| ==> idx[k] < n
    ensures forall k1, k2 :: 0 <= k1 < k2 < |idx| ==> idx[k1] < idx[k2]
    ensures forall j :: 0 <= j < n ==> (j in idx <==> keep(xs[j]))
  {
    if n == 0 then []
    else IndicesBelow(xs, keep, n - 1) + (if keep(xs[n - 1]) then [n - 1] else [])
  }

  /** `Select` is exactly the subsequence of `xs` taken at the accepted
      indices: element k of the selection is the element of `xs` at the k-th
      accepted index, and no accepted index is skipped. */
  lemma {:induction false} SelectIsSubsequence<T>(xs: seq<T>, keep: T -> bool, n: nat)
    requires n <= |xs|
    ensures |Select(xs[..n], keep)| == |IndicesBelow(xs, keep, n)|
    ensures forall k :: 0 <= k < |IndicesBelow(xs, keep, n)| ==>
      Select(xs[..n], keep)[k] == xs[IndicesBelow(xs, keep, n)[k]]
  {
    if n > 0 {
      SelectIsSubsequence(xs, keep, n - 1);
      assert xs[..n] == xs[..n - 1] + [xs[n - 1]];
      SelectAppend(xs[..n - 1], [xs[n - 1]], keep);
      SelectSingleton(xs[n - 1], keep);
    }
  }

  /** Applies `f` to every element in order and collects the results; the
      first failure aborts and is returned. */
  function MapAll<A, B, E>(xs: seq<A>, f: A -> Result<B, E>): (r: Result<seq<B>, E>)
    ensures r.Success? ==>
      && |r.value| == |xs|
      && (forall k :: 0 <= k < |xs| ==> f(xs[k]) == Success(r.value[k]))
    ensures r.Failure? ==>
      exists k :: && 0 <= k < |xs|
                  && f(xs[k]) == Failure(r.error)
                  && (forall j :: 0 <= j < k ==> f(xs[j]).Success?)
  {
    if xs == [] then Success([])
    else match f(xs[0])
      case Failure(e) => Failure(e)
      case Success(y) =>
        match MapAll(xs[1..], f)
        case Failure(e) =>
          ghost var k :| && 0 <= k < |xs[1..]|
                        && f(xs[1..][k]) == Failure(e)
                        && (forall j :: 0 <= j < k ==> f(xs[1..][j]).Success?);
          assert f(xs[k + 1]) == Failure(e);
          assert forall j :: 0 <= j < k + 1 ==> f(xs[j]).Success? by {
            forall j | 0 <= j < k + 1 ensures f(xs[j]).Success? {
              if j > 0 { assert xs[j] == xs[1..][j - 1]; }
            }
          }
          Failure(e)
        case Success(ys) => Success([y] + ys)
  }
}
