/**
 Keeping, in order, the values a partial function gives for the elements of a
 sequence: the shape of a loop that appends to a list for some elements only.
 */
module Seqs {

  datatype Option<T> = None | Some(value: T)

  /** The values `f` gives for the elements of `xs`, in order, skipping `None`. */
  function FilterMap<T, U>(f: T -> Option<U>, xs: seq<T>): (ys: seq<U>)
    ensures |ys| <= |xs|
  {
    if |xs| == 0 then []
    else
      var init := FilterMap(f, xs[..|xs| - 1]);
      match f(xs[|xs| - 1])
      case Some(y) => init + [y]
      case None => init
  }

  /** Extending a prefix by one element adds that element's value, if any. */
  lemma FilterMapSnoc<T, U>(f: T -> Option<U>, xs: seq<T>, i: nat)
    requires i < |xs|
    ensures FilterMap(f, xs[..i + 1])
            == FilterMap(f, xs[..i]) + (match f(xs[i]) case Some(y) => [y] case None => [])
  {
    assert xs[..i + 1][..i] == xs[..i];
    assert xs[..i + 1][i] == xs[i];
  }

  /** Each element contributes on its own: filtering a concatenation is the
      concatenation of the filtered parts. */
  lemma {:induction false} FilterMapAppend<T, U>(f: T -> Option<U>, xs: seq<T>, ys: seq<T>)
    ensures FilterMap(f, xs + ys) == FilterMap(f, xs) + FilterMap(f, ys)
    decreases |ys|
  {
    if ys == [] {
      assert xs + ys == xs;
    } else {
      var ys' := ys[..|ys| - 1];
      assert (xs + ys)[..|xs + ys| - 1] == xs + ys';
      assert (xs + ys)[|xs + ys| - 1] == ys[|ys| - 1];
      FilterMapAppend(f, xs, ys');
    }
  }

  /** A sequence of elements all mapped to `None` contributes nothing. */
  lemma {:induction false} FilterMapNone<T, U>(f: T -> Option<U>, xs: seq<T>)
    requires forall j :: 0 <= j < |xs| ==> f(xs[j]).None?
    ensures FilterMap(f, xs) == []
  {
    if xs != [] {
      FilterMapNone(f, xs[..|xs| - 1]);
    }
  }

  /** An element mapped to `None` can be dropped without changing the result. */
  lemma FilterMapSkip<T, U>(f: T -> Option<U>, xs: seq<T>, x: T, ys: seq<T>)
    requires f(x).None?
    ensures FilterMap(f, xs + [x] + ys) == FilterMap(f, xs + ys)
  {
    FilterMapAppend(f, xs + [x], ys);
    FilterMapAppend(f, xs, [x]);
    FilterMapAppend(f, xs, ys);
    FilterMapNone(f, [x]);
  }

  /** Every value kept satisfies `p` when every value `f` gives does. */
  lemma {:induction false} FilterMapAll<T, U>(f: T -> Option<U>, p: U -> bool, xs: seq<T>)
    requires forall j :: 0 <= j < |xs| && f(xs[j]).Some? ==> p(f(xs[j]).value)
    ensures forall k :: 0 <= k < |FilterMap(f, xs)| ==> p(FilterMap(f, xs)[k])
  {
    if xs != [] {
      var n := |xs| - 1;
      assert forall j :: 0 <= j < n ==> xs[..n][j] == xs[j];
      FilterMapAll(f, p, xs[..n]);
    }
  }

  /** Indices of the elements `f` maps to a value: increasing, and an index is among
      them if and only if `f` gives a value for its element. */
  function Kept<T, U>(f: T -> Option<U>, xs: seq<T>): (c: seq<nat>)
    ensures forall k :: 0 <= k < |c| ==> c[k] < |xs|
    ensures forall k, m :: 0 <= k < m < |c| ==> c[k] < c[m]
    ensures forall j :: 0 <= j < |xs| ==> (f(xs[j]).Some? <==> j in c)
  {
    if |xs| == 0 then []
    else
      var n := |xs| - 1;
      var init := Kept(f, xs[..n]);
      assert forall j :: 0 <= j < n ==> xs[..n][j] == xs[j];
      if f(xs[n]).Some? then init + [n] else init
  }

  /** How the last element affects the result and the kept indices. */
  lemma FilterMapLast<T, U>(f: T -> Option<U>, xs: seq<T>)
    requires xs != []
    ensures var n := |xs| - 1;
            match f(xs[n])
            case Some(y) =>
              Kept(f, xs) == Kept(f, xs[..n]) + [n]
              && FilterMap(f, xs) == FilterMap(f, xs[..n]) + [y]
            case None =>
              Kept(f, xs) == Kept(f, xs[..n])
              && FilterMap(f, xs) == FilterMap(f, xs[..n])
  {
  }

  /** The result is exactly the values of the kept elements, in their order. */
  lemma {:induction false} FilterMapOrigins<T, U>(f: T -> Option<U>, xs: seq<T>)
    ensures |Kept(f, xs)| == |FilterMap(f, xs)|
    ensures forall k :: 0 <= k < |Kept(f, xs)| ==>
              f(xs[Kept(f, xs)[k]]) == Some(FilterMap(f, xs)[k])
  {
    if xs != [] {
      var n := |xs| - 1;
      var init := xs[..n];
      FilterMapOrigins(f, init);
      FilterMapLast(f, xs);
      var c, c' := Kept(f, xs), Kept(f, init);
      var ys, ys' := FilterMap(f, xs), FilterMap(f, init);
      forall k | 0 <= k < |c|
        ensures f(xs[c[k]]) == Some(ys[k])
      {
        if k < |c'| {
          assert c[k] == c'[k] && ys[k] == ys'[k];
          assert xs[c'[k]] == init[c'[k]];
        }
      }
    }
  }
}
