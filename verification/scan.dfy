/** The two loop shapes the extractors share: a loop over paragraphs that
    stops at the first one that qualifies, and a loop that lets every
    qualifying paragraph overwrite the value found so far. The functions
    promise only what holds at the position they return; what holds of the
    other positions is stated by the lemmas, so that callers pay for it only
    where they use it. */
module Scan {
  import opened Wrappers

  /** Position of the first element satisfying `p`, as a loop with `break`
      (or an early `return`) finds it. The definition peels off the last
      element, so that it takes prefixes only. */
  function FirstIndex<T>(xs: seq<T>, p: T -> bool): (r: Option<nat>)
    ensures r.Some? ==> r.value < |xs| && p(xs[r.value])
    decreases |xs|
  {
    if |xs| == 0 then None
    else
      match FirstIndex(xs[..|xs| - 1], p)
      case Some(i) => Some(i)
      case None => if p(xs[|xs| - 1]) then Some(|xs| - 1) else None
  }

  /** The loop finds nothing exactly when no element qualifies. */
  lemma {:induction false} FirstIndexNone<T>(xs: seq<T>, p: T -> bool)
    ensures FirstIndex(xs, p).None? ==> forall j :: 0 <= j < |xs| ==> !p(xs[j])
    ensures (forall j :: 0 <= j < |xs| ==> !p(xs[j])) ==> FirstIndex(xs, p).None?
    decreases |xs|
  {
    if |xs| > 0 {
      var init := xs[..|xs| - 1];
      FirstIndexNone(init, p);
      if FirstIndex(xs, p).None? {
        forall j | 0 <= j < |xs|
          ensures !p(xs[j])
        {
          if j < |xs| - 1 {
            assert xs[j] == init[j];
          }
        }
      } else {
        var i := FirstIndex(xs, p).value;
        assert p(xs[i]);
      }
    }
  }

  /** No element before the one found qualifies. */
  lemma {:induction false} FirstIndexBefore<T>(xs: seq<T>, p: T -> bool, j: nat)
    requires FirstIndex(xs, p).Some? && j < FirstIndex(xs, p).value
    ensures !p(xs[j])
    decreases |xs|
  {
    var init := xs[..|xs| - 1];
    if FirstIndex(init, p).Some? {
      FirstIndexBefore(init, p, j);
      assert init[j] == xs[j];
    } else {
      FirstIndexNone(init, p);
      assert init[j] == xs[j];
    }
  }

  /** An element that satisfies `p` with none before it is the one the
      loop stops at. */
  lemma {:induction false} FirstIndexAt<T>(xs: seq<T>, p: T -> bool, i: nat)
    requires i < |xs| && p(xs[i])
    requires forall j :: 0 <= j < i ==> !p(xs[j])
    ensures FirstIndex(xs, p) == Some(i)
    decreases |xs|
  {
    var init := xs[..|xs| - 1];
    if i < |xs| - 1 {
      assert init[i] == xs[i];
      forall j | 0 <= j < i
        ensures !p(init[j])
      {
        assert init[j] == xs[j];
      }
      FirstIndexAt(init, p, i);
    } else {
      forall j | 0 <= j < |init|
        ensures !p(init[j])
      {
        assert init[j] == xs[j];
      }
      FirstIndexNone(init, p);
    }
  }
  /** After a stretch where nothing qualifies, the first element that does
      is the one found. */
  lemma FirstIndexAfter<T>(xs: seq<T>, ys: seq<T>, p: T -> bool)
    requires FirstIndex(xs, p).None? && |ys| > 0 && p(ys[0])
    ensures FirstIndex(xs + ys, p) == Some(|xs|)
  {
    FirstIndexNone(xs, p);
    var zs := xs + ys;
    forall j | 0 <= j < |xs|
      ensures !p(zs[j])
    {
      assert zs[j] == xs[j];
    }
    FirstIndexAt(zs, p, |xs|);
  }


  /** Position of the last element satisfying `p`: the reference the
      overwriting loop is compared with. */
  function LastIndex<T>(xs: seq<T>, p: T -> bool): (r: Option<nat>)
    ensures r.Some? ==> r.value < |xs| && p(xs[r.value])
    decreases |xs|
  {
    if |xs| == 0 then None
    else if p(xs[|xs| - 1]) then Some(|xs| - 1)
    else LastIndex(xs[..|xs| - 1], p)
  }

  /** There is no last qualifying element exactly when none qualifies. */
  lemma {:induction false} LastIndexNone<T>(xs: seq<T>, p: T -> bool)
    ensures LastIndex(xs, p).None? ==> forall j :: 0 <= j < |xs| ==> !p(xs[j])
    ensures (forall j :: 0 <= j < |xs| ==> !p(xs[j])) ==> LastIndex(xs, p).None?
    decreases |xs|
  {
    if |xs| > 0 && !p(xs[|xs| - 1]) {
      var init := xs[..|xs| - 1];
      LastIndexNone(init, p);
      if LastIndex(xs, p).None? {
        forall j | 0 <= j < |xs|
          ensures !p(xs[j])
        {
          if j < |xs| - 1 {
            assert xs[j] == init[j];
          }
        }
      } else {
        var i := LastIndex(xs, p).value;
        assert p(xs[i]);
      }
    }
  }

  /** Two tests that agree everywhere pick the same last element. */
  lemma {:induction false} LastIndexSame<T>(xs: seq<T>, p: T -> bool, q: T -> bool)
    requires forall x :: p(x) == q(x)
    ensures LastIndex(xs, p) == LastIndex(xs, q)
    decreases |xs|
  {
    if |xs| > 0 {
      LastIndexSame(xs[..|xs| - 1], p, q);
    }
  }

  /** An element that satisfies `p` with none after it is the last one. */
  lemma {:induction false} LastIndexAt<T>(xs: seq<T>, p: T -> bool, i: nat)
    requires i < |xs| && p(xs[i])
    requires forall j :: i < j < |xs| ==> !p(xs[j])
    ensures LastIndex(xs, p) == Some(i)
    decreases |xs| - i
  {
    if i < |xs| - 1 {
      assert !p(xs[|xs| - 1]);
      LastIndexAt(xs[..|xs| - 1], p, i);
    }
  }

  /** The loop `for x in xs: if f(x) is not None: current = f(x)`, from a
      given `current` on: the value after the last element is that element's
      value when it has one, and the value after the others otherwise. */
  function Overwrite<T, U>(xs: seq<T>, f: T -> Option<U>, current: Option<U>): Option<U>
    decreases |xs|
  {
    if |xs| == 0 then current
    else
      var x := xs[|xs| - 1];
      if f(x).Some? then f(x) else Overwrite(xs[..|xs| - 1], f, current)
  }

  /** The elements `f` gives a value for. */
  function Found<T, U>(f: T -> Option<U>): T -> bool {
    x => f(x).Some?
  }

  /** The overwriting loop ends with the value of the last element that has
      one, and with its starting value when no element has one. */
  lemma {:induction false} OverwriteIsLast<T, U>(xs: seq<T>, f: T -> Option<U>, current: Option<U>)
    ensures Overwrite(xs, f, current) ==
              match LastIndex(xs, Found(f))
              case None => current
              case Some(i) => f(xs[i])
    decreases |xs|
  {
    if |xs| > 0 {
      var init := xs[..|xs| - 1];
      var x := xs[|xs| - 1];
      OverwriteIsLast(init, f, current);
      if !f(x).Some? {
        assert LastIndex(xs, Found(f)) == LastIndex(init, Found(f));
        match LastIndex(init, Found(f))
        case None =>
        case Some(i) => assert init[i] == xs[i];
      }
    }
  }

  /** The largest position `j <= k` where `p` holds, as a search that
      backtracks from `k` finds it. */
  function LastAtOrBefore(k: nat, p: nat -> bool): (r: Option<nat>)
    ensures r.Some? ==> r.value <= k && p(r.value)
    decreases k
  {
    if p(k) then Some(k) else if k == 0 then None else LastAtOrBefore(k - 1, p)
  }

  /** The search stops at the last position where `p` holds. */
  lemma {:induction false} LastAtOrBeforeFinds(k: nat, p: nat -> bool, j: nat)
    requires j <= k && p(j)
    requires forall i :: j < i <= k ==> !p(i)
    ensures LastAtOrBefore(k, p) == Some(j)
    decreases k
  {
    if k > j {
      LastAtOrBeforeFinds(k - 1, p, j);
    }
  }

  /** `p` holds at no position after the one found. */
  lemma {:induction false} LastAtOrBeforeIsLast(k: nat, p: nat -> bool, i: nat)
    requires LastAtOrBefore(k, p).Some? && LastAtOrBefore(k, p).value < i <= k
    ensures !p(i)
    decreases k
  {
    if i < k {
      LastAtOrBeforeIsLast(k - 1, p, i);
    }
  }

  /** The search finds nothing exactly when `p` holds nowhere up to `k`. */
  lemma {:induction false} LastAtOrBeforeNone(k: nat, p: nat -> bool)
    ensures LastAtOrBefore(k, p).None? ==> forall i :: 0 <= i <= k ==> !p(i)
    ensures (forall i :: 0 <= i <= k ==> !p(i)) ==> LastAtOrBefore(k, p).None?
    decreases k
  {
    if k > 0 {
      LastAtOrBeforeNone(k - 1, p);
    }
  }

  /** The loop `for x in xs: if p(x): result.append(x)`: the elements that
      satisfy `p`, in order. */
  function Filter<T>(xs: seq<T>, p: T -> bool): (r: seq<T>)
    ensures |r| <= |xs|
    ensures forall i :: 0 <= i < |r| ==> p(r[i])
    decreases |xs|
  {
    if |xs| == 0 then []
    else
      var init := Filter(xs[..|xs| - 1], p);
      var x := xs[|xs| - 1];
      if p(x) then init + [x] else init
  }

  /** The filter keeps exactly the elements that satisfy `p`. */
  lemma {:induction false} FilterMembers<T>(xs: seq<T>, p: T -> bool, x: T)
    ensures x in Filter(xs, p) ==> x in xs && p(x)
    ensures x in xs && p(x) ==> x in Filter(xs, p)
    decreases |xs|
  {
    if |xs| > 0 {
      var init := xs[..|xs| - 1];
      FilterMembers(init, p, x);
      assert xs == init + [xs[|xs| - 1]];
    }
  }

  /** The filter works element by element: filtering a concatenation is
      concatenating the filtered parts, so the order is kept. */
  lemma {:induction false} FilterConcat<T>(a: seq<T>, b: seq<T>, p: T -> bool)
    ensures Filter(a + b, p) == Filter(a, p) + Filter(b, p)
    decreases |b|
  {
    if |b| == 0 {
      assert a + b == a;
    } else {
      var init := b[..|b| - 1];
      FilterConcat(a, init, p);
      assert (a + b)[..|a + b| - 1] == a + init;
    }
  }

  /** Nothing is dropped when every element qualifies. */
  lemma {:induction false} FilterAll<T>(xs: seq<T>, p: T -> bool)
    requires forall i :: 0 <= i < |xs| ==> p(xs[i])
    ensures Filter(xs, p) == xs
    decreases |xs|
  {
    if |xs| > 0 {
      FilterAll(xs[..|xs| - 1], p);
    }
  }
}
