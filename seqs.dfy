/** Order-preserving filter-and-transform over sequences, the shape of the source's
    "for x in xs: if ...: out.append(...)" loops. */
module Seqs {
  import opened Wrappers

  /** Keeps `f(x).value` for each `x` of `xs` with `f(x)` present, in the order of `xs`. */
  function FilterMap<A, B>(xs: seq<A>, f: A -> Option<B>): (ys: seq<B>)
    ensures |ys| <= |xs|
  {
    if xs == [] then []
    else
      var init := FilterMap(xs[..|xs| - 1], f);
      match f(xs[|xs| - 1])
      case Some(y) => init + [y]
      case None => init
  }

  /** One more element processed: what the loops in the source do per iteration. */
  lemma FilterMapSnoc<A, B>(xs: seq<A>, k: nat, f: A -> Option<B>)
    requires k < |xs|
    ensures FilterMap(xs[..k + 1], f)
         == FilterMap(xs[..k], f) + (if f(xs[k]).Some? then [f(xs[k]).value] else [])
  {
    assert xs[..k + 1][..k] == xs[..k];
  }

  ghost predicate StrictlyIncreasing(idx: seq<nat>) {
    forall i, j :: 0 <= i < j < |idx| ==> idx[i] < idx[j]
  }

  /** Every output element comes from a distinct input position, positions increase along the
      output, and every input position that `f` keeps is one of them. */
  lemma {:induction false} FilterMapOrigins<A, B>(xs: seq<A>, f: A -> Option<B>) returns (idx: seq<nat>)
    ensures |idx| == |FilterMap(xs, f)|
    ensures StrictlyIncreasing(idx)
    ensures forall k :: 0 <= k < |idx| ==> idx[k] < |xs| && f(xs[idx[k]]) == Some(FilterMap(xs, f)[k])
    ensures forall i :: 0 <= i < |xs| && f(xs[i]).Some? ==> i in idx
  {
    if xs == [] {
      idx := [];
    } else {
      var n := |xs| - 1;
      var init := xs[..n];
      var prev := FilterMapOrigins(init, f);
      var pys := FilterMap(init, f);
      var ys := FilterMap(xs, f);
      assert forall i :: 0 <= i < n ==> init[i] == xs[i];
      if f(xs[n]).Some? {
        idx := prev + [n];
        assert ys == pys + [f(xs[n]).value];
        forall k | 0 <= k < |idx|
          ensures idx[k] < |xs| && f(xs[idx[k]]) == Some(ys[k])
        {
          if k < |prev| {
            assert idx[k] == prev[k] && ys[k] == pys[k];
          }
        }
      } else {
        idx := prev;
        assert ys == pys;
      }
      forall i | 0 <= i < |xs| && f(xs[i]).Some? ensures i in idx {
        if i < n {
          assert f(init[i]).Some?;
          assert i in prev;
        }
      }
    }
  }

  /** The first present entry at or after `j`, with its position. */
  function FirstSome<T>(rs: seq<Option<T>>, j: nat): (r: Option<(nat, T)>)
    ensures r.Some? ==> j <= r.value.0 < |rs| && rs[r.value.0] == Some(r.value.1)
    decreases |rs| - j
  {
    if j >= |rs| then None
    else match rs[j]
      case Some(v) => Some((j, v))
      case None => FirstSome(rs, j + 1)
  }

  /** Every entry before the one found is absent; when none is found, every entry from `j` on
      is absent. */
  lemma {:induction false} FirstSomeSpec<T>(rs: seq<Option<T>>, j: nat)
    ensures FirstSome(rs, j).Some? ==> forall i :: j <= i < FirstSome(rs, j).value.0 ==> rs[i].None?
    ensures FirstSome(rs, j).None? ==> forall i :: j <= i < |rs| ==> rs[i].None?
    decreases |rs| - j
  {
    if j < |rs| && rs[j].None? {
      FirstSomeSpec(rs, j + 1);
    }
  }
}
