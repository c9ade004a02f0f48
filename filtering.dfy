/**
 * The shape shared by the game's two clean-up loops: walk a list, update
 * every element, and drop the updated elements that fail a test, keeping the
 * rest in their original order.
 */
module Filtering {

  /** The images under f of the elements of s whose image passes keep, in order. */
  function MapFilter<T>(s: seq<T>, f: T -> T, keep: T -> bool): (r: seq<T>)
    ensures |r| <= |s|
    ensures forall k :: 0 <= k < |r| ==> keep(r[k])
    decreases |s|
  {
    if s == [] then []
    else (if keep(f(s[0])) then [f(s[0])] else []) + MapFilter(s[1..], f, keep)
  }

  /** How many elements of s have an image that fails keep. */
  function Dropped<T>(s: seq<T>, f: T -> T, keep: T -> bool): (n: nat)
    ensures n <= |s|
    decreases |s|
  {
    if s == [] then 0
    else (if keep(f(s[0])) then 0 else 1) + Dropped(s[1..], f, keep)
  }

  /** Every element is either kept or dropped, never both. */
  lemma {:induction false} KeptPlusDropped<T>(s: seq<T>, f: T -> T, keep: T -> bool)
    ensures |MapFilter(s, f, keep)| + Dropped(s, f, keep) == |s|
    decreases |s|
  {
    if s != [] {
      KeptPlusDropped(s[1..], f, keep);
    }
  }

  /** One step of a walk that has reached index i. */
  lemma UnfoldAt<T>(s: seq<T>, i: int, f: T -> T, keep: T -> bool)
    requires 0 <= i < |s|
    ensures MapFilter(s[i..], f, keep)
         == (if keep(f(s[i])) then [f(s[i])] else []) + MapFilter(s[i + 1..], f, keep)
    ensures Dropped(s[i..], f, keep) == (if keep(f(s[i])) then 0 else 1) + Dropped(s[i + 1..], f, keep)
  {
    assert s[i..][0] == s[i];
    assert s[i..][1..] == s[i + 1..];
  }

  /** The kept indices of s[i..], in order, and the images they give. */
  ghost predicate IndexesKept<T>(s: seq<T>, f: T -> T, keep: T -> bool, i: nat, idx: seq<nat>)
    requires i <= |s|
  {
    && |idx| == |MapFilter(s[i..], f, keep)|
    && (forall k :: 0 <= k < |idx| ==>
          i <= idx[k] < |s| && MapFilter(s[i..], f, keep)[k] == f(s[idx[k]]))
    && (forall k, m :: 0 <= k < m < |idx| ==> idx[k] < idx[m])
    && (forall j :: i <= j < |s| ==> (j in idx <==> keep(f(s[j]))))
  }

  /** The step of KeptIndices for an element whose image is kept. */
  lemma KeptStep<T>(s: seq<T>, f: T -> T, keep: T -> bool, i: nat, rest: seq<nat>)
    requires i < |s| && keep(f(s[i]))
    requires IndexesKept(s, f, keep, i + 1, rest)
    ensures IndexesKept(s, f, keep, i, [i] + rest)
  {
    UnfoldAt(s, i, f, keep);
    var idx := [i] + rest;
    var tail := MapFilter(s[i + 1..], f, keep);
    var kept := MapFilter(s[i..], f, keep);
    assert kept == [f(s[i])] + tail;
    assert |idx| == |kept|;
    forall k | 0 <= k < |idx|
      ensures i <= idx[k] < |s| && kept[k] == f(s[idx[k]])
    {
      if k > 0 {
        assert idx[k] == rest[k - 1] && kept[k] == tail[k - 1];
      }
    }
    forall k, m | 0 <= k < m < |idx|
      ensures idx[k] < idx[m]
    {
      assert idx[m] == rest[m - 1];
      if k > 0 {
        assert idx[k] == rest[k - 1];
      }
    }
    forall j | i <= j < |s|
      ensures j in idx <==> keep(f(s[j]))
    {
      assert j in idx <==> j == i || j in rest;
    }
  }

  /** The step of KeptIndices for an element whose image is dropped. */
  lemma DroppedStep<T>(s: seq<T>, f: T -> T, keep: T -> bool, i: nat, rest: seq<nat>)
    requires i < |s| && !keep(f(s[i]))
    requires IndexesKept(s, f, keep, i + 1, rest)
    ensures IndexesKept(s, f, keep, i, rest)
  {
    UnfoldAt(s, i, f, keep);
    assert i !in rest;
  }

  /**
   * The kept part of s[i..] is exactly the images of the elements at the
   * strictly increasing indices idx, and an index is in idx iff its image
   * passes keep: nothing else is dropped and the order is preserved.
   */
  lemma {:induction false} KeptIndices<T>(s: seq<T>, f: T -> T, keep: T -> bool, i: nat)
    returns (idx: seq<nat>)
    requires i <= |s|
    ensures |idx| == |MapFilter(s[i..], f, keep)|
    ensures forall k :: 0 <= k < |idx| ==>
              i <= idx[k] < |s| && MapFilter(s[i..], f, keep)[k] == f(s[idx[k]])
    ensures forall k, m :: 0 <= k < m < |idx| ==> idx[k] < idx[m]
    ensures forall j :: i <= j < |s| ==> (j in idx <==> keep(f(s[j])))
    decreases |s| - i
  {
    if i == |s| {
      idx := [];
    } else {
      var rest := KeptIndices(s, f, keep, i + 1);
      assert IndexesKept(s, f, keep, i + 1, rest);
      if keep(f(s[i])) {
        KeptStep(s, f, keep, i, rest);
        idx := [i] + rest;
      } else {
        DroppedStep(s, f, keep, i, rest);
        idx := rest;
      }
      assert IndexesKept(s, f, keep, i, idx);
    }
  }
}
