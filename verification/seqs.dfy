/**
  Sequence operations that stand for Python list and pandas boolean-mask
  behaviour: `list.index`, and keeping the elements a mask selects.
 */
module Seqs {
  import opened Wrappers

  /** Python's `list.index(x)`: the first position holding `x`, or None where Python raises. */
  function FirstIndex<T(==)>(s: seq<T>, x: T): (r: Option<nat>)
    ensures r.None? <==> x !in s
    ensures r.Some? ==> r.value < |s| && s[r.value] == x && forall j :: 0 <= j < r.value ==> s[j] != x
    decreases |s|
  {
    if |s| == 0 then None
    else if s[0] == x then Some(0)
    else
      match FirstIndex(s[1..], x)
      case None => None
      case Some(k) =>
        assert s[..k + 1] == [s[0]] + s[1..][..k];
        Some(k + 1)
  }

  /** The positions at or after `from` that a boolean mask selects, in ascending order. */
  function KeptPositions(m: seq<bool>, from: nat): (ps: seq<nat>)
    requires from <= |m|
    ensures forall j :: 0 <= j < |ps| ==> from <= ps[j] < |m| && m[ps[j]]
    ensures forall j, j' :: 0 <= j < j' < |ps| ==> ps[j] < ps[j']
    ensures forall p :: from <= p < |m| && m[p] ==> p in ps
    decreases |m| - from
  {
    if from == |m| then []
    else if m[from] then [from] + KeptPositions(m, from + 1)
    else KeptPositions(m, from + 1)
  }

  /**
    pandas `s[mask]` on the part of one column at or after `from`: exactly the
    elements at the kept positions, in order.
   */
  function FilterByMask<T>(s: seq<T>, m: seq<bool>, from: nat): (r: seq<T>)
    requires |s| == |m| && from <= |m|
    ensures |r| == |KeptPositions(m, from)|
    ensures forall j :: 0 <= j < |r| ==> r[j] == s[KeptPositions(m, from)[j]]
    decreases |m| - from
  {
    if from == |m| then []
    else if m[from] then [s[from]] + FilterByMask(s, m, from + 1)
    else FilterByMask(s, m, from + 1)
  }

  /** The elements of `s` at positions `ps`, in the order `ps` lists them. */
  function Pick<T>(s: seq<T>, ps: seq<nat>): (r: seq<T>)
    requires forall i :: 0 <= i < |ps| ==> ps[i] < |s|
    ensures |r| == |ps|
  {
    seq(|ps|, i requires 0 <= i < |ps| => s[ps[i]])
  }
}
