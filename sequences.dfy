/**
 The array operations the components lean on, stated once over sequences:
 `filter`, the positions `filter` keeps (the identity of the kept objects),
 `findIndex`, and the first-seen de-duplication done by a JavaScript `Set`.
 */
module Sequences {

  /** `s.filter(p)`: the elements of `s` that satisfy `p`, in their order. */
  function Filter<T>(s: seq<T>, p: T -> bool): (r: seq<T>)
    ensures |r| <= |s|
    ensures forall k :: 0 <= k < |r| ==> r[k] in s && p(r[k])
    ensures forall i :: 0 <= i < |s| && p(s[i]) ==> s[i] in r
  {
    if s == [] then []
    else
      var init := s[..|s| - 1];
      assert s == init + [s[|s| - 1]];
      Filter(init, p) + (if p(s[|s| - 1]) then [s[|s| - 1]] else [])
  }

  /**
   The positions of `s` whose element satisfies `p`, ascending. A position
   names one element of `s`, as an object reference does in the source.
   */
  function Positions<T>(s: seq<T>, p: T -> bool): (r: seq<nat>)
    ensures |r| <= |s|
    ensures forall k :: 0 <= k < |r| ==> r[k] < |s|
    ensures forall k, l :: 0 <= k < l < |r| ==> r[k] < r[l]
    ensures forall i :: 0 <= i < |s| ==> (i in r <==> p(s[i]))
  {
    if s == [] then []
    else Positions(s[..|s| - 1], p) + (if p(s[|s| - 1]) then [|s| - 1] else [])
  }

  /** `s.findIndex(y => y == x)`: the first index holding `x`, or -1. */
  function FindIndex<T(==)>(s: seq<T>, x: T): (i: int)
    ensures -1 <= i < |s|
    ensures i == -1 <==> x !in s
    ensures 0 <= i ==> s[i] == x && x !in s[..i]
  {
    if s == [] then -1
    else if s[0] == x then 0
    else
      var j := FindIndex(s[1..], x);
      if j == -1 then -1
      else
        assert s[..j + 1] == [s[0]] + s[1..][..j];
        j + 1
  }

  /**
   `Array.from(new Set(s))`: every value of `s` once, in the order of its
   first occurrence.
   */
  function Distinct<T(==)>(s: seq<T>): (r: seq<T>)
    ensures |r| <= |s|
    ensures forall k :: 0 <= k < |r| ==> r[k] in s
    ensures forall i :: 0 <= i < |s| ==> s[i] in r
    ensures forall i, j :: 0 <= i < j < |r| ==> r[i] != r[j]
    ensures forall i, j :: 0 <= i < j < |r| ==> FindIndex(s, r[i]) < FindIndex(s, r[j])
  {
    if s == [] then []
    else
      var init := s[..|s| - 1];
      var last := s[|s| - 1];
      var d := Distinct(init);
      assert s == init + [last];
      FindIndexExtend(init, last);
      if last in d then d else d + [last]
  }

  /** Appending an element leaves the first index of every earlier value alone. */
  lemma {:induction false} FindIndexExtend<T>(t: seq<T>, x: T)
    ensures forall y :: y in t ==> FindIndex(t + [x], y) == FindIndex(t, y)
    ensures x !in t ==> FindIndex(t + [x], x) == |t|
  {
    if t != [] {
      FindIndexExtend(t[1..], x);
      assert (t + [x])[1..] == t[1..] + [x];
      forall y | y in t
        ensures FindIndex(t + [x], y) == FindIndex(t, y)
      {
        if y != t[0] {
          assert y in t[1..];
        }
      }
    }
  }

  /** Filtering keeps exactly the elements at `Positions`, in that order. */
  lemma {:induction false} FilterAtPositions<T>(s: seq<T>, p: T -> bool)
    ensures |Filter(s, p)| == |Positions(s, p)|
    ensures forall k :: 0 <= k < |Positions(s, p)| ==> Filter(s, p)[k] == s[Positions(s, p)[k]]
  {
    if s != [] {
      var init, last := s[..|s| - 1], s[|s| - 1];
      FilterAtPositions(init, p);
      var f, ps := Filter(init, p), Positions(init, p);
      var F, P := Filter(s, p), Positions(s, p);
      assert F == f + (if p(last) then [last] else []);
      assert P == ps + (if p(last) then [|s| - 1] else []);
      forall k | 0 <= k < |P| ensures F[k] == s[P[k]] {
        if k < |ps| {
          assert F[k] == f[k] && P[k] == ps[k];
          assert init[ps[k]] == s[ps[k]];
        } else {
          assert F[k] == last && P[k] == |s| - 1;
        }
      }
    }
  }

  /** Filtering distributes over concatenation. */
  lemma {:induction false} FilterConcat<T>(a: seq<T>, b: seq<T>, p: T -> bool)
    ensures Filter(a + b, p) == Filter(a, p) + Filter(b, p)
    decreases |b|
  {
    if b == [] {
      assert a + b == a;
    } else {
      var init := b[..|b| - 1];
      assert (a + b)[..|a + b| - 1] == a + init;
      assert (a + b)[|a + b| - 1] == b[|b| - 1];
      FilterConcat(a, init, p);
    }
  }

  /** A weaker predicate keeps at least as many elements. */
  lemma {:induction false} FilterMonotone<T>(s: seq<T>, p: T -> bool, q: T -> bool)
    requires forall i :: 0 <= i < |s| && p(s[i]) ==> q(s[i])
    ensures |Filter(s, p)| <= |Filter(s, q)|
  {
    if s != [] {
      var init := s[..|s| - 1];
      assert forall i :: 0 <= i < |init| ==> init[i] == s[i];
      FilterMonotone(init, p, q);
    }
  }

  /** A predicate every element satisfies keeps the whole sequence. */
  lemma {:induction false} FilterKeepsAll<T>(s: seq<T>, p: T -> bool)
    requires forall i :: 0 <= i < |s| ==> p(s[i])
    ensures Filter(s, p) == s
  {
    if s != [] {
      var init := s[..|s| - 1];
      assert forall i :: 0 <= i < |init| ==> init[i] == s[i];
      FilterKeepsAll(init, p);
      assert s == init + [s[|s| - 1]];
    }
  }

  /** The positions kept from a prefix are a prefix of the positions kept from the whole. */
  lemma {:induction false} PositionsOfPrefix<T>(s: seq<T>, n: nat, p: T -> bool)
    requires n <= |s|
    ensures |Positions(s[..n], p)| <= |Positions(s, p)|
    ensures Positions(s[..n], p) == Positions(s, p)[..|Positions(s[..n], p)|]
  {
    if n < |s| {
      var init := s[..|s| - 1];
      assert init[..n] == s[..n];
      PositionsOfPrefix(init, n, p);
    } else {
      assert s[..n] == s;
    }
  }

  /** When no element satisfies `p`, no position is kept. */
  lemma {:induction false} PositionsOfNone<T>(s: seq<T>, p: T -> bool)
    requires forall j :: 0 <= j < |s| ==> !p(s[j])
    ensures Positions(s, p) == []
  {
    if s != [] {
      var init := s[..|s| - 1];
      assert forall j :: 0 <= j < |init| ==> init[j] == s[j];
      PositionsOfNone(init, p);
    }
  }

  /** When exactly the element at `k` satisfies `p`, the kept positions are just `k`. */
  lemma {:induction false} PositionsOfOnly<T>(s: seq<T>, p: T -> bool, k: nat)
    requires k < |s| && p(s[k])
    requires forall j :: 0 <= j < |s| && j != k ==> !p(s[j])
    ensures Positions(s, p) == [k]
  {
    var init := s[..|s| - 1];
    assert forall j :: 0 <= j < |init| ==> init[j] == s[j];
    if k == |s| - 1 {
      PositionsOfNone(init, p);
    } else {
      PositionsOfOnly(init, p, k);
    }
  }

  /** In a strictly increasing sequence, the first index of `s[i]` is `i`. */
  lemma {:induction false} FindIndexIncreasing(s: seq<nat>, i: nat)
    requires forall k, l :: 0 <= k < l < |s| ==> s[k] < s[l]
    requires i < |s|
    ensures FindIndex(s, s[i]) == i
  {
    if i > 0 {
      assert s[0] < s[i];
      assert s[1..][i - 1] == s[i];
      FindIndexIncreasing(s[1..], i - 1);
    }
  }

  /** Filtering out an element the predicate rejects changes nothing. */
  lemma FilterSkipsRejected<T>(a: seq<T>, x: T, b: seq<T>, p: T -> bool)
    requires !p(x)
    ensures Filter(a + [x] + b, p) == Filter(a + b, p)
  {
    assert Filter([x], p) == [];
    FilterConcat(a + [x], b, p);
    FilterConcat(a, [x], p);
    FilterConcat(a, b, p);
  }
}
