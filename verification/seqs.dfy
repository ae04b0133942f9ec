/** Queries over sequences: the store lookups (`.first()`), filters and counts (`.count()`). */
module Seqs {
  import opened Wrappers

  /** Position of the first element satisfying `p`, as a MongoEngine `.first()` over natural order. */
  function FirstIndex<T>(s: seq<T>, p: T -> bool): (r: Option<nat>)
    ensures r.Some? ==> r.value < |s| && p(s[r.value])
    ensures r.Some? ==> forall j :: 0 <= j < r.value ==> !p(s[j])
    ensures r.None? ==> forall j :: 0 <= j < |s| ==> !p(s[j])
  {
    if |s| == 0 then None
    else if p(s[0]) then Some(0)
    else
      match FirstIndex(s[1..], p)
      case None => None
      case Some(i) => Some(i + 1)
  }

  /** The elements satisfying `p`, in their original order. */
  function Filter<T>(s: seq<T>, p: T -> bool): (r: seq<T>)
    ensures |r| <= |s|
    ensures forall i :: 0 <= i < |r| ==> r[i] in s && p(r[i])
    ensures forall i :: 0 <= i < |s| && p(s[i]) ==> s[i] in r
  {
    if |s| == 0 then []
    else (if p(s[0]) then [s[0]] else []) + Filter(s[1..], p)
  }

  /** Number of elements satisfying `p`. */
  function Count<T>(s: seq<T>, p: T -> bool): nat
  {
    |Filter(s, p)|
  }

  /** Filtering distributes over concatenation. */
  lemma {:induction false} FilterAppend<T>(a: seq<T>, b: seq<T>, p: T -> bool)
    ensures Filter(a + b, p) == Filter(a, p) + Filter(b, p)
  {
    if |a| == 0 {
      assert a + b == b;
    } else {
      assert (a + b)[1..] == a[1..] + b;
      FilterAppend(a[1..], b, p);
    }
  }

  /** Removing an element the filter rejects does not change the filter's result. */
  lemma {:induction false} FilterSkipsRejected<T>(s: seq<T>, i: nat, p: T -> bool)
    requires i < |s| && !p(s[i])
    ensures Filter(s[..i] + s[i + 1..], p) == Filter(s, p)
  {
    var rest := s[..i] + s[i + 1..];
    if i == 0 {
      assert rest == s[1..];
    } else {
      assert rest[0] == s[0];
      assert rest[1..] == s[1..][..i - 1] + s[1..][i..];
      FilterSkipsRejected(s[1..], i - 1, p);
    }
  }

  /** An element of a filter's result comes from the input and satisfies the predicate. */
  lemma FilterMember<T>(s: seq<T>, p: T -> bool, x: T)
    requires x in Filter(s, p)
    ensures x in s && p(x)
  {
    var r := Filter(s, p);
    var i :| 0 <= i < |r| && r[i] == x;
  }
}
