/** Insertion into an ordered sequence, for any total order. */
module Sorting {

  ghost predicate Orders<T(!new)>(le: (T, T) -> bool) {
    && (forall x, y :: le(x, y) || le(y, x))
    && (forall x, y, z :: le(x, y) && le(y, z) ==> le(x, z))
  }

  ghost predicate Sorted<T>(s: seq<T>, le: (T, T) -> bool) {
    forall j, k :: 0 <= j < k < |s| ==> le(s[j], s[k])
  }

  /** `x` may stand before the p'th element. */
  ghost predicate Between<T>(s: seq<T>, x: T, p: nat, le: (T, T) -> bool) {
    && p <= |s|
    && (forall k :: 0 <= k < p ==> le(s[k], x))
    && (forall k :: p <= k < |s| ==> le(x, s[k]))
  }

  method Position<T(!new)>(s: seq<T>, x: T, le: (T, T) -> bool) returns (p: nat)
    requires Orders(le) && Sorted(s, le)
    ensures Between(s, x, p, le)
  {
    p := |s|;
    while p > 0 && !le(s[p - 1], x)
      invariant p <= |s| && forall k :: p <= k < |s| ==> le(x, s[k])
    {
      p := p - 1;
    }
    assert p > 0 ==> forall k :: 0 <= k < p - 1 ==> le(s[k], s[p - 1]);
  }

  method Insert<T(!new)>(s: seq<T>, x: T, le: (T, T) -> bool) returns (more: seq<T>)
    requires Orders(le) && Sorted(s, le)
    ensures Sorted(more, le) && multiset(more) == multiset(s) + multiset{x}
  {
    var p := Position(s, x, le);
    InsertedSorted(s, x, p, le);
    more := s[..p] + [x] + s[p..];
    assert s == s[..p] + s[p..];
  }

  lemma InsertedSorted<T>(s: seq<T>, x: T, p: nat, le: (T, T) -> bool)
    requires Sorted(s, le) && Between(s, x, p, le)
    ensures Sorted(s[..p] + [x] + s[p..], le)
  {
    var more := s[..p] + [x] + s[p..];
    forall j, k | 0 <= j < k < |more| ensures le(more[j], more[k]) {
      if j == p {
        assert more[k] == s[k - 1];
      } else if k == p {
        assert more[j] == s[j];
      } else {
        assert more[j] == s[if j < p then j else j - 1] && more[k] == s[if k < p then k else k - 1];
      }
    }
  }

  method Sort<T(!new)>(s: seq<T>, le: (T, T) -> bool) returns (sorted: seq<T>)
    requires Orders(le)
    ensures Sorted(sorted, le) && multiset(sorted) == multiset(s)
  {
    sorted := [];
    for i := 0 to |s|
      invariant Sorted(sorted, le) && multiset(sorted) == multiset(s[..i])
    {
      assert s[..i + 1] == s[..i] + [s[i]];
      sorted := Insert(sorted, s[i], le);
    }
    assert s[..|s|] == s;
  }
}
