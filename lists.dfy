/**
 * The two `List<T>` operations the grid relies on, on values: duplicate
 * freedom (what `Contains`-guarded `Add` keeps) and `Remove`, which deletes
 * the first occurrence of an element.
 */
module Lists {

  /** No element occurs twice. */
  ghost predicate NoDup<X>(s: seq<X>)
  {
    forall j, k | 0 <= j < k < |s| :: s[j] != s[k]
  }

  /** `List<T>.Remove(x)`: drops the first occurrence of `x`, if any. */
  function RemoveFirst<X(==)>(s: seq<X>, x: X): (r: seq<X>)
    ensures multiset(r) == multiset(s) - multiset{x}
    ensures x !in s ==> r == s
    ensures |r| == if x in s then |s| - 1 else |s|
  {
    if s == [] then []
    else
      assert s == [s[0]] + s[1..];
      if s[0] == x then s[1..]
      else [s[0]] + RemoveFirst(s[1..], x)
  }

  /** On a duplicate-free list, `Remove` deletes every occurrence and keeps all else. */
  lemma {:induction false} RemoveFirstNoDup<X>(s: seq<X>, x: X)
    requires NoDup(s)
    ensures NoDup(RemoveFirst(s, x))
    ensures x !in RemoveFirst(s, x)
    ensures forall y :: y != x ==> (y in RemoveFirst(s, x) <==> y in s)
  {
    if s != [] {
      NoDupTail(s);
      if s[0] != x {
        RemoveFirstNoDup(s[1..], x);
        var t := RemoveFirst(s[1..], x);
        assert s[0] !in t;
        forall j, k | 0 <= j < k < |[s[0]] + t| ensures ([s[0]] + t)[j] != ([s[0]] + t)[k] {
          if j == 0 {
            assert ([s[0]] + t)[k] == t[k - 1];
          } else {
            assert ([s[0]] + t)[j] == t[j - 1] && ([s[0]] + t)[k] == t[k - 1];
          }
        }
      }
    }
  }

  /** `Remove(x)` keeps every other element's membership. */
  lemma RemoveFirstOthers<X>(s: seq<X>, x: X, y: X)
    requires y != x
    ensures y in RemoveFirst(s, x) <==> y in s
  {
    assert multiset(RemoveFirst(s, x))[y] == multiset(s)[y];
  }

  /** The tail of a duplicate-free list is duplicate-free and lacks the head. */
  lemma NoDupTail<X>(s: seq<X>)
    requires NoDup(s) && s != []
    ensures NoDup(s[1..]) && s[0] !in s[1..]
  {
    forall j, k | 0 <= j < k < |s[1..]| ensures s[1..][j] != s[1..][k] {
      assert s[1..][j] == s[j + 1] && s[1..][k] == s[k + 1];
    }
    forall k | 0 <= k < |s[1..]| ensures s[1..][k] != s[0] {
      assert s[1..][k] == s[k + 1];
    }
  }

  /** Appending an element that is absent keeps a list duplicate-free. */
  lemma AppendNoDup<X>(s: seq<X>, x: X)
    requires NoDup(s) && x !in s
    ensures NoDup(s + [x])
  {
    forall j, k | 0 <= j < k < |s + [x]| ensures (s + [x])[j] != (s + [x])[k] {
      if k == |s| {
        assert (s + [x])[j] == s[j];
      } else {
        assert (s + [x])[j] == s[j] && (s + [x])[k] == s[k];
      }
    }
  }

  /** Splitting off the head of the right operand of a concatenation. */
  lemma AppendHead<X>(a: seq<X>, s: seq<X>)
    requires s != []
    ensures a + [s[0]] + s[1..] == a + s
  {
  }

  /** Regrouping a three-way concatenation. */
  lemma AppendAssoc<X>(a: seq<X>, b: seq<X>, c: seq<X>)
    ensures a + (b + c) == (a + b) + c
  {
  }

  /** Two duplicate-free lists with no common element concatenate to a duplicate-free list. */
  lemma ConcatNoDup<X>(a: seq<X>, b: seq<X>)
    requires NoDup(a) && NoDup(b)
    requires forall x :: x in a ==> x !in b
    ensures NoDup(a + b)
  {
    forall j, k | 0 <= j < k < |a + b| ensures (a + b)[j] != (a + b)[k] {
      if k < |a| {
        assert (a + b)[j] == a[j] && (a + b)[k] == a[k];
      } else if j < |a| {
        assert (a + b)[j] == a[j] && a[j] in a;
        assert (a + b)[k] == b[k - |a|] && b[k - |a|] in b;
      } else {
        assert (a + b)[j] == b[j - |a|] && (a + b)[k] == b[k - |a|];
      }
    }
  }

  /** In a duplicate-free list an element occurs exactly once or not at all. */
  lemma {:induction false} NoDupCount<X>(s: seq<X>, x: X)
    requires NoDup(s)
    ensures multiset(s)[x] == if x in s then 1 else 0
  {
    if s != [] {
      assert s == [s[0]] + s[1..];
      NoDupTail(s);
      NoDupCount(s[1..], x);
      assert multiset(s) == multiset{s[0]} + multiset(s[1..]);
    }
  }

  /** The elements of `s` that are not in `out`, in their order. */
  function Without<X(==)>(s: seq<X>, out: seq<X>): (r: seq<X>)
    ensures |r| <= |s|
  {
    if s == [] then []
    else if s[0] in out then Without(s[1..], out)
    else [s[0]] + Without(s[1..], out)
  }

  /** `Without` keeps exactly the elements of `s` outside `out`. */
  lemma {:induction false} WithoutMembers<X>(s: seq<X>, out: seq<X>, x: X)
    ensures x in Without(s, out) <==> (x in s && x !in out)
  {
    if s != [] {
      WithoutMembers(s[1..], out, x);
      assert x in s <==> x == s[0] || x in s[1..];
    }
  }

  /** On a duplicate-free list, `Remove(x)` is filtering `x` out. */
  lemma {:induction false} RemoveFirstIsWithout<X>(s: seq<X>, x: X)
    requires NoDup(s)
    ensures RemoveFirst(s, x) == Without(s, [x])
  {
    if s != [] {
      NoDupTail(s);
      RemoveFirstIsWithout(s[1..], x);
      if s[0] == x {
        WithoutNone(s[1..], [x]);
      }
    }
  }

  /** Filtering out elements that do not occur changes nothing. */
  lemma {:induction false} WithoutNone<X>(s: seq<X>, out: seq<X>)
    requires forall k | 0 <= k < |s| :: s[k] !in out
    ensures Without(s, out) == s
  {
    if s != [] {
      assert forall k | 0 <= k < |s[1..]| :: s[1..][k] !in out by {
        forall k | 0 <= k < |s[1..]| ensures s[1..][k] !in out {
          assert s[1..][k] == s[k + 1];
        }
      }
      WithoutNone(s[1..], out);
      assert s == [s[0]] + s[1..];
    }
  }

  /** Filtering out one list and then another is filtering out both. */
  lemma {:induction false} WithoutWithout<X>(s: seq<X>, a: seq<X>, b: seq<X>)
    ensures Without(Without(s, a), b) == Without(s, a + b)
  {
    if s != [] {
      WithoutWithout(s[1..], a, b);
      assert s[0] in a + b <==> s[0] in a || s[0] in b;
      if s[0] !in a {
        assert ([s[0]] + Without(s[1..], a))[1..] == Without(s[1..], a);
      }
    }
  }
}
