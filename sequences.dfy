/** Facts about finite sequences shared by the catalog and the playlists. */
module Sequences {

  /** No element occurs twice in `s`. */
  predicate NoDuplicates<T(==)>(s: seq<T>) {
    forall i, j :: 0 <= i < j < |s| ==> s[i] != s[j]
  }

  /** Position of the first occurrence of `x` in `s`. */
  function IndexOf<T(==)>(s: seq<T>, x: T): (i: nat)
    requires x in s
    ensures i < |s| && s[i] == x
    ensures x !in s[..i]
  {
    if s[0] == x then 0
    else
      var k := IndexOf(s[1..], x);
      assert s[..k + 1] == [s[0]] + s[1..][..k];
      k + 1
  }

  /** Python's `list.remove`: deletes the first occurrence of `x`, so the length drops by one. */
  function RemoveFirst<T(==)>(s: seq<T>, x: T): (r: seq<T>)
    requires x in s
    ensures |r| == |s| - 1
  {
    if s[0] == x then s[1..] else [s[0]] + RemoveFirst(s[1..], x)
  }

  /** Removal brings in nothing: every remaining element was there before. */
  lemma RemoveFirstSubset<T>(s: seq<T>, x: T)
    requires x in s
    ensures forall w :: w in RemoveFirst(s, x) ==> w in s
  {
    RemoveFirstMultiset(s, x);
    forall w | w in RemoveFirst(s, x)
      ensures w in s
    {
      assert w in multiset(RemoveFirst(s, x));
    }
  }

  /** Exactly one copy of `x` leaves the multiset of elements; all others stay. */
  lemma {:induction false} RemoveFirstMultiset<T>(s: seq<T>, x: T)
    requires x in s
    ensures multiset(RemoveFirst(s, x)) == multiset(s) - multiset{x}
  {
    assert s == [s[0]] + s[1..];
    if s[0] != x {
      RemoveFirstMultiset(s[1..], x);
    }
  }

  /** Removing `x` splices the sequence at its first occurrence: the others keep their order. */
  lemma {:induction false} RemoveFirstSplices<T>(s: seq<T>, x: T)
    requires x in s
    ensures RemoveFirst(s, x) == s[..IndexOf(s, x)] + s[IndexOf(s, x) + 1..]
  {
    RemoveFirstSplicesAt(s, x, IndexOf(s, x));
  }

  lemma {:induction false} RemoveFirstSplicesAt<T>(s: seq<T>, x: T, i: nat)
    requires x in s && i == IndexOf(s, x)
    ensures RemoveFirst(s, x) == s[..i] + s[i + 1..]
  {
    if s[0] != x {
      var t := s[1..];
      RemoveFirstSplicesAt(t, x, i - 1);
      assert [s[0]] + t[..i - 1] == s[..i];
      assert t[i..] == s[i + 1..];
    }
  }

  /** In a duplicate-free sequence, removal deletes the only copy and keeps every other element. */
  lemma {:induction false} RemoveFirstKeepsNoDuplicates<T>(s: seq<T>, x: T)
    requires x in s && NoDuplicates(s)
    ensures NoDuplicates(RemoveFirst(s, x))
    ensures x !in RemoveFirst(s, x)
    ensures forall y :: y != x ==> (y in RemoveFirst(s, x) <==> y in s)
  {
    assert s == [s[0]] + s[1..];
    assert s[0] !in s[1..] by { HeadNotInTail(s); }
    if s[0] != x {
      RemoveFirstKeepsNoDuplicates(s[1..], x);
      var r := RemoveFirst(s, x);
      assert r == [s[0]] + RemoveFirst(s[1..], x);
      forall i, j | 0 <= i < j < |r|
        ensures r[i] != r[j]
      {
        if i == 0 {
          assert r[j] in RemoveFirst(s[1..], x);
        } else {
          assert r[i] == RemoveFirst(s[1..], x)[i - 1];
          assert r[j] == RemoveFirst(s[1..], x)[j - 1];
        }
      }
    }
  }

  /** The head of a duplicate-free sequence does not reappear in its tail. */
  lemma HeadNotInTail<T>(s: seq<T>)
    requires s != [] && NoDuplicates(s)
    ensures s[0] !in s[1..]
  {
    forall j | 0 <= j < |s[1..]|
      ensures s[1..][j] != s[0]
    {
      assert s[1..][j] == s[j + 1];
    }
  }

  /** The tail of a duplicate-free sequence is duplicate-free. */
  lemma TailNoDuplicates<T>(s: seq<T>)
    requires s != [] && NoDuplicates(s)
    ensures NoDuplicates(s[1..])
  {
    forall i, j | 0 <= i < j < |s[1..]|
      ensures s[1..][i] != s[1..][j]
    {
      assert s[1..][i] == s[i + 1] && s[1..][j] == s[j + 1];
    }
  }

  /** Putting an absent element in front of a duplicate-free sequence keeps it duplicate-free. */
  lemma ConsNoDuplicates<T>(x: T, s: seq<T>)
    requires x !in s && NoDuplicates(s)
    ensures NoDuplicates([x] + s)
  {
    var r := [x] + s;
    forall i, j | 0 <= i < j < |r|
      ensures r[i] != r[j]
    {
      assert r[j] == s[j - 1];
      if i > 0 {
        assert r[i] == s[i - 1];
      }
    }
  }

  /** Removing a just-appended fresh element gives the original sequence back. */
  lemma {:induction false} RemoveFirstOfAppended<T>(s: seq<T>, x: T)
    requires x !in s
    ensures RemoveFirst(s + [x], x) == s
  {
    if s != [] {
      assert (s + [x])[1..] == s[1..] + [x];
      RemoveFirstOfAppended(s[1..], x);
      assert s == [s[0]] + s[1..];
    }
  }
}
