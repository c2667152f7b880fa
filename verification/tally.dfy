/**
 * What the source does with `collections.Counter`: occurrence counts, the
 * distinct keys in first-occurrence order, and the keys counted more than once.
 */
module Tally {

  /** Number of occurrences of `x` in `s` (`Counter(s)[x]`). */
  function Count<T(==)>(s: seq<T>, x: T): nat {
    if s == [] then 0
    else Count(s[..|s| - 1], x) + (if s[|s| - 1] == x then 1 else 0)
  }

  predicate NoDuplicates<T(==)>(s: seq<T>) {
    forall i, j :: 0 <= i < j < |s| ==> s[i] != s[j]
  }

  lemma {:induction false} CountPositive<T>(s: seq<T>, x: T)
    ensures Count(s, x) > 0 <==> x in s
    decreases |s|
  {
    if s != [] {
      CountPositive(s[..|s| - 1], x);
      assert s == s[..|s| - 1] + [s[|s| - 1]];
    }
  }

  lemma {:induction false} CountConcat<T>(a: seq<T>, b: seq<T>, x: T)
    ensures Count(a + b, x) == Count(a, x) + Count(b, x)
    decreases |b|
  {
    if b == [] {
      assert a + b == a;
    } else {
      assert (a + b)[..|a + b| - 1] == a + b[..|b| - 1];
      CountConcat(a, b[..|b| - 1], x);
    }
  }

  lemma CountFirst<T>(s: seq<T>, x: T)
    requires s != []
    ensures Count(s[..1], x) == if s[0] == x then 1 else 0
  {
    assert s[..1][..0] == [];
  }

  /** Counting in a non-empty prefix: the first element, then the rest. */
  lemma CountAfterFirst<T>(s: seq<T>, i: nat, x: T)
    requires i < |s|
    ensures Count(s[..i + 1], x) == Count(s[..1], x) + Count(s[1..][..i], x)
  {
    assert s[..i + 1] == s[..1] + s[1..][..i];
    CountConcat(s[..1], s[1..][..i], x);
  }

  /** A count over a prefix never exceeds the count over the whole. */
  lemma CountPrefix<T>(s: seq<T>, n: nat, x: T)
    requires n <= |s|
    ensures Count(s[..n], x) <= Count(s, x)
  {
    assert s == s[..n] + s[n..];
    CountConcat(s[..n], s[n..], x);
  }

  /** Two sequences that agree, position by position, on where `x` occurs
      count `x` equally often. */
  lemma {:induction false} CountSamePositions<T>(a: seq<T>, b: seq<T>, x: T)
    requires |a| == |b|
    requires forall k :: 0 <= k < |a| ==> (a[k] == x <==> b[k] == x)
    ensures Count(a, x) == Count(b, x)
    decreases |a|
  {
    if a != [] {
      CountSamePositions(a[..|a| - 1], b[..|b| - 1], x);
    }
  }

  /** The keys of `Counter(s)`, in the order they first occur. */
  function Distinct<T(==,!new)>(s: seq<T>): (r: seq<T>)
    ensures forall x :: x in r <==> x in s
    ensures NoDuplicates(r)
  {
    if s == [] then []
    else
      var d := Distinct(s[..|s| - 1]);
      assert s == s[..|s| - 1] + [s[|s| - 1]];
      if s[|s| - 1] in d then d else d + [s[|s| - 1]]
  }

  /** The members of `candidates` that occur more than once in `s`, in order. */
  function Repeated<T(==,!new)>(s: seq<T>, candidates: seq<T>): (r: seq<T>)
    ensures forall x :: x in r <==> x in candidates && Count(s, x) > 1
    ensures NoDuplicates(candidates) ==> NoDuplicates(r)
  {
    if candidates == [] then []
    else
      var rest := Repeated(s, candidates[1..]);
      assert NoDuplicates(candidates) ==> candidates[0] !in candidates[1..];
      if Count(s, candidates[0]) > 1 then [candidates[0]] + rest else rest
  }

  /** The values that occur more than once in `s`, each listed once, in the
      order they first occur. */
  function Dups<T(==,!new)>(s: seq<T>): (r: seq<T>)
    ensures forall x :: x in r <==> Count(s, x) > 1
    ensures NoDuplicates(r)
  {
    forall x ensures Count(s, x) > 1 ==> x in s {
      CountPositive(s, x);
    }
    Repeated(s, Distinct(s))
  }

  /** A value is counted twice or more exactly when it sits at two positions. */
  lemma {:induction false} CountAtLeastTwo<T>(s: seq<T>, x: T)
    ensures Count(s, x) >= 2 <==> exists i, j :: 0 <= i < j < |s| && s[i] == x && s[j] == x
    decreases |s|
  {
    if s != [] {
      var init := s[..|s| - 1];
      CountAtLeastTwo(init, x);
      CountPositive(init, x);
      if Count(s, x) >= 2 {
        if Count(init, x) >= 2 {
          var i, j :| 0 <= i < j < |init| && init[i] == x && init[j] == x;
          assert s[i] == x && s[j] == x;
        } else {
          var i :| 0 <= i < |init| && init[i] == x;
          assert s[i] == x && s[|s| - 1] == x;
        }
      }
      if exists i, j :: 0 <= i < j < |s| && s[i] == x && s[j] == x {
        var i, j :| 0 <= i < j < |s| && s[i] == x && s[j] == x;
        if j < |s| - 1 {
          assert init[i] == x && init[j] == x;
        } else {
          assert init[i] == x;
        }
      }
    }
  }

  /** The repeated values are none exactly when the sequence has no duplicates. */
  lemma DupsEmptyIffNoDuplicates<T(!new)>(s: seq<T>)
    ensures Dups(s) == [] <==> NoDuplicates(s)
  {
    if Dups(s) != [] {
      CountAtLeastTwo(s, Dups(s)[0]);
    }
    if !NoDuplicates(s) {
      var i, j :| 0 <= i < j < |s| && s[i] == s[j];
      CountAtLeastTwo(s, s[i]);
      assert s[i] in Dups(s);
    }
  }

  /** Two duplicate-free sequences with no value in common concatenate to a
      duplicate-free sequence. */
  lemma NoDuplicatesConcat<T>(a: seq<T>, b: seq<T>)
    requires NoDuplicates(a) && NoDuplicates(b)
    requires forall x :: x in a ==> x !in b
    ensures NoDuplicates(a + b)
  {
    forall i, j | 0 <= i < j < |a + b|
      ensures (a + b)[i] != (a + b)[j]
    {
      if i < |a| && |a| <= j {
        assert (a + b)[i] in a && (a + b)[j] == b[j - |a|];
      }
    }
  }
}
