/** Facts about sequences used as sets: the engine keeps its flags, its
    revealed tiles and its sampled mine positions in vectors and tests
    membership with `contains`. */
module Seqs {

  /** No element occurs twice. */
  predicate Distinct<T(==)>(s: seq<T>) {
    forall i, j :: 0 <= i < j < |s| ==> s[i] != s[j]
  }

  /** The set of elements of a sequence. */
  function Elems<T>(s: seq<T>): set<T> {
    set x | x in s
  }

  /** How many entries of `s` lie in `S` (entries counted with repetition). */
  function CountIn<T(==)>(s: seq<T>, S: set<T>): (r: nat)
    ensures r <= |s|
  {
    if s == [] then 0 else (if s[0] in S then 1 else 0) + CountIn(s[1..], S)
  }

  /** The elements of `s` in order of first occurrence, each once. */
  function Dedup<T(==)>(s: seq<T>): seq<T> {
    if s == [] then []
    else
      var d := Dedup(s[..|s| - 1]);
      if s[|s| - 1] in d then d else d + [s[|s| - 1]]
  }

  /** `s` with every occurrence of `x` removed, the rest kept in order
      (Rust's `retain(|&f| f != x)`). */
  function Without<T(==)>(s: seq<T>, x: T): seq<T> {
    if s == [] then []
    else (if s[0] == x then [] else [s[0]]) + Without(s[1..], x)
  }

  /** Removing a subset removes exactly its elements from the count. */
  lemma DiffCard<T>(A: set<T>, B: set<T>)
    requires B <= A
    ensures |A - B| == |A| - |B|
  {
    assert A == (A - B) + B;
    assert (A - B) * B == {};
  }

  lemma {:induction false} DistinctCard<T>(s: seq<T>)
    requires Distinct(s)
    ensures |Elems(s)| == |s|
  {
    if s != [] {
      var t := s[..|s| - 1];
      assert Distinct(t);
      DistinctCard(t);
      assert s == t + [s[|s| - 1]];
      assert Elems(s) == Elems(t) + {s[|s| - 1]};
      assert s[|s| - 1] !in Elems(t);
    }
  }

  lemma HeadNotInTail<T>(s: seq<T>)
    requires Distinct(s) && s != []
    ensures s[0] !in s[1..]
  {
    assert forall k :: 0 <= k < |s[1..]| ==> s[1..][k] == s[k + 1] != s[0];
  }

  lemma PrefixElems<T>(a: seq<T>, b: seq<T>)
    requires a <= b
    ensures Elems(a) <= Elems(b)
    ensures forall x :: x in a ==> x in b
  {
    forall x | x in a ensures x in b {
      var i :| 0 <= i < |a| && a[i] == x;
      assert b[i] == x;
    }
  }

  /** Extending a duplicate-free prefix by one entry adds an element it did
      not hold yet. */
  lemma DistinctPrefix<T>(s: seq<T>, k: nat)
    requires Distinct(s) && k < |s|
    ensures s[k] !in s[..k]
    ensures Elems(s[..k + 1]) == Elems(s[..k]) + {s[k]}
  {
    assert s[..k + 1] == s[..k] + [s[k]];
  }

  /** Adding one element `m` that was not in `S` raises the count by the
      number of times `m` occurs in a duplicate-free `s`. */
  lemma {:induction false} CountInGrow<T>(s: seq<T>, S: set<T>, m: T)
    requires Distinct(s) && m !in S
    ensures CountIn(s, S + {m}) == CountIn(s, S) + (if m in s then 1 else 0)
  {
    if s != [] {
      assert Distinct(s[1..]);
      CountInGrow(s[1..], S, m);
      assert m in s <==> m == s[0] || m in s[1..];
      HeadNotInTail(s);
    }
  }

  /** The count is zero exactly when no entry lies in `S`. */
  lemma {:induction false} CountInZero<T>(s: seq<T>, S: set<T>)
    ensures CountIn(s, S) == 0 <==> forall x :: x in s ==> x !in S
  {
    if s != [] {
      CountInZero(s[1..], S);
      assert forall x :: x in s <==> x == s[0] || x in s[1..];
    }
  }

  /** If every entry in `A` is also in `B`, then fewer entries are in `A`
      than in `B`, strictly fewer when some entry is in `B` but not in `A`. */
  lemma {:induction false} CountInMonotone<T>(s: seq<T>, A: set<T>, B: set<T>)
    ensures (forall x :: x in s && x in A ==> x in B) ==> CountIn(s, A) <= CountIn(s, B)
    ensures ((forall x :: x in s && x in A ==> x in B) && (exists x :: x in s && x in B && x !in A))
            ==> CountIn(s, A) < CountIn(s, B)
  {
    if s != [] {
      CountInMonotone(s[1..], A, B);
      assert forall x :: x in s <==> x == s[0] || x in s[1..];
    }
  }

  lemma {:induction false} DedupSpec<T>(s: seq<T>)
    ensures Distinct(Dedup(s))
    ensures Elems(Dedup(s)) == Elems(s)
  {
    if s != [] {
      var t := s[..|s| - 1];
      DedupSpec(t);
      assert s == t + [s[|s| - 1]];
      assert Elems(s) == Elems(t) + {s[|s| - 1]};
    }
  }

  lemma {:induction false} WithoutSpec<T>(s: seq<T>, x: T)
    ensures forall y :: y in Without(s, x) <==> y in s && y != x
    ensures Distinct(s) ==> Distinct(Without(s, x))
    ensures x !in s ==> Without(s, x) == s
  {
    if s != [] {
      WithoutSpec(s[1..], x);
      assert forall y :: y in s <==> y == s[0] || y in s[1..];
      var head := if s[0] == x then [] else [s[0]];
      var rest := Without(s[1..], x);
      assert Without(s, x) == head + rest;
      if Distinct(s) {
        assert Distinct(s[1..]);
        HeadNotInTail(s);
        assert s[0] !in rest;
        forall i, j | 0 <= i < j < |head + rest| ensures (head + rest)[i] != (head + rest)[j] {
          if i < |head| {
            assert (head + rest)[j] in rest;
          }
        }
      }
      if x !in s {
        assert head == [s[0]];
      }
    }
  }

  lemma {:induction false} WithoutAppend<T>(s: seq<T>, t: seq<T>, x: T)
    ensures Without(s + t, x) == Without(s, x) + Without(t, x)
  {
    if s != [] {
      WithoutAppend(s[1..], t, x);
      assert (s + t)[1..] == s[1..] + t;
    } else {
      assert s + t == t;
    }
  }
}
