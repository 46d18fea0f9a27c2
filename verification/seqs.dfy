/** Sequence operations that stand for the LINQ and collection behaviour the
    source relies on: `Distinct`/`Union`/`Except` (first occurrences, in
    enumeration order), `Where`, and `Concat` of a list of lists. */
module Seqs {
  import opened Wrappers

  /** No element occurs twice. */
  ghost predicate Distinct<T>(s: seq<T>) {
    forall i, j :: 0 <= i < j < |s| ==> s[i] != s[j]
  }

  /** Two repetition-free sequences with no common element join into one. */
  lemma DistinctAppend<T>(a: seq<T>, b: seq<T>)
    requires Distinct(a) && Distinct(b)
    requires forall x :: x in a ==> x !in b
    ensures Distinct(a + b)
  {
    forall i, j | 0 <= i < j < |a + b| ensures (a + b)[i] != (a + b)[j] {
      if i < |a| && j >= |a| {
        assert (a + b)[i] == a[i] && a[i] in a;
        assert (a + b)[j] == b[j - |a|];
      }
    }
  }

  function Elems<T>(s: seq<T>): set<T> {
    set x | x in s
  }

  /** The elements of `s` that are not in `seen`, each kept at its first
      occurrence and in enumeration order: LINQ `Except(seen)` and the
      duplicate-skipping behaviour of adding to a `HashSet`. */
  function DedupFrom<T(==,!new)>(s: seq<T>, seen: set<T>): (r: seq<T>)
    ensures Distinct(r)
    ensures forall x :: x in r <==> x in s && x !in seen
    ensures |r| <= |s|
    decreases |s|
  {
    if |s| == 0 then []
    else if s[0] in seen then DedupFrom(s[1..], seen)
    else [s[0]] + DedupFrom(s[1..], seen + {s[0]})
  }

  /** LINQ `Distinct()`; `a.Union(b)` is `Dedup(a + b)`. */
  function Dedup<T(==,!new)>(s: seq<T>): (r: seq<T>)
    ensures Distinct(r)
    ensures forall x :: x in r <==> x in s
  {
    DedupFrom(s, {})
  }

  /** De-duplicating a concatenation handles the left part first: the right
      part only contributes elements not already seen on the left. */
  lemma {:induction false} DedupFromAppend<T(!new)>(a: seq<T>, b: seq<T>, seen: set<T>)
    ensures DedupFrom(a + b, seen) == DedupFrom(a, seen) + DedupFrom(b, seen + Elems(a))
    decreases |a|
  {
    if |a| == 0 {
      assert a + b == b;
      assert Elems(a) == {};
      assert seen + Elems(a) == seen;
    } else {
      assert (a + b)[0] == a[0];
      assert (a + b)[1..] == a[1..] + b;
      if a[0] in seen {
        DedupFromAppend(a[1..], b, seen);
        assert Elems(a) == Elems(a[1..]) + {a[0]};
        assert seen + Elems(a) == seen + Elems(a[1..]);
      } else {
        DedupFromAppend(a[1..], b, seen + {a[0]});
        assert Elems(a) == Elems(a[1..]) + {a[0]};
        assert seen + {a[0]} + Elems(a[1..]) == seen + Elems(a);
      }
    }
  }

  /** The first element of a repetition-free sequence does not recur. */
  lemma HeadNotInTail<T>(s: seq<T>)
    requires Distinct(s) && |s| > 0
    ensures s[0] !in s[1..]
  {
    forall k | 0 <= k < |s| - 1 ensures s[1..][k] != s[0] {
      assert s[1..][k] == s[k + 1];
    }
  }

  /** A sequence without repetitions that avoids `seen` passes unchanged. */
  lemma {:induction false} DedupFromDistinct<T(!new)>(s: seq<T>, seen: set<T>)
    requires Distinct(s)
    requires forall x :: x in s ==> x !in seen
    ensures DedupFrom(s, seen) == s
    decreases |s|
  {
    if |s| > 0 {
      var t := s[1..];
      HeadNotInTail(s);
      assert Distinct(t);
      DedupFromDistinct(t, seen + {s[0]});
      assert s == [s[0]] + t;
    }
  }

  /** `prior.Union(added)` keeps `prior` (already repetition-free) as a prefix and
      appends the added elements not in `prior`, in order. */
  lemma UnionKeepsOldFirst<T(!new)>(prior: seq<T>, added: seq<T>)
    requires Distinct(prior)
    ensures Dedup(prior + added) == prior + DedupFrom(added, Elems(prior))
  {
    DedupFromAppend(prior, added, {});
    DedupFromDistinct(prior, {});
    assert {} + Elems(prior) == Elems(prior);
  }

  /** Nothing new is left when every element was seen before. */
  lemma {:induction false} DedupFromAllSeen<T(!new)>(s: seq<T>, seen: set<T>)
    requires forall x :: x in s ==> x in seen
    ensures DedupFrom(s, seen) == []
    decreases |s|
  {
    if |s| > 0 {
      assert s[0] in s;
      assert forall x :: x in s[1..] ==> x in s;
      DedupFromAllSeen(s[1..], seen);
    }
  }

  /** LINQ `Where(p)`. */
  /** `r` is `s` with some of its positions left out and the others kept in
      their original order. */
  ghost predicate SubsequenceOf<T>(r: seq<T>, s: seq<T>)
    decreases |s|
  {
    if |r| == 0 then true
    else if |s| == 0 then false
    else (r[0] == s[0] && SubsequenceOf(r[1..], s[1..])) || SubsequenceOf(r, s[1..])
  }

  function Filter<T(!new)>(s: seq<T>, p: T -> bool): (r: seq<T>)
    ensures |r| <= |s|
    ensures forall x :: x in r <==> x in s && p(x)
    decreases |s|
  {
    if |s| == 0 then []
    else (if p(s[0]) then [s[0]] else []) + Filter(s[1..], p)
  }

  /** A filter is an order-keeping subsequence holding every copy of a kept
      value and nothing else, which pins it down. */
  lemma {:induction false} FilterKeepsOrder<T(!new)>(s: seq<T>, p: T -> bool)
    ensures SubsequenceOf(Filter(s, p), s)
    ensures forall x :: multiset(Filter(s, p))[x] == if p(x) then multiset(s)[x] else 0
    decreases |s|
  {
    if |s| > 0 {
      var rest := Filter(s[1..], p);
      FilterKeepsOrder(s[1..], p);
      assert s == [s[0]] + s[1..];
      if p(s[0]) {
        assert Filter(s, p) == [s[0]] + rest;
        assert ([s[0]] + rest)[1..] == rest;
      } else {
        assert Filter(s, p) == rest;
        assert |rest| > 0 ==> SubsequenceOf(rest, s);
      }
    }
  }

  /** Dropping repeats and seen elements keeps the rest in their order. */
  lemma {:induction false} DedupFromKeepsOrder<T(!new)>(s: seq<T>, seen: set<T>)
    ensures SubsequenceOf(DedupFrom(s, seen), s)
    decreases |s|
  {
    if |s| > 0 {
      if s[0] in seen {
        var rest := DedupFrom(s[1..], seen);
        DedupFromKeepsOrder(s[1..], seen);
        assert |rest| > 0 ==> SubsequenceOf(rest, s);
      } else {
        var rest := DedupFrom(s[1..], seen + {s[0]});
        DedupFromKeepsOrder(s[1..], seen + {s[0]});
        assert ([s[0]] + rest)[1..] == rest;
      }
    }
  }

  /** Filtering distributes over concatenation, so the kept elements stay in
      their original relative order. */
  lemma {:induction false} FilterAppend<T(!new)>(a: seq<T>, b: seq<T>, p: T -> bool)
    ensures Filter(a + b, p) == Filter(a, p) + Filter(b, p)
    decreases |a|
  {
    if |a| == 0 {
      assert a + b == b;
    } else {
      assert (a + b)[0] == a[0];
      assert (a + b)[1..] == a[1..] + b;
      FilterAppend(a[1..], b, p);
    }
  }

  /** When every element passes, filtering is the identity. */
  lemma {:induction false} FilterKeepsAll<T(!new)>(s: seq<T>, p: T -> bool)
    requires forall x :: x in s ==> p(x)
    ensures Filter(s, p) == s
    decreases |s|
  {
    if |s| > 0 {
      assert s[0] in s;
      assert forall x :: x in s[1..] ==> x in s;
      FilterKeepsAll(s[1..], p);
      assert s == [s[0]] + s[1..];
    }
  }

  /** When no element passes, nothing is kept. */
  lemma {:induction false} FilterNone<T(!new)>(s: seq<T>, p: T -> bool)
    requires forall x :: x in s ==> !p(x)
    ensures Filter(s, p) == []
    decreases |s|
  {
    if |s| > 0 {
      assert s[0] in s;
      assert forall x :: x in s[1..] ==> x in s;
      FilterNone(s[1..], p);
    }
  }

  /** `Concat(ss)` is the lists of `ss` joined in order. */
  function Concat<T>(ss: seq<seq<T>>): (r: seq<T>)
    decreases |ss|
  {
    if |ss| == 0 then [] else ss[0] + Concat(ss[1..])
  }

  lemma {:induction false} ConcatAppend<T>(ss: seq<seq<T>>, t: seq<T>)
    ensures Concat(ss + [t]) == Concat(ss) + t
    decreases |ss|
  {
    if |ss| == 0 {
      assert ss + [t] == [t];
    } else {
      assert (ss + [t])[0] == ss[0];
      assert (ss + [t])[1..] == ss[1..] + [t];
      ConcatAppend(ss[1..], t);
    }
  }

  /** The first element of `s` that was seen before it (in `seen` or earlier in
      `s`): the key on which `ToDictionary` or `Dictionary.Add` throws. */
  function FirstRepeat<T(==)>(s: seq<T>, seen: set<T>): (r: Option<T>)
    ensures r.None? <==> Distinct(s) && forall i :: 0 <= i < |s| ==> s[i] !in seen
    ensures r.Some? ==> r.value in s
    decreases |s|
  {
    if |s| == 0 then None
    else if s[0] in seen then Some(s[0])
    else
      var rest := FirstRepeat(s[1..], seen + {s[0]});
      assert rest.None? ==> Distinct(s) by {
        if rest.None? {
          forall i, j | 0 <= i < j < |s| ensures s[i] != s[j] {
            if i > 0 {
              assert s[i] == s[1..][i - 1] && s[j] == s[1..][j - 1];
            } else {
              assert s[j] == s[1..][j - 1];
            }
          }
        }
      }
      assert Distinct(s) && (forall i :: 0 <= i < |s| ==> s[i] !in seen) ==> rest.None? by {
        if Distinct(s) && (forall i :: 0 <= i < |s| ==> s[i] !in seen) {
          forall i | 0 <= i < |s[1..]| ensures s[1..][i] !in seen + {s[0]} {
            assert s[1..][i] == s[i + 1];
          }
          forall i, j | 0 <= i < j < |s[1..]| ensures s[1..][i] != s[1..][j] {
            assert s[1..][i] == s[i + 1] && s[1..][j] == s[j + 1];
          }
        }
      }
      rest
  }
}
