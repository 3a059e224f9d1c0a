/**
 * The list of live photo numbers kept under the key `savedPhotosIndex`,
 * and the expression-level operations the gallery applies to it:
 * filtering a number out (removal) and sorting in descending order (load).
 */
module PhotoIndex {

  /** No photo number occurs twice. */
  predicate NoDuplicates(s: seq<int>) {
    forall i, j :: 0 <= i < j < |s| ==> s[i] != s[j]
  }

  predicate StrictlyIncreasing(s: seq<int>) {
    forall i, j :: 0 <= i < j < |s| ==> s[i] < s[j]
  }

  predicate StrictlyDecreasing(s: seq<int>) {
    forall i, j :: 0 <= i < j < |s| ==> s[i] > s[j]
  }

  predicate NonIncreasing(s: seq<int>) {
    forall i, j :: 0 <= i < j < |s| ==> s[i] >= s[j]
  }

  /** The set of numbers that occur in `s`. */
  function Members(s: seq<int>): set<int> {
    set k | k in s
  }

  /**
   * `r` can be obtained from `s` by deleting elements: every element of `r`
   * occurs in `s`, in the same relative order.
   */
  ghost predicate SubsequenceOf(r: seq<int>, s: seq<int>)
    decreases |s|
  {
    if r == [] then true
    else if s == [] then false
    else if r[0] == s[0] then SubsequenceOf(r[1..], s[1..])
    else SubsequenceOf(r, s[1..])
  }

  lemma {:induction false} NoDuplicatesCons(x: int, t: seq<int>)
    ensures NoDuplicates([x] + t) <==> x !in t && NoDuplicates(t)
  {
    var s := [x] + t;
    if x !in t && NoDuplicates(t) {
      forall i, j | 0 <= i < j < |s| ensures s[i] != s[j] {
        if i == 0 {
          assert s[j] == t[j - 1];
        } else {
          assert s[i] == t[i - 1] && s[j] == t[j - 1];
        }
      }
    }
    if NoDuplicates(s) {
      forall j | 0 <= j < |t| ensures t[j] != x {
        assert s[0] == x && t[j] == s[j + 1];
      }
      forall i, j | 0 <= i < j < |t| ensures t[i] != t[j] {
        assert t[i] == s[i + 1] && t[j] == s[j + 1];
      }
    }
  }

  lemma StrictlyIncreasingHasNoDuplicates(s: seq<int>)
    requires StrictlyIncreasing(s)
    ensures NoDuplicates(s)
  {
  }

  /**
   * The index with every occurrence of `n` filtered out, the others kept in
   * their order (`savedPhotos.filter(num => num !== photoNumber)`).
   */
  function Without(s: seq<int>, n: int): (r: seq<int>)
    ensures multiset(r) == multiset(s)[n := 0]
    ensures forall x :: x in r <==> x in s && x != n
  {
    if s == [] then []
    else
      assert s == [s[0]] + s[1..];
      if s[0] == n then Without(s[1..], n) else [s[0]] + Without(s[1..], n)
  }

  lemma {:induction false} WithoutAbsent(s: seq<int>, n: int)
    requires n !in s
    ensures Without(s, n) == s
  {
    if s != [] {
      WithoutAbsent(s[1..], n);
      assert s == [s[0]] + s[1..];
    }
  }

  /** Filtering a number out twice is the same as filtering it out once. */
  lemma WithoutIdempotent(s: seq<int>, n: int)
    ensures Without(Without(s, n), n) == Without(s, n)
  {
    WithoutAbsent(Without(s, n), n);
  }

  lemma {:induction false} WithoutIsSubsequence(s: seq<int>, n: int)
    ensures SubsequenceOf(Without(s, n), s)
  {
    if s != [] {
      WithoutIsSubsequence(s[1..], n);
      if s[0] != n {
        assert Without(s, n)[1..] == Without(s[1..], n);
      } else {
        SubsequenceOfTail(Without(s[1..], n), s);
      }
    }
  }

  /** A subsequence of `s[1..]` is a subsequence of `s`. */
  lemma {:induction false} SubsequenceOfTail(r: seq<int>, s: seq<int>)
    requires s != [] && SubsequenceOf(r, s[1..])
    ensures SubsequenceOf(r, s)
    decreases |s|, |r|
  {
    if r != [] && r[0] == s[0] {
      SubsequenceDropHead(r, s[1..]);
    }
  }

  /** Dropping the first element of a subsequence keeps it a subsequence. */
  lemma {:induction false} SubsequenceDropHead(r: seq<int>, s: seq<int>)
    requires r != [] && SubsequenceOf(r, s)
    ensures SubsequenceOf(r[1..], s)
    decreases |s|, |r|
  {
    if r[0] == s[0] {
      SubsequenceOfTail(r[1..], s);
    } else {
      SubsequenceDropHead(r, s[1..]);
      SubsequenceOfTail(r[1..], s);
    }
  }

  /** A subsequence of `s` stays one when `s` grows at the end. */
  lemma {:induction false} SubsequenceExtend(r: seq<int>, s: seq<int>, x: int)
    requires SubsequenceOf(r, s)
    ensures SubsequenceOf(r, s + [x])
    decreases |s|
  {
    if r != [] {
      assert (s + [x])[0] == s[0] && (s + [x])[1..] == s[1..] + [x];
      if r[0] == s[0] {
        SubsequenceExtend(r[1..], s[1..], x);
      } else {
        SubsequenceExtend(r, s[1..], x);
      }
    }
  }

  /** Appending the same element to both keeps a subsequence a subsequence. */
  lemma {:induction false} SubsequenceAppend(r: seq<int>, s: seq<int>, x: int)
    requires SubsequenceOf(r, s)
    ensures SubsequenceOf(r + [x], s + [x])
    decreases |s|
  {
    if s == [] {
      assert r == [];
      assert SubsequenceOf([x][1..], []);
    } else {
      assert (s + [x])[0] == s[0] && (s + [x])[1..] == s[1..] + [x];
      if r == [] {
        if s[0] != x {
          SubsequenceAppend(r, s[1..], x);
        } else {
          assert ([x])[1..] == [];
        }
      } else if r[0] == s[0] {
        SubsequenceAppend(r[1..], s[1..], x);
        assert (r + [x])[1..] == r[1..] + [x];
      } else {
        SubsequenceAppend(r, s[1..], x);
      }
    }
  }

  lemma {:induction false} SubsequenceMembers(r: seq<int>, s: seq<int>)
    requires SubsequenceOf(r, s)
    ensures forall x :: x in r ==> x in s
    decreases |s|
  {
    if r != [] {
      if r[0] == s[0] {
        SubsequenceMembers(r[1..], s[1..]);
        assert r == [r[0]] + r[1..];
      } else {
        SubsequenceMembers(r, s[1..]);
      }
    }
  }

  /** Deleting elements from a strictly increasing sequence keeps it strictly increasing. */
  lemma {:induction false} SubsequenceKeepsIncreasing(r: seq<int>, s: seq<int>)
    requires StrictlyIncreasing(s) && SubsequenceOf(r, s)
    ensures StrictlyIncreasing(r)
    decreases |s|
  {
    if r != [] {
      if r[0] == s[0] {
        SubsequenceKeepsIncreasing(r[1..], s[1..]);
        SubsequenceMembers(r[1..], s[1..]);
        forall j | 0 < j < |r| ensures r[0] < r[j] {
          assert r[j] == r[1..][j - 1];
          assert r[j] in s[1..];
        }
      } else {
        SubsequenceKeepsIncreasing(r, s[1..]);
      }
    }
  }

  /** Removal keeps a strictly increasing index strictly increasing. */
  lemma WithoutKeepsIncreasing(s: seq<int>, n: int)
    requires StrictlyIncreasing(s)
    ensures StrictlyIncreasing(Without(s, n))
  {
    WithoutIsSubsequence(s, n);
    SubsequenceKeepsIncreasing(Without(s, n), s);
  }

  /** Removal keeps an index without duplicates free of duplicates. */
  lemma {:induction false} WithoutKeepsNoDuplicates(s: seq<int>, n: int)
    requires NoDuplicates(s)
    ensures NoDuplicates(Without(s, n))
  {
    if s != [] {
      assert s == [s[0]] + s[1..];
      NoDuplicatesCons(s[0], s[1..]);
      WithoutKeepsNoDuplicates(s[1..], n);
      if s[0] != n {
        NoDuplicatesCons(s[0], Without(s[1..], n));
      }
    }
  }

  /** Inserts `x` into a descending sequence before the first element not above it. */
  function Insert(x: int, t: seq<int>): (r: seq<int>)
    ensures multiset(r) == multiset(t) + multiset{x}
  {
    if t == [] || x >= t[0] then [x] + t
    else
      assert t == [t[0]] + t[1..];
      [t[0]] + Insert(x, t[1..])
  }

  lemma {:induction false} InsertKeepsNonIncreasing(x: int, t: seq<int>)
    requires NonIncreasing(t)
    ensures NonIncreasing(Insert(x, t))
  {
    if t != [] && x < t[0] {
      var tail := t[1..];
      InsertKeepsNonIncreasing(x, tail);
      var rest := Insert(x, tail);
      assert Insert(x, t) == [t[0]] + rest;
      forall j | 0 <= j < |rest| ensures t[0] >= rest[j] {
        assert rest[j] in multiset(rest);
        if rest[j] != x {
          assert rest[j] in multiset(tail);
          var m :| 0 <= m < |tail| && tail[m] == rest[j];
          assert t[m + 1] == tail[m];
        }
      }
    }
  }

  /** The index sorted by `(a, b) => b - a`: the largest number first. */
  function SortDescending(s: seq<int>): (r: seq<int>)
    ensures multiset(r) == multiset(s)
    ensures NonIncreasing(r)
  {
    if s == [] then []
    else
      assert s == [s[0]] + s[1..];
      InsertKeepsNonIncreasing(s[0], SortDescending(s[1..]));
      Insert(s[0], SortDescending(s[1..]))
  }

  lemma {:induction false} InsertKeepsNoDuplicates(x: int, t: seq<int>)
    requires x !in t && NoDuplicates(t)
    ensures NoDuplicates(Insert(x, t))
  {
    if t == [] || x >= t[0] {
      NoDuplicatesCons(x, t);
    } else {
      assert t == [t[0]] + t[1..];
      NoDuplicatesCons(t[0], t[1..]);
      InsertKeepsNoDuplicates(x, t[1..]);
      var rest := Insert(x, t[1..]);
      assert t[0] !in multiset(rest);
      NoDuplicatesCons(t[0], rest);
    }
  }

  lemma {:induction false} SortKeepsNoDuplicates(s: seq<int>)
    requires NoDuplicates(s)
    ensures NoDuplicates(SortDescending(s))
  {
    if s != [] {
      assert s == [s[0]] + s[1..];
      NoDuplicatesCons(s[0], s[1..]);
      SortKeepsNoDuplicates(s[1..]);
      assert s[0] !in multiset(SortDescending(s[1..]));
      InsertKeepsNoDuplicates(s[0], SortDescending(s[1..]));
    }
  }

  /** An index without duplicates comes out of the sort strictly descending. */
  lemma SortStrictlyDescending(s: seq<int>)
    requires NoDuplicates(s)
    ensures StrictlyDecreasing(SortDescending(s))
  {
    SortKeepsNoDuplicates(s);
  }
}
