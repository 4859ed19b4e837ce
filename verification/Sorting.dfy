/** Lexicographic order on sequences of code units (or bytes) and the sort both languages apply to keys. */
module Sorting {

  type Word = seq<nat>

  /** Strict lexicographic order: JavaScript's on UTF-16 code units, Rust's on UTF-8 bytes. */
  predicate Less(a: Word, b: Word) {
    b != [] && (a == [] || a[0] < b[0] || (a[0] == b[0] && Less(a[1..], b[1..])))
  }

  lemma {:induction false} LessTotal(a: Word, b: Word)
    ensures Less(a, b) || a == b || Less(b, a)
    ensures !(Less(a, b) && Less(b, a))
    ensures !Less(a, a)
  {
    if a != [] {
      LessTotal(a[1..], a[1..]);
      if b != [] {
        LessTotal(a[1..], b[1..]);
        assert a == [a[0]] + a[1..] && b == [b[0]] + b[1..];
      }
    }
  }

  lemma {:induction false} LessTransitive(a: Word, b: Word, c: Word)
    requires Less(a, b) && Less(b, c)
    ensures Less(a, c)
  {
    if a != [] && a[0] == b[0] && b[0] == c[0] {
      LessTransitive(a[1..], b[1..], c[1..]);
    }
  }

  /** a comes before b because of place n: they agree before it, and there a ends or has the smaller unit. */
  ghost predicate DecidedAt(a: Word, b: Word, n: nat) {
    && n <= |a| && n < |b| && (forall i :: 0 <= i < n ==> a[i] == b[i])
    && (n == |a| || a[n] < b[n])
  }

  /** The order both languages document: a proper prefix comes first; else the smaller unit at the first
      place where the two differ decides. */
  ghost predicate Precedes(a: Word, b: Word) { exists n: nat :: DecidedAt(a, b, n) }

  lemma {:induction false} LessExactlyWhen(a: Word, b: Word)
    ensures Less(a, b) <==> Precedes(a, b)
  {
    if a != [] && b != [] && a[0] == b[0] {
      var a', b' := a[1..], b[1..];
      LessExactlyWhen(a', b');
      if Precedes(a', b') {
        var n: nat :| DecidedAt(a', b', n);
        assert DecidedAt(a, b, n + 1);
      }
      if Precedes(a, b) {
        var n: nat :| DecidedAt(a, b, n);
        assert DecidedAt(a', b', n - 1);
      }
    } else if Less(a, b) {
      assert DecidedAt(a, b, 0);
    }
  }

  ghost predicate SortedBy<T>(less: (T, T) -> bool, s: seq<T>) {
    forall i, j :: 0 <= i < j < |s| ==> !less(s[j], s[i])
  }

  ghost predicate Sorted(s: seq<Word>) { SortedBy(Less, s) }

  /** In a sorted list without repetition each element precedes all that follow. */
  lemma SortedPrecedes(s: seq<Word>, i: nat, j: nat)
    requires Sorted(s) && i < j < |s| && s[i] != s[j]
    ensures Precedes(s[i], s[j])
  {
    LessTotal(s[i], s[j]);
    LessExactlyWhen(s[i], s[j]);
  }

  ghost predicate StrictOrder<T(!new)>(less: (T, T) -> bool) {
    && (forall a, b :: less(a, b) ==> !less(b, a))
    && (forall a, b :: less(a, b) || a == b || less(b, a))
    && (forall a, b, c :: less(a, b) && less(b, c) ==> less(a, c))
  }

  lemma LessIsStrict()
    ensures StrictOrder(Less)
  {
    forall a, b ensures Less(a, b) ==> !Less(b, a) { LessTotal(a, b); }
    forall a, b ensures Less(a, b) || a == b || Less(b, a) { LessTotal(a, b); }
    forall a, b, c | Less(a, b) && Less(b, c) ensures Less(a, c) { LessTransitive(a, b, c); }
  }

  ghost predicate Distinct<T>(s: seq<T>) {
    forall i, j :: 0 <= i < j < |s| ==> s[i] != s[j]
  }

  ghost function Elements<T>(s: seq<T>): set<T> { set x | x in s }

  /** Insertion sort; the sources call their library's sort. */
  function Insert<T>(less: (T, T) -> bool, x: T, s: seq<T>): seq<T> {
    if s == [] then [x]
    else if less(s[0], x) then [s[0]] + Insert(less, x, s[1..])
    else [x] + s
  }

  function SortBy<T>(less: (T, T) -> bool, s: seq<T>): seq<T> {
    if s == [] then [] else Insert(less, s[|s| - 1], SortBy(less, s[..|s| - 1]))
  }

  function Sort(s: seq<Word>): seq<Word> { SortBy(Less, s) }

  /** Whatever the order, sorting keeps every element as often as it occurs. */
  lemma {:induction false} SortByPermutes<T>(less: (T, T) -> bool, s: seq<T>)
    ensures multiset(SortBy(less, s)) == multiset(s)
  {
    if s != [] {
      assert s == s[..|s| - 1] + [s[|s| - 1]];
      SortByPermutes(less, s[..|s| - 1]);
      InsertPermutes(less, s[|s| - 1], SortBy(less, s[..|s| - 1]));
    }
  }

  lemma {:induction false} InsertPermutes<T>(less: (T, T) -> bool, x: T, s: seq<T>)
    ensures multiset(Insert(less, x, s)) == multiset(s) + multiset{x}
  {
    if s != [] {
      assert s == [s[0]] + s[1..];
      InsertPermutes(less, x, s[1..]);
    }
  }

  lemma {:induction false} InsertSorts<T(!new)>(less: (T, T) -> bool, x: T, s: seq<T>)
    requires StrictOrder(less) && SortedBy(less, s)
    ensures SortedBy(less, Insert(less, x, s))
  {
    if s != [] {
      if less(s[0], x) {
        var t := Insert(less, x, s[1..]);
        InsertSorts(less, x, s[1..]);
        InsertPermutes(less, x, s[1..]);
        forall j | 0 <= j < |t| ensures !less(t[j], s[0]) {
          assert t[j] in multiset(t);
          assert t[j] == x || t[j] in s[1..];
        }
      } else {
        forall j | 0 <= j < |s| ensures !less(s[j], x) {
          assert j > 0 ==> !less(s[j], s[0]);
        }
      }
    }
  }

  lemma {:induction false} SortBySorts<T(!new)>(less: (T, T) -> bool, s: seq<T>)
    requires StrictOrder(less)
    ensures SortedBy(less, SortBy(less, s))
  {
    if s != [] {
      SortBySorts(less, s[..|s| - 1]);
      InsertSorts(less, s[|s| - 1], SortBy(less, s[..|s| - 1]));
    }
  }

  lemma SortSorts(s: seq<Word>)
    ensures Sorted(Sort(s))
  {
    LessIsStrict();
    SortBySorts(Less, s);
  }

  /** Picking from the tail of a sorted list and putting its head in front keeps it sorted. */
  lemma HeadBeforePicked<T>(less: (T, T) -> bool, s: seq<T>, picked: seq<T>)
    requires s != [] && SortedBy(less, s) && SortedBy(less, picked) && forall x :: x in picked ==> x in s[1..]
    ensures SortedBy(less, [s[0]] + picked)
  {
    forall j | 0 <= j < |picked| ensures !less(picked[j], s[0]) {
      assert picked[j] in s[1..];
      var k :| 0 <= k < |s[1..]| && s[1..][k] == picked[j];
      assert s[k + 1] == picked[j];
    }
  }

  lemma MembersOfPermutation<T>(s: seq<T>, t: seq<T>)
    requires multiset(s) == multiset(t)
    ensures |s| == |t| && Elements(s) == Elements(t) && (Distinct(s) ==> Distinct(t))
  {
    assert |s| == |multiset(s)| && |t| == |multiset(t)|;
    forall x ensures x in s <==> x in t {
      assert x in s <==> x in multiset(s);
    }
    if Distinct(s) {
      DistinctMultiset(s);
      DistinctMultiset(t);
    }
  }

  lemma {:induction false} DistinctMultiset<T>(s: seq<T>)
    ensures Distinct(s) <==> forall x :: multiset(s)[x] <= 1
  {
    if s != [] {
      var n := |s| - 1;
      DistinctMultiset(s[..n]);
      assert s == s[..n] + [s[n]];
      assert multiset(s) == multiset(s[..n]) + multiset{s[n]};
      if Distinct(s) {
        assert s[n] !in s[..n];
      } else if Distinct(s[..n]) {
        assert s[n] in s[..n];
        assert multiset(s)[s[n]] > 1;
      } else {
        var x :| multiset(s[..n])[x] > 1;
        assert multiset(s)[x] > 1;
      }
    }
  }

  lemma SortKeepsElements(s: seq<Word>)
    ensures Sorted(Sort(s)) && |Sort(s)| == |s| && Elements(Sort(s)) == Elements(s)
    ensures Distinct(s) ==> Distinct(Sort(s))
  {
    SortSorts(s);
    SortByPermutes(Less, s);
    MembersOfPermutation(s, Sort(s));
  }

  /** A strictly ordered list is determined by its set of elements. */
  lemma {:induction false} SortedUnique(s: seq<Word>, t: seq<Word>)
    requires Sorted(s) && Distinct(s) && Sorted(t) && Distinct(t) && Elements(s) == Elements(t)
    ensures s == t
  {
    assert t != [] ==> t[0] in Elements(s);
    if s != [] {
      assert s[0] in Elements(t);
      var i :| 0 <= i < |t| && t[i] == s[0];
      var j :| 0 <= j < |s| && s[j] == t[0];
      LessTotal(s[0], t[0]);
      assert s[0] == t[0];
      forall x ensures x in s[1..] <==> x in t[1..] {
        assert x in s <==> x in Elements(s);
        assert x in t <==> x in Elements(t);
        assert s == [s[0]] + s[1..] && t == [t[0]] + t[1..];
      }
      SortedUnique(s[1..], t[1..]);
      assert s == [s[0]] + s[1..] && t == [t[0]] + t[1..];
    }
  }
}
