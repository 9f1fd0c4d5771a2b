/** The query operators the repositories chain together (`Where`, `Select`,
    `OrderBy`, `Skip`, `Take`, `Count`) and the page they return
    (`PageResultModel`). */
module Paging {
  import opened Common

  /** `PageResultModel<IEnumerable<T>>`: one page of rows plus the requested
      window and the number of rows the query matched. */
  datatype PageResult<T> = PageResult(data: seq<T>, offset: int, take: int, total: int)

  /** `Where`: the rows satisfying `p`, in their original order. */
  function Filter<T>(s: seq<T>, p: T -> bool): (r: seq<T>)
    ensures |r| <= |s|
    ensures forall i :: 0 <= i < |r| ==> p(r[i])
    ensures forall i :: 0 <= i < |r| ==> r[i] in s
    ensures forall i :: 0 <= i < |s| && p(s[i]) ==> s[i] in r
  {
    if s == [] then []
    else if p(s[0]) then [s[0]] + Filter(s[1..], p)
    else Filter(s[1..], p)
  }

  /** `Where` keeps every row when every row already satisfies the filter. */
  lemma {:induction false} FilterAll<T>(s: seq<T>, p: T -> bool)
    requires forall i :: 0 <= i < |s| ==> p(s[i])
    ensures Filter(s, p) == s
  {
    if s != [] {
      FilterAll(s[1..], p);
    }
  }

  /** `Where` distributes over the concatenation of two row lists. */
  lemma {:induction false} FilterAppend<T>(s: seq<T>, t: seq<T>, p: T -> bool)
    ensures Filter(s + t, p) == Filter(s, p) + Filter(t, p)
  {
    if s == [] {
      assert s + t == t;
    } else {
      assert (s + t)[1..] == s[1..] + t;
      FilterAppend(s[1..], t, p);
    }
  }

  /** `Select`: `f` applied to every row, order kept. */
  function MapSeq<A, B>(s: seq<A>, f: A -> B): (r: seq<B>)
    ensures |r| == |s|
    ensures forall i :: 0 <= i < |s| ==> r[i] == f(s[i])
  {
    seq(|s|, i requires 0 <= i < |s| => f(s[i]))
  }

  /** Mapping a page cut from `listing` gives the images of the same window,
      and as many of them. */
  lemma MapWindow<A, B>(page: seq<A>, listing: seq<A>, offset: int, take: int, n: int, f: A -> B)
    requires |page| > 0 ==> Max(0, offset) + |page| <= |listing|
    requires forall i :: 0 <= i < |page| ==>
              page[i] == listing[Max(0, offset) + i]
    requires |page| == Min(Max(0, take), Max(0, n - Max(0, offset)))
    ensures |MapSeq(page, f)| > 0 ==> Max(0, offset) + |MapSeq(page, f)| <= |listing|
    ensures forall i :: 0 <= i < |MapSeq(page, f)| ==>
              MapSeq(page, f)[i] == f(listing[Max(0, offset) + i])
    ensures |MapSeq(page, f)| == Min(Max(0, take), Max(0, n - Max(0, offset)))
  {
  }

  /** `Skip(n)`: a negative count skips nothing, a count past the end leaves nothing. */
  function Skip<T>(s: seq<T>, n: int): (r: seq<T>)
    ensures |r| == if n <= 0 then |s| else if n >= |s| then 0 else |s| - n
    ensures forall i :: 0 <= i < |r| ==> r[i] == s[|s| - |r| + i]
  {
    if n <= 0 then s else if n >= |s| then [] else s[n..]
  }

  /** `Take(n)`: a non-positive count takes nothing. */
  function Take<T>(s: seq<T>, n: int): (r: seq<T>)
    ensures |r| == if n <= 0 then 0 else if n >= |s| then |s| else n
    ensures forall i :: 0 <= i < |r| ==> r[i] == s[i]
  {
    if n <= 0 then [] else if n >= |s| then s else s[..n]
  }

  /** `.Skip(offset).Take(take)`: a window of consecutive rows starting at
      `offset` (at 0 when the offset is negative). */
  function Slice<T>(s: seq<T>, offset: int, take: int): (r: seq<T>)
    ensures |r| == Min(Max(0, take), Max(0, |s| - Max(0, offset)))
    ensures |r| > 0 ==> Max(0, offset) + |r| <= |s|
    ensures forall i :: 0 <= i < |r| ==>
              r[i] == s[Max(0, offset) + i]
  {
    var skipped := Skip(s, offset);
    assert |skipped| == Max(0, |s| - Max(0, offset));
    var r := Take(skipped, take);
    assert forall i :: 0 <= i < |r| ==> r[i] == skipped[i];
    r
  }

  function Min(a: int, b: int): int { if a <= b then a else b }
  function Max(a: int, b: int): int { if a <= b then b else a }

  /** For a non-negative window the page holds min(take, max(0, |s| - offset))
      rows, and its i-th row is row offset + i of the ordered list. */
  lemma SliceShape<T>(s: seq<T>, offset: int, take: int)
    requires offset >= 0 && take >= 0
    ensures |Slice(s, offset, take)| == Min(take, Max(0, |s| - offset))
    ensures forall i :: 0 <= i < |Slice(s, offset, take)| ==> Slice(s, offset, take)[i] == s[offset + i]
  {
    var skipped := Skip(s, offset);
    assert |skipped| == Max(0, |s| - offset);
    assert Slice(s, offset, take) == Take(skipped, take);
  }

  /** Every row of a page is a row of the list it was cut from. */
  lemma SliceSubset<T>(s: seq<T>, offset: int, take: int)
    ensures forall i :: 0 <= i < |Slice(s, offset, take)| ==> Slice(s, offset, take)[i] in s
  {
  }

  /** `s` is ordered by `le`: every earlier row sorts at or before every later one. */
  predicate SortedBy<T>(s: seq<T>, le: (T, T) -> bool) {
    forall i, j :: 0 <= i < j < |s| ==> le(s[i], s[j])
  }

  /** `le` is a total preorder: any two rows compare, and comparison chains. */
  ghost predicate TotalPreorder<T(!new)>(le: (T, T) -> bool) {
    && (forall a, b :: le(a, b) || le(b, a))
    && (forall a, b, c :: le(a, b) && le(b, c) ==> le(a, c))
  }

  /** Inserts `x` before the first row it sorts at or before. */
  function Insert<T>(x: T, s: seq<T>, le: (T, T) -> bool): (r: seq<T>)
    ensures |r| == |s| + 1
  {
    if s == [] then [x]
    else if le(x, s[0]) then [x] + s
    else [s[0]] + Insert(x, s[1..], le)
  }

  /** `OrderBy`: stable insertion sort; rows that compare equal keep their
      original order. */
  function SortBy<T>(s: seq<T>, le: (T, T) -> bool): (r: seq<T>)
    ensures |r| == |s|
  {
    if s == [] then [] else Insert(s[0], SortBy(s[1..], le), le)
  }

  lemma {:induction false} InsertPermutation<T>(x: T, s: seq<T>, le: (T, T) -> bool)
    ensures multiset(Insert(x, s, le)) == multiset(s) + multiset{x}
  {
    if s != [] && !le(x, s[0]) {
      InsertPermutation(x, s[1..], le);
      assert s == [s[0]] + s[1..];
    }
  }

  /** `OrderBy` only reorders: the sorted list holds the same rows, as often. */
  lemma {:induction false} SortByPermutation<T>(s: seq<T>, le: (T, T) -> bool)
    ensures multiset(SortBy(s, le)) == multiset(s)
  {
    if s != [] {
      SortByPermutation(s[1..], le);
      InsertPermutation(s[0], SortBy(s[1..], le), le);
      assert s == [s[0]] + s[1..];
    }
  }

  /** A property every row has survives `OrderBy`. */
  lemma SortByAll<T>(s: seq<T>, le: (T, T) -> bool, p: T -> bool)
    requires forall i :: 0 <= i < |s| ==> p(s[i])
    ensures forall i :: 0 <= i < |SortBy(s, le)| ==> p(SortBy(s, le)[i])
  {
    var r := SortBy(s, le);
    SortByPermutation(s, le);
    forall i | 0 <= i < |r| ensures p(r[i]) {
      assert r[i] in multiset(s);
      var j :| 0 <= j < |s| && s[j] == r[i];
    }
  }

  lemma {:induction false} InsertSorted<T(!new)>(x: T, s: seq<T>, le: (T, T) -> bool)
    requires TotalPreorder(le)
    requires SortedBy(s, le)
    ensures SortedBy(Insert(x, s, le), le)
  {
    if s != [] && !le(x, s[0]) {
      var t := s[1..];
      InsertSorted(x, t, le);
      InsertPermutation(x, t, le);
      var r := Insert(x, t, le);
      assert le(s[0], x);
      forall k | 0 <= k < |r| ensures le(s[0], r[k]) {
        assert r[k] in multiset(r);
        assert r[k] in multiset(t) + multiset{x};
        if r[k] != x {
          assert r[k] in t;
        }
      }
    }
  }

  /** `OrderBy` produces a list ordered by its key. */
  lemma {:induction false} SortBySorted<T(!new)>(s: seq<T>, le: (T, T) -> bool)
    requires TotalPreorder(le)
    ensures SortedBy(SortBy(s, le), le)
  {
    if s != [] {
      SortBySorted(s[1..], le);
      InsertSorted(s[0], SortBy(s[1..], le), le);
    }
  }

  /** A page cut from an ordered list is itself ordered. */
  lemma SliceSorted<T>(s: seq<T>, offset: int, take: int, le: (T, T) -> bool)
    requires SortedBy(s, le)
    ensures SortedBy(Slice(s, offset, take), le)
  {
  }

  /** A property every row of the ordered list has, every row of a window has. */
  lemma SliceAll<T>(s: seq<T>, offset: int, take: int, p: T -> bool)
    requires forall i :: 0 <= i < |s| ==> p(s[i])
    ensures forall i :: 0 <= i < |Slice(s, offset, take)| ==> p(Slice(s, offset, take)[i])
  {
  }

  /** A window of a list whose rows have pairwise different keys has pairwise
      different keys too. */
  lemma SliceDistinct<T>(s: seq<T>, offset: int, take: int, key: T -> int)
    requires forall i, j :: 0 <= i < j < |s| ==> key(s[i]) != key(s[j])
    ensures forall i, j :: 0 <= i < j < |Slice(s, offset, take)| ==>
              key(Slice(s, offset, take)[i]) != key(Slice(s, offset, take)[j])
  {
    var r := Slice(s, offset, take);
    forall i, j | 0 <= i < j < |r| ensures key(r[i]) != key(r[j]) {
      assert r[i] == s[Max(0, offset) + i] && r[j] == s[Max(0, offset) + j];
    }
  }

  /** The keys of `m` below the identity counter `next`, in increasing order
      (the order the identity column hands them out). */
  function KeysUpTo<T>(m: map<int, T>, next: int): (ks: seq<int>)
    ensures forall i :: 0 <= i < |ks| ==> ks[i] in m && 1 <= ks[i] < next
    ensures forall i, j :: 0 <= i < j < |ks| ==> ks[i] < ks[j]
    decreases next
  {
    if next <= 1 then [] else KeysUpTo(m, next - 1) + (if next - 1 in m then [next - 1] else [])
  }

  /** Every key below the counter is listed. */
  lemma {:induction false} KeysUpToComplete<T>(m: map<int, T>, next: int, k: int)
    requires k in m && 1 <= k < next
    ensures k in KeysUpTo(m, next)
    decreases next
  {
    if k < next - 1 {
      KeysUpToComplete(m, next - 1, k);
    } else {
      assert KeysUpTo(m, next)[|KeysUpTo(m, next)| - 1] == k;
    }
  }

  /** The rows of the table in key order. */
  function RowsUpTo<T>(m: map<int, T>, next: int): (r: seq<T>)
    ensures |r| == |KeysUpTo(m, next)|
    ensures forall i :: 0 <= i < |r| ==> r[i] == m[KeysUpTo(m, next)[i]]
  {
    var ks := KeysUpTo(m, next);
    seq(|ks|, i requires 0 <= i < |ks| => m[ks[i]])
  }

  /** Keys of `m` below `next`. */
  ghost function KeysBelow<T>(m: map<int, T>, next: int): set<int> {
    set k | k in m && 1 <= k < next
  }

  /** Raising the counter by one adds at most the key just below it. */
  lemma KeysBelowStep<T>(m: map<int, T>, next: int)
    requires next > 1
    ensures next - 1 !in KeysBelow(m, next - 1)
    ensures KeysBelow(m, next) == KeysBelow(m, next - 1) + (if next - 1 in m then {next - 1} else {})
  {
  }

  /** One row per key: the list is as long as the table has keys in range. */
  lemma {:induction false} KeysUpToCount<T>(m: map<int, T>, next: int)
    ensures |KeysUpTo(m, next)| == |KeysBelow(m, next)|
    decreases next
  {
    if next <= 1 {
      assert KeysBelow(m, next) == {};
    } else {
      KeysUpToCount(m, next - 1);
      KeysBelowStep(m, next);
      assert |KeysUpTo(m, next)| == |KeysUpTo(m, next - 1)| + (if next - 1 in m then 1 else 0);
    }
  }

  /** When every key lies in [1, next), the list has exactly one row per table entry. */
  lemma RowsUpToAll<T>(m: map<int, T>, next: int)
    requires forall k :: k in m ==> 1 <= k < next
    ensures |RowsUpTo(m, next)| == |m|
  {
    KeysUpToCount(m, next);
    assert KeysBelow(m, next) == m.Keys;
  }

  lemma RowsUpToStep<T>(m: map<int, T>, next: int)
    requires next > 1
    ensures RowsUpTo(m, next) == RowsUpTo(m, next - 1) + (if next - 1 in m then [m[next - 1]] else [])
  {
  }

  /** Keys below `next` whose row satisfies `p`. */
  ghost function KeysWhere<T>(m: map<int, T>, next: int, p: T -> bool): set<int> {
    set k | k in m && 1 <= k < next && p(m[k])
  }

  /** Adding the row at key `next - 1` adds that key to the matching keys exactly when it matches. */
  lemma KeysWhereStep<T>(m: map<int, T>, next: int, p: T -> bool)
    requires next > 1
    ensures |KeysWhere(m, next, p)| == |KeysWhere(m, next - 1, p)| + (if next - 1 in m && p(m[next - 1]) then 1 else 0)
  {
    var now, before := KeysWhere(m, next, p), KeysWhere(m, next - 1, p);
    if next - 1 in m && p(m[next - 1]) {
      assert now == before + {next - 1};
    } else {
      assert now == before;
    }
  }

  /** `Where(p).Count()` over the table counts exactly the entries whose row satisfies `p`. */
  lemma {:induction false} FilterRowsCount<T>(m: map<int, T>, next: int, p: T -> bool)
    ensures |Filter(RowsUpTo(m, next), p)| == |KeysWhere(m, next, p)|
    decreases next
  {
    if next <= 1 {
      assert KeysWhere(m, next, p) == {};
    } else {
      FilterRowsCount(m, next - 1, p);
      RowsUpToStep(m, next);
      var last := if next - 1 in m then [m[next - 1]] else [];
      FilterAppend(RowsUpTo(m, next - 1), last, p);
      KeysWhereStep(m, next, p);
      assert |Filter(last, p)| == if next - 1 in m && p(m[next - 1]) then 1 else 0;
    }
  }

  /** With every key below the counter, `Where(p).Count()` is the number of entries satisfying `p`. */
  lemma FilterRowsCountAll<T>(m: map<int, T>, next: int, p: T -> bool)
    requires forall k :: k in m ==> 1 <= k < next
    ensures |Filter(RowsUpTo(m, next), p)| == |set k | k in m && p(m[k])|
  {
    FilterRowsCount(m, next, p);
    assert KeysWhere(m, next, p) == set k | k in m && p(m[k]);
  }

  /** Every row of the table with a key below the counter appears in the key-ordered list. */
  lemma RowsUpToContains<T>(m: map<int, T>, next: int, k: int)
    requires k in m && 1 <= k < next
    ensures exists i :: 0 <= i < |RowsUpTo(m, next)| && KeysUpTo(m, next)[i] == k
    ensures m[k] in RowsUpTo(m, next)
  {
    KeysUpToComplete(m, next, k);
    var ks := KeysUpTo(m, next);
    var i :| 0 <= i < |ks| && ks[i] == k;
    assert RowsUpTo(m, next)[i] == m[k];
  }

  /** `FirstOrDefault(p)`: the first row satisfying `p`, if any. */
  function First<T>(s: seq<T>, p: T -> bool): (r: Option<T>)
    ensures r.Some? ==> p(r.value) && r.value in s
    ensures r.None? <==> forall i :: 0 <= i < |s| ==> !p(s[i])
  {
    if s == [] then None
    else if p(s[0]) then Some(s[0])
    else First(s[1..], p)
  }

  /** `FirstOrDefault(p)` over a table: it finds a row exactly when some entry satisfies `p`,
      and the row it finds is an entry of the table. */
  lemma FirstOfRows<T>(m: map<int, T>, next: int, p: T -> bool)
    requires forall k :: k in m ==> 1 <= k < next
    ensures First(RowsUpTo(m, next), p).None? <==> forall k :: k in m ==> !p(m[k])
    ensures First(RowsUpTo(m, next), p).Some? ==>
              exists k :: k in m && m[k] == First(RowsUpTo(m, next), p).value
  {
    var rows := RowsUpTo(m, next);
    var ks := KeysUpTo(m, next);
    forall k | k in m && p(m[k]) ensures First(rows, p).Some? {
      RowsUpToContains(m, next, k);
    }
    if First(rows, p).Some? {
      var i :| 0 <= i < |rows| && rows[i] == First(rows, p).value;
      assert ks[i] in m && m[ks[i]] == First(rows, p).value;
    }
  }

  /** A row of the key-ordered list is the entry stored under some key. */
  lemma RowIsEntry<T>(m: map<int, T>, next: int, x: T)
    requires x in RowsUpTo(m, next)
    ensures exists k :: k in m && m[k] == x
  {
    var rows := RowsUpTo(m, next);
    var i :| 0 <= i < |rows| && rows[i] == x;
    assert m[KeysUpTo(m, next)[i]] == x;
  }

  /** A row that `OrderBy` then `Skip`/`Take` put on a page was a row of the input. */
  lemma PagedRowIsInput<T>(s: seq<T>, le: (T, T) -> bool, offset: int, take: int, x: T)
    requires x in Slice(SortBy(s, le), offset, take)
    ensures x in s
  {
    SliceSubset(SortBy(s, le), offset, take);
    SortByPermutation(s, le);
    assert x in multiset(SortBy(s, le));
  }

  /** No row occurs twice. */
  ghost predicate Distinct<T>(s: seq<T>) {
    forall i, j :: 0 <= i < j < |s| ==> s[i] != s[j]
  }

  /** In a list without repeats every row occurs at most once. */
  lemma {:induction false} DistinctOccursOnce<T>(s: seq<T>, x: T)
    requires Distinct(s)
    ensures multiset(s)[x] <= 1
  {
    if s != [] {
      assert s == [s[0]] + s[1..];
      assert Distinct(s[1..]) by {
        forall i, j | 0 <= i < j < |s[1..]| ensures s[1..][i] != s[1..][j] {
          assert s[1..][i] == s[i + 1] && s[1..][j] == s[j + 1];
        }
      }
      DistinctOccursOnce(s[1..], x);
      if s[0] == x {
        assert x !in s[1..];
      }
    }
  }

  /** A row found at two positions occurs at least twice. */
  lemma RepeatOccursTwice<T>(t: seq<T>, i: int, j: int)
    requires 0 <= i < j < |t| && t[i] == t[j]
    ensures multiset(t)[t[i]] >= 2
  {
    assert t == t[..i] + [t[i]] + t[i + 1..j] + [t[j]] + t[j + 1..];
  }

  /** Reordering a list without repeats leaves it without repeats. */
  lemma PermutationDistinct<T>(s: seq<T>, t: seq<T>)
    requires multiset(s) == multiset(t) && Distinct(s)
    ensures Distinct(t)
  {
    forall i, j | 0 <= i < j < |t| ensures t[i] != t[j] {
      DistinctOccursOnce(s, t[i]);
      if t[i] == t[j] {
        RepeatOccursTwice(t, i, j);
      }
    }
  }

  /** `Where` keeps a list without repeats free of repeats. */
  lemma {:induction false} FilterDistinct<T>(s: seq<T>, p: T -> bool)
    requires Distinct(s)
    ensures Distinct(Filter(s, p))
  {
    if s != [] {
      var t := s[1..];
      assert Distinct(t) by {
        forall i, j | 0 <= i < j < |t| ensures t[i] != t[j] {
          assert t[i] == s[i + 1] && t[j] == s[j + 1];
        }
      }
      FilterDistinct(t, p);
      if p(s[0]) {
        var r := Filter(t, p);
        forall k | 0 <= k < |r| ensures r[k] != s[0] {
          var m :| 0 <= m < |t| && t[m] == r[k];
          assert s[m + 1] == r[k];
        }
      }
    }
  }

  /** A table enumerated in key order lists no row twice when each row
      carries its own key. */
  lemma RowsUpToDistinct<T>(m: map<int, T>, next: int, key: T -> int)
    requires forall k :: k in m ==> key(m[k]) == k
    ensures Distinct(RowsUpTo(m, next))
  {
    var ks, rows := KeysUpTo(m, next), RowsUpTo(m, next);
    forall i, j | 0 <= i < j < |rows| ensures rows[i] != rows[j] {
      assert key(rows[i]) == ks[i] && key(rows[j]) == ks[j];
    }
  }

  /** Positions below `n` whose row satisfies `p`. */
  ghost function IndicesWhere<T>(s: seq<T>, n: nat, p: T -> bool): set<int>
    requires n <= |s|
  {
    set i | 0 <= i < n && p(s[i])
  }

  /** One more position adds at most that position. */
  lemma IndicesWhereStep<T>(s: seq<T>, n: nat, p: T -> bool)
    requires 0 < n <= |s|
    ensures n - 1 !in IndicesWhere(s, n - 1, p)
    ensures IndicesWhere(s, n, p) == IndicesWhere(s, n - 1, p) + (if p(s[n - 1]) then {n - 1} else {})
  {
  }

  /** `Where(p).Count()` over a list counts the positions whose row satisfies `p`. */
  lemma {:induction false} FilterCount<T>(s: seq<T>, n: nat, p: T -> bool)
    requires n <= |s|
    ensures |Filter(s[..n], p)| == |IndicesWhere(s, n, p)|
  {
    if n == 0 {
      assert IndicesWhere(s, n, p) == {};
    } else {
      FilterCount(s, n - 1, p);
      assert s[..n] == s[..n - 1] + [s[n - 1]];
      FilterAppend(s[..n - 1], [s[n - 1]], p);
      IndicesWhereStep(s, n, p);
      assert Filter([s[n - 1]], p) == if p(s[n - 1]) then [s[n - 1]] else [];
    }
  }
}
