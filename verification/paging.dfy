/** Spring Data paging as the services use it: `PageRequest.of(page, size)`
    followed by "sort, then take the slice for that page index". */
module Paging {
  import opened Prelude
  import opened Strings
  import opened Seqs

  /** A page request that `PageRequest.of` accepted. */
  datatype PageSpec = PageSpec(index: nat, size: nat)

  /** `PageRequest.of(page, size)`: throws `IllegalArgumentException` for a
      negative page index or a size below one. */
  function PageRequestOf(page: int, size: int): (r: Option<PageSpec>)
    ensures r.Some? <==> 0 <= page && 1 <= size
    ensures r.Some? ==> r.value.index == page && r.value.size == size
  {
    if page < 0 || size < 1 then None else Some(PageSpec(page, size))
  }

  /** The query offset of a page: Spring Data JPA 3 hands it to the JPA query
      as an `int`, and refuses one beyond `Integer.MAX_VALUE` with
      `InvalidDataAccessApiUsageException` before running the query. */
  predicate OffsetFits(spec: PageSpec) {
    spec.index * spec.size <= 0x7fff_ffff
  }

  /** The records on page `index` (0-based) of `s` when pages hold `size` records. */
  function Page<T>(s: seq<T>, index: nat, size: nat): (r: seq<T>)
    requires size > 0
    ensures |r| <= size
    ensures forall k :: 0 <= k < |r| ==> index * size + k < |s| && r[k] == s[index * size + k]
    ensures index * size < |s| ==> |r| == if |s| - index * size < size then |s| - index * size else size
    ensures index * size >= |s| ==> r == []
  {
    var start := index * size;
    if start >= |s| then []
    else if start + size <= |s| then s[start .. start + size]
    else s[start ..]
  }

  /** Pages partition the sorted result: record `i` is entry `i % size` of page `i / size`. */
  lemma {:induction false} EveryRecordOnItsPage<T>(s: seq<T>, size: nat, i: nat)
    requires size > 0 && i < |s|
    ensures i % size < |Page(s, i / size, size)|
    ensures Page(s, i / size, size)[i % size] == s[i]
  {
    var q, m := i / size, i % size;
    assert q * size + m == i;
    assert q * size <= i;
    assert m < size;
  }

  /** In a list an `int` can count, the page that holds position `i` has an
      `int` page number counted from 1, and an offset that fits an `int`. */
  lemma PageOfPosition(i: nat, size: nat, n: nat)
    requires size > 0 && i < n <= 0x7fff_ffff
    ensures 1 <= i / size + 1 <= 0x7fff_ffff
    ensures OffsetFits(PageSpec(i / size, size))
  {
    var q, m := i / size, i % size;
    assert q * size + m == i && 0 <= m;
    MultiplyByPositive(q, size);
  }

  lemma MultiplyByPositive(a: nat, b: nat)
    requires b > 0
    ensures a * b >= a
  {
    assert a * b == a * (b - 1) + a;
  }

  /** A page of an ordered list is ordered and holds only records of the list. */
  lemma PageOfSorted<T(!new)>(s: seq<T>, index: nat, size: nat, key: T -> string)
    requires size > 0 && SortedBy(s, key)
    ensures SortedBy(Page(s, index, size), key)
    ensures forall x :: x in Page(s, index, size) ==> x in s
  {
    var r := Page(s, index, size);
    var start := index * size;
    forall i, j | 0 <= i < j < |r|
      ensures LessEq(key(r[i]), key(r[j]))
    {
      assert r[i] == s[start + i] && r[j] == s[start + j];
    }
    forall x | x in r
      ensures x in s
    {
      var k :| 0 <= k < |r| && r[k] == x;
      assert s[start + k] == x;
    }
  }
}
