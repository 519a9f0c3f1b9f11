/**
  * The paging contract the listing relies on. The repository hands the
  * predicate and a `PageRequest` to the store; this module states what that
  * call is assumed to return: the matching records in the store's own order,
  * cut into pages of `size` records, page `number` starting at `number * size`.
  */
module Paging {
  import opened Articles
  import opened Query

  /** Bounds the request layer enforces on the page index and the page size. */
  const MinPageIndex := 0
  const MaxPageIndex := 99
  const MinPageSize := 1
  const MaxPageSize := 99

  /** Values the request layer uses when a parameter is missing. */
  const DefaultPageIndex := 0
  const DefaultPageSize := 10

  predicate ValidPageRequest(number: int, size: int) {
    MinPageIndex <= number <= MaxPageIndex && MinPageSize <= size <= MaxPageSize
  }

  /** One page of results with the count metadata it is reported with. */
  datatype Page = Page(content: seq<Record>, number: nat, size: nat, totalElements: nat, totalPages: nat)

  /** The records of `store` that `keep` accepts, in store order. */
  function Filter(store: seq<Record>, keep: Record -> bool): (m: seq<Record>)
    ensures |m| <= |store|
    ensures forall r :: r in m <==> r in store && keep(r)
    decreases |store|
  {
    if store == [] then []
    else (if keep(store[0]) then [store[0]] else []) + Filter(store[1..], keep)
  }

  /** Filtering depends only on which records are accepted. */
  lemma {:induction false} FilterExtensional(store: seq<Record>, f: Record -> bool, g: Record -> bool)
    requires forall r :: f(r) == g(r)
    ensures Filter(store, f) == Filter(store, g)
    decreases |store|
  {
    if store != [] {
      FilterExtensional(store[1..], f, g);
    }
  }

  /** A filter that accepts every record returns the whole store. */
  lemma {:induction false} FilterKeepsAll(store: seq<Record>, keep: Record -> bool)
    requires forall r :: keep(r)
    ensures Filter(store, keep) == store
    decreases |store|
  {
    if store != [] {
      FilterKeepsAll(store[1..], keep);
      assert store == [store[0]] + store[1..];
    }
  }

  /** A filter that accepts no record of the store returns nothing. */
  lemma {:induction false} FilterKeepsNone(store: seq<Record>, keep: Record -> bool)
    requires forall i :: 0 <= i < |store| ==> !keep(store[i])
    ensures Filter(store, keep) == []
    decreases |store|
  {
    if store != [] {
      FilterKeepsNone(store[1..], keep);
    }
  }

  /** A filter that accepts exactly the record at position `j` returns that record alone. */
  lemma FilterKeepsOne(store: seq<Record>, keep: Record -> bool, j: nat)
    requires j < |store|
    requires forall i :: 0 <= i < |store| ==> (keep(store[i]) <==> i == j)
    ensures Filter(store, keep) == [store[j]]
  {
    var before, after := store[..j], store[j + 1..];
    assert store == before + [store[j]] + after;
    assert Filter(before, keep) == [] by {
      assert forall i :: 0 <= i < |before| ==> before[i] == store[i];
      FilterKeepsNone(before, keep);
    }
    assert Filter(after, keep) == [] by {
      assert forall i :: 0 <= i < |after| ==> after[i] == store[j + 1 + i];
      FilterKeepsNone(after, keep);
    }
    assert Filter([store[j]], keep) == [store[j]] by {
      assert [store[j]][1..] == [];
    }
    FilterAppend(before + [store[j]], after, keep);
    FilterAppend(before, [store[j]], keep);
  }

  /** Filtering a concatenation filters each part. */
  lemma {:induction false} FilterAppend(a: seq<Record>, b: seq<Record>, keep: Record -> bool)
    ensures Filter(a + b, keep) == Filter(a, keep) + Filter(b, keep)
    decreases |a|
  {
    if a == [] {
      assert a + b == b;
    } else {
      assert (a + b)[0] == a[0] && (a + b)[1..] == a[1..] + b;
      FilterAppend(a[1..], b, keep);
    }
  }

  /** The number of pages needed for `n` records, `size` per page: the ceiling of `n / size`. */
  function PageCount(n: nat, size: nat): (q: nat)
    requires size >= 1
    ensures q * size >= n
    ensures q * size < n + size
  {
    (n + size - 1) / size
  }

  function Min(a: int, b: int): int {
    if a <= b then a else b
  }

  /** Page `number` of `matched`, `size` records per page. */
  function PageOf(matched: seq<Record>, number: nat, size: nat): (pg: Page)
    requires size >= 1
    ensures pg.number == number && pg.size == size && pg.totalElements == |matched|
    ensures pg.totalPages == PageCount(|matched|, size)
    ensures |pg.content| <= size
    ensures number * size <= |matched| ==> |pg.content| == Min(size, |matched| - number * size)
    ensures number * size >= |matched| ==> pg.content == []
    ensures forall i :: 0 <= i < |pg.content| ==> pg.content[i] == matched[number * size + i]
  {
    var start := number * size;
    var content := if start >= |matched| then [] else matched[start..Min(|matched|, start + size)];
    Page(content, number, size, |matched|, PageCount(|matched|, size))
  }

  /** A page index at or past the page count yields an empty page, not an error. */
  lemma PastLastPageIsEmpty(matched: seq<Record>, number: nat, size: nat)
    requires size >= 1
    requires number >= PageCount(|matched|, size)
    ensures PageOf(matched, number, size).content == []
  {
    var q := PageCount(|matched|, size);
    assert number * size >= q * size by {
      MultiplyMonotone(q, number, size);
    }
  }

  /** Every page before the last holds exactly `size` records. */
  lemma PagesBeforeLastAreFull(matched: seq<Record>, number: nat, size: nat)
    requires size >= 1
    requires number + 1 < PageCount(|matched|, size)
    ensures |PageOf(matched, number, size).content| == size
  {
    var q := PageCount(|matched|, size);
    assert (number + 2) * size <= q * size by {
      MultiplyMonotone(number + 2, q, size);
    }
  }

  /** Record `i` of the matches is record `i % size` of page `i / size`: the pages cover all matches in order. */
  lemma PagesCoverMatches(matched: seq<Record>, size: nat, i: nat)
    requires size >= 1
    requires i < |matched|
    ensures i / size < PageCount(|matched|, size)
    ensures i % size < |PageOf(matched, i / size, size).content|
    ensures PageOf(matched, i / size, size).content[i % size] == matched[i]
  {
    var number, offset := i / size, i % size;
    assert i == number * size + offset;
    if number >= PageCount(|matched|, size) {
      PastLastPageIsEmpty(matched, number, size);
    }
  }

  lemma MultiplyMonotone(a: nat, b: nat, size: nat)
    requires a <= b
    ensures a * size <= b * size
  {
  }

  /**
    * `findAll(predicate, PageRequest.of(number, size))`: the page of the
    * store's records that satisfy the predicate.
    */
  function FindAll(store: seq<Record>, p: Predicate, number: int, size: int): (pg: Page)
    requires ValidPageRequest(number, size)
    ensures forall r :: r in pg.content ==> r in store && Eval(p, r)
    ensures pg.totalElements == |Filter(store, r => Eval(p, r))|
    ensures |pg.content| <= size
  {
    var matched := Filter(store, r => Eval(p, r));
    var pg := PageOf(matched, number, size);
    assert forall r :: r in pg.content ==> r in matched;
    pg
  }

  /** The example of 25 matches in pages of 10: page 2 has 5 records, there are 3 pages, page 3 is empty. */
  lemma TwentyFiveInPagesOfTen(matched: seq<Record>)
    requires |matched| == 25
    ensures |PageOf(matched, 2, 10).content| == 5
    ensures PageOf(matched, 2, 10).totalPages == 3
    ensures PageOf(matched, 3, 10).content == []
  {
  }
}
