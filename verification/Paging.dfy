/** Discovery pages: a list cut into pages of one size, of which exactly the last is complete. */
module Paging {
  import opened Wrappers

  /** Every page carries the cursor at which the whole scan ends. */
  datatype Page<+T> = Page(items: seq<T>, nextCursor: string, complete: bool)

  const DEFAULT_PAGE_SIZE := 100
  const MAXIMUM_PAGE_SIZE := 1_000

  /** `pageSize`; `None` is the thrown error. */
  function PageSize(requested: Option<int>): (size: Option<nat>)
    ensures size.Some? ==> 1 <= size.value <= MAXIMUM_PAGE_SIZE
  {
    if requested.None? then Some(DEFAULT_PAGE_SIZE)
    else if 1 <= requested.value <= MAXIMUM_PAGE_SIZE then Some(requested.value)
    else None
  }

  function Items<T>(pages: seq<Page<T>>): seq<T> {
    if pages == [] then [] else Items(pages[..|pages| - 1]) + pages[|pages| - 1].items
  }

  /** A complete page is the last one. */
  predicate CompletesOnlyAtEnd<T>(pages: seq<Page<T>>) {
    forall i | 0 <= i < |pages| :: pages[i].complete <==> i == |pages| - 1
  }

  /** Every page but the last is full; only an empty list has an empty page. */
  predicate Filled<T>(pages: seq<Page<T>>, size: nat) {
    && (forall i | 0 <= i < |pages| - 1 :: |pages[i].items| == size)
    && (forall i | 0 <= i < |pages| :: |pages[i].items| <= size && (pages[i].items == [] ==> |pages| == 1))
  }

  /** What the generator yields for a list. */
  function Pages<T>(items: seq<T>, cursor: string, size: nat): seq<Page<T>>
    requires size >= 1
    decreases |items|
  {
    if |items| <= size then [Page(items, cursor, true)]
    else [Page(items[..size], cursor, false)] + Pages(items[size..], cursor, size)
  }

  lemma {:induction false} ItemsOfFirst<T>(page: Page<T>, pages: seq<Page<T>>)
    ensures Items([page] + pages) == page.items + Items(pages)
  {
    var all := [page] + pages;
    if pages == [] {
      assert all[..0] == [];
    } else {
      ItemsOfFirst(page, pages[..|pages| - 1]);
      assert all[..|all| - 1] == [page] + pages[..|pages| - 1];
    }
  }

  lemma OnePage<T>(page: Page<T>)
    ensures Items([page]) == page.items
  {
    assert [page][..0] == [];
    assert Items<T>([]) == [];
  }

  lemma {:induction false} PagesConcatenate<T>(items: seq<T>, cursor: string, size: nat)
    requires size >= 1
    ensures Items(Pages(items, cursor, size)) == items
    decreases |items|
  {
    hide Items;
    if |items| <= size {
      OnePage(Page(items, cursor, true));
    } else {
      PagesConcatenate(items[size..], cursor, size);
      ItemsOfFirst(Page(items[..size], cursor, false), Pages(items[size..], cursor, size));
      assert items == items[..size] + items[size..];
    }
  }

  lemma {:induction false} PagesShape<T>(items: seq<T>, cursor: string, size: nat)
    requires size >= 1
    ensures var pages := Pages(items, cursor, size);
      && pages != [] && CompletesOnlyAtEnd(pages) && Filled(pages, size)
      && (forall i | 0 <= i < |pages| :: pages[i].nextCursor == cursor)
    decreases |items|
  {
    if |items| > size {
      var pages, rest := Pages(items, cursor, size), Pages(items[size..], cursor, size);
      PagesShape(items[size..], cursor, size);
      assert forall i | 1 <= i < |pages| :: pages[i] == rest[i - 1];
      assert rest[0].items != [];
    }
  }

  /** The pages concatenate to the list, every page but the last is full, and exactly the last one is complete. */
  lemma PagesMeaning<T>(items: seq<T>, cursor: string, size: nat)
    requires size >= 1
    ensures var pages := Pages(items, cursor, size);
      && pages != [] && Items(pages) == items
      && CompletesOnlyAtEnd(pages) && Filled(pages, size)
      && (forall i | 0 <= i < |pages| :: pages[i].nextCursor == cursor)
  {
    PagesConcatenate(items, cursor, size);
    PagesShape(items, cursor, size);
  }

  /** So many pages of this size, of which there is at least one, hold so many items. */
  predicate Suffice(pages: nat, size: nat, items: nat) {
    pages >= 1 && pages * size >= items
  }

  lemma OnePageFewer(pages: nat, size: nat, items: nat)
    requires pages >= 1 && items > size
    ensures Suffice(pages, size, items) <==> Suffice(pages - 1, size, items - size)
  {
    assert pages * size == (pages - 1) * size + size;
    assert pages == 1 ==> (pages - 1) * size == 0;
  }

  /** No more pages than suffice. */
  lemma {:induction false} PagesCount<T>(items: seq<T>, cursor: string, size: nat, pages: nat)
    requires size >= 1
    ensures |Pages(items, cursor, size)| <= pages <==> Suffice(pages, size, |items|)
    decreases |items|
  {
    if |items| <= size {
      assert pages >= 1 ==> pages * size >= size;
    } else if pages >= 1 {
      hide Suffice;
      PagesCount(items[size..], cursor, size, pages - 1);
      OnePageFewer(pages, size, |items|);
    }
  }

  lemma PagesFrom<T>(items: seq<T>, cursor: string, size: nat, offset: nat)
    requires size >= 1 && offset < |items|
    ensures var end := if offset + size <= |items| then offset + size else |items|;
      Pages(items[offset..], cursor, size)
        == [Page(items[offset..end], cursor, offset + size >= |items|)]
          + (if offset + size >= |items| then [] else Pages(items[offset + size..], cursor, size))
  {
    var rest := items[offset..];
    if offset + size < |items| {
      assert rest[..size] == items[offset..offset + size];
      assert rest[size..] == items[offset + size..];
    } else {
      assert items[offset..|items|] == rest;
    }
  }

  /** The generator loop of `discover` and of `discoverDelta`. */
  method Discover<T>(items: seq<T>, cursor: string, size: nat) returns (pages: seq<Page<T>>)
    requires size >= 1
    ensures pages == Pages(items, cursor, size)
  {
    if |items| == 0 {
      return [Page([], cursor, true)];
    }
    hide Pages;
    pages := [];
    var offset := 0;
    ghost var left := Pages(items, cursor, size);
    assert items[0..] == items && pages + left == left;
    while offset < |items|
      invariant 0 <= offset
      invariant left == if offset < |items| then Pages(items[offset..], cursor, size) else []
      invariant pages + left == Pages(items, cursor, size)
      decreases |items| - offset
    {
      PagesFrom(items, cursor, size, offset);
      var end := if offset + size <= |items| then offset + size else |items|;
      var page := Page(items[offset..end], cursor, offset + size >= |items|);
      assert left == [page] + left[1..] && pages + left == (pages + [page]) + left[1..];
      left := left[1..];
      pages := pages + [page];
      offset := offset + size;
    }
    assert pages + [] == pages;
  }
}
