/** Cursor pagination. */
module Pagination {
  import opened Text

  const MAX_PAGE_SIZE: nat := 10_000

  datatype PaginationMode = Default | Callers | Callees | DefUse

  datatype CursorData = CursorData(mode: PaginationMode, offset: nat)

  /** Cursor strings: base64 (section 4 of RFC 4648) over JSON, both taken as given. */
  datatype CursorCodec = CursorCodec(encode: CursorData -> string, decode: string -> Option<CursorData>)

  ghost predicate Lawful(c: CursorCodec) {
    forall d :: c.decode(c.encode(d)) == Some(d)
  }

  datatype Page<T> = Page(items: seq<T>, nextCursor: Option<string>, total: nat)

  function Min(a: nat, b: nat): nat {
    if a < b then a else b
  }

  /** `paginate_slice`; nothing stands for the error on a page size of zero. Any offset is accepted. */
  function PaginateSlice<T>(c: CursorCodec, items: seq<T>, offset: nat, pageSize: nat, mode: PaginationMode):
    (r: Option<Page<T>>)
    ensures r.None? <==> pageSize == 0
  {
    if pageSize == 0 then None
    else if offset >= |items| then Some(Page([], None, |items|))
    else
      var end := Min(offset + Min(pageSize, MAX_PAGE_SIZE), |items|);
      Some(Page(items[offset..end], if end < |items| then Some(c.encode(CursorData(mode, end))) else None, |items|))
  }

  /** A client that decodes each cursor and asks for the next page. */
  ghost function Walk<T>(c: CursorCodec, items: seq<T>, at: CursorData, pageSize: nat): seq<Page<T>>
    requires Lawful(c) && pageSize >= 1
    decreases |items| - at.offset
  {
    var page := PaginateSlice(c, items, at.offset, pageSize, at.mode).value;
    if page.nextCursor.None? then [page]
    else [page] + Walk(c, items, c.decode(page.nextCursor.value).value, pageSize)
  }

  function Flatten<T>(pages: seq<Page<T>>): seq<T> {
    if pages == [] then [] else pages[0].items + Flatten(pages[1..])
  }

  /** `k` is the number of items divided by the page size, rounded up; one page for no items. */
  predicate IsPageCount(k: nat, n: nat, size: nat) {
    if n == 0 then k == 1 else (k - 1) * size < n <= k * size
  }

  lemma OneMorePage(k: nat, n: nat, size: nat)
    requires 1 <= size < n && IsPageCount(k, n - size, size)
    ensures IsPageCount(k + 1, n, size)
  {
    assert (k - 1) * size == k * size - size;
    assert (k + 1) * size == k * size + size;
  }

  /** Page `k` of a walk from `start`: bounded, with the true total, and a cursor, on every page but the
      last, that carries the mode and points just past what has been read. */
  ghost predicate PageOk<T>(c: CursorCodec, pages: seq<Page<T>>, k: nat, at: CursorData, size: nat, total: nat)
    requires k < |pages|
  {
    var page := pages[k];
    && |page.items| <= MAX_PAGE_SIZE && page.total == total
    && (page.nextCursor.Some? <==> k < |pages| - 1)
    && (page.nextCursor.Some? ==>
          c.decode(page.nextCursor.value) == Some(CursorData(at.mode, at.offset + (k + 1) * size)))
  }

  lemma PageShift<T>(c: CursorCodec, page: Page<T>, rest: seq<Page<T>>, k: nat, at: CursorData, size: nat, total: nat)
    requires k < |rest| && PageOk(c, rest, k, CursorData(at.mode, at.offset + size), size, total)
    ensures PageOk(c, [page] + rest, k + 1, at, size, total)
  {
    assert (k + 2) * size == size + (k + 1) * size;
    assert ([page] + rest)[k + 1] == rest[k];
  }

  /** From any offset, past the end or not, the walk delivers exactly the remaining items, in order and
      once, in the number of pages that their count requires; every cursor on the way carries the mode of the first request and
      the offset of the next item. */
  lemma {:induction false} WalkFrom<T>(c: CursorCodec, items: seq<T>, at: CursorData, pageSize: nat)
    requires Lawful(c) && pageSize >= 1
    ensures var pages, size, from := Walk(c, items, at, pageSize), Min(pageSize, MAX_PAGE_SIZE), Min(at.offset, |items|);
      && Flatten(pages) == items[from..]
      && IsPageCount(|pages|, |items| - from, size)
      && forall k :: 0 <= k < |pages| ==> PageOk(c, pages, k, at, size, |items|)
    decreases |items| - at.offset
  {
    hide IsPageCount, PageOk;
    var size := Min(pageSize, MAX_PAGE_SIZE);
    var left := |items| - at.offset;
    var page := PaginateSlice(c, items, at.offset, pageSize, at.mode).value;
    if at.offset > |items| {
      PastTheEnd(c, items, at, pageSize);
      assert Flatten([page]) == page.items + [];
    } else if left <= size {
      OnePage(c, items, at, pageSize);
      assert Flatten([page]) == page.items + [];
    } else {
      var next := CursorData(at.mode, at.offset + size);
      assert c.decode(page.nextCursor.value) == Some(next);
      WalkFrom(c, items, next, pageSize);
      assert items[at.offset..] == page.items + items[next.offset..];
      var rest := Walk(c, items, next, pageSize);
      var pages := [page] + rest;
      OneMorePage(|rest|, left, size);
      FirstPage(c, items, at, pageSize, rest);
      forall k | 0 <= k < |pages| ensures PageOk(c, pages, k, at, size, |items|) {
        if k > 0 {
          PageShift(c, page, rest, k - 1, at, size, |items|);
        }
      }
    }
  }

  lemma PastTheEnd<T>(c: CursorCodec, items: seq<T>, at: CursorData, pageSize: nat)
    requires pageSize >= 1 && at.offset > |items|
    ensures var page := PaginateSlice(c, items, at.offset, pageSize, at.mode).value;
      && page.nextCursor == None && page.items == []
      && PageOk(c, [page], 0, at, Min(pageSize, MAX_PAGE_SIZE), |items|)
      && IsPageCount(1, 0, Min(pageSize, MAX_PAGE_SIZE))
  {
  }

  lemma OnePage<T>(c: CursorCodec, items: seq<T>, at: CursorData, pageSize: nat)
    requires pageSize >= 1 && at.offset <= |items| && |items| - at.offset <= Min(pageSize, MAX_PAGE_SIZE)
    ensures var page := PaginateSlice(c, items, at.offset, pageSize, at.mode).value;
      && page.nextCursor == None && page.items == items[at.offset..]
      && PageOk(c, [page], 0, at, Min(pageSize, MAX_PAGE_SIZE), |items|)
      && IsPageCount(1, |items| - at.offset, Min(pageSize, MAX_PAGE_SIZE))
  {
  }

  lemma FirstPage<T>(c: CursorCodec, items: seq<T>, at: CursorData, pageSize: nat, rest: seq<Page<T>>)
    requires Lawful(c) && pageSize >= 1 && rest != [] && |items| - at.offset > Min(pageSize, MAX_PAGE_SIZE)
    ensures var page := PaginateSlice(c, items, at.offset, pageSize, at.mode).value;
      PageOk(c, [page] + rest, 0, at, Min(pageSize, MAX_PAGE_SIZE), |items|)
  {
  }

  /** Following the cursors from the start reads the whole list exactly once. */
  lemma WalkReadsEverything<T>(c: CursorCodec, items: seq<T>, mode: PaginationMode, pageSize: nat)
    requires Lawful(c) && pageSize >= 1
    ensures var pages := Walk(c, items, CursorData(mode, 0), pageSize);
      && Flatten(pages) == items
      && IsPageCount(|pages|, |items|, Min(pageSize, MAX_PAGE_SIZE))
  {
    hide Walk, Flatten, IsPageCount, PageOk;
    WalkFrom(c, items, CursorData(mode, 0), pageSize);
    assert items[0..] == items;
  }

  /** One page by itself, for any offset: the items at the requested places that exist, at most 10,000; the
      total; and a cursor, which leads to the next item, exactly when something is left. Only a page size
      of zero is refused. */
  lemma PageExact<T>(c: CursorCodec, items: seq<T>, offset: nat, pageSize: nat, mode: PaginationMode)
    requires Lawful(c)
    ensures var r := PaginateSlice(c, items, offset, pageSize, mode);
      && (r.None? <==> pageSize == 0)
      && (r.Some? ==>
            var page := r.value; var size := if pageSize < 10_000 then pageSize else 10_000;
            && page.total == |items|
            && |page.items| == (if offset >= |items| then 0 else if offset + size < |items| then size else |items| - offset)
            && (forall i :: 0 <= i < |page.items| ==> page.items[i] == items[offset + i])
            && (page.nextCursor.Some? <==> offset + size < |items|)
            && (page.nextCursor.Some? ==> c.decode(page.nextCursor.value) == Some(CursorData(mode, offset + size))))
  {
  }
}
