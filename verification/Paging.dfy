/** The scan for keys with a prefix, a page at a time, while others store and delete. */
module Paging {
  import opened Common
  import opened CertTable

  /** A page evaluates the next `size` of the keys against the table as it is when that page is read. */
  datatype PageRead = Page(size: nat, table: Table) | Failed

  datatype ScanError = RequestFailed

  /** `order` can be the key order of a scan that sees these tables: it lists, once each and in the order the table
      keeps them, all keys that are in the table at any time of interest. */
  ghost predicate ValidOrder(order: seq<string>, pages: seq<PageRead>) {
    && NoDuplicates(order)
    && forall i, k :: 0 <= i < |pages| && pages[i].Page? && k in pages[i].table ==> k in order
  }

  /** What a page answers: the keys it evaluated that are in the table and pass the filter. */
  function Filter(keys: seq<string>, table: Table, prefix: string): seq<string> {
    if keys == [] then []
    else (if keys[0] in table && prefix <= keys[0] then [keys[0]] else []) + Filter(keys[1..], table, prefix)
  }

  /** The scan from position `next` of the order on. A page that evaluates up to the very last key still says that
      there may be more; one that reaches past it is the last. Running out of pages is a request that failed. */
  function ScanFrom(order: seq<string>, prefix: string, pages: seq<PageRead>, next: nat): Result<seq<string>, ScanError>
    requires next <= |order|
  {
    if pages == [] || pages[0].Failed? then Err(RequestFailed)
    else if next + pages[0].size > |order| then Ok(Filter(order[next..], pages[0].table, prefix))
    else
      Prepend(Filter(order[next..next + pages[0].size], pages[0].table, prefix),
              ScanFrom(order, prefix, pages[1..], next + pages[0].size))
  }

  function Prepend(keys: seq<string>, r: Result<seq<string>, ScanError>): Result<seq<string>, ScanError> {
    match r
    case Ok(rest) => Ok(keys + rest)
    case Err(e) => Err(e)
  }

  lemma PrependTwice(a: seq<string>, b: seq<string>, r: Result<seq<string>, ScanError>)
    ensures Prepend(a, Prepend(b, r)) == Prepend(a + b, r)
    ensures Prepend([], r) == r
  {
    if r.Ok? {
      assert a + (b + r.value) == (a + b) + r.value;
      assert [] + r.value == r.value;
    }
  }

  function Scan(order: seq<string>, prefix: string, pages: seq<PageRead>): Result<seq<string>, ScanError> {
    ScanFrom(order, prefix, pages, 0)
  }

  /** The page that evaluates position `at` of the order, of pages that start at position `next`. */
  ghost function PageOf(pages: seq<PageRead>, next: nat, at: nat): (i: nat)
    requires next <= at
    ensures i <= |pages|
    decreases |pages|
  {
    if pages == [] || pages[0].Failed? || at < next + pages[0].size then 0
    else 1 + PageOf(pages[1..], next + pages[0].size, at)
  }

  /** Whether the key at position `at` of the order was in the table when its page was read. */
  ghost predicate SeenAt(order: seq<string>, pages: seq<PageRead>, next: nat, at: nat)
    requires next <= at < |order|
  {
    var i := PageOf(pages, next, at);
    i < |pages| && pages[i].Page? && order[at] in pages[i].table
  }

  lemma {:induction false} FilterSound(keys: seq<string>, table: Table, prefix: string)
    ensures forall k :: k in Filter(keys, table, prefix) ==> k in keys && k in table && prefix <= k
  {
    if keys != [] {
      FilterSound(keys[1..], table, prefix);
    }
  }

  lemma {:induction false} FilterExact(keys: seq<string>, table: Table, prefix: string)
    requires NoDuplicates(keys)
    ensures var r := Filter(keys, table, prefix);
            NoDuplicates(r) && forall k :: k in r <==> k in keys && k in table && prefix <= k
  {
    if keys != [] {
      FilterExact(keys[1..], table, prefix);
      var head := if keys[0] in table && prefix <= keys[0] then [keys[0]] else [];
      assert keys == [keys[0]] + keys[1..];
      forall k | k in head ensures k !in Filter(keys[1..], table, prefix) {
        assert k == keys[0];
        assert k !in keys[1..];
      }
      NoDuplicatesConcat(head, Filter(keys[1..], table, prefix));
    }
  }

  /** What one page contributes, by position. */
  lemma PageExact(order: seq<string>, prefix: string, table: Table, next: nat, end: nat)
    requires next <= end <= |order| && NoDuplicates(order)
    ensures var here := Filter(order[next..end], table, prefix);
            && NoDuplicates(here)
            && (forall k :: k in here ==> k in order[next..end])
            && forall at :: 0 <= at < |order| ==>
                 (order[at] in here <==> next <= at < end && order[at] in table && prefix <= order[at])
  {
    var page := order[next..end];
    FilterExact(page, table, prefix);
    forall at | 0 <= at < |order| ensures order[at] in page <==> next <= at < end {
      if next <= at < end {
        assert page[at - next] == order[at];
      }
    }
  }

  /** A scan that succeeds returns keys of the pages it read, each once. */
  lemma {:induction false} ScanFromOnce(order: seq<string>, prefix: string, pages: seq<PageRead>, next: nat)
    requires next <= |order| && NoDuplicates(order)
    requires ScanFrom(order, prefix, pages, next).Ok?
    ensures var keys := ScanFrom(order, prefix, pages, next).value;
            NoDuplicates(keys) && forall k :: k in keys ==> k in order[next..]
    decreases |pages|
  {
    var table, end := pages[0].table, next + pages[0].size;
    if end > |order| {
      PageExact(order, prefix, table, next, |order|);
      assert order[next..|order|] == order[next..];
    } else {
      var here, rest := Filter(order[next..end], table, prefix), ScanFrom(order, prefix, pages[1..], end).value;
      PageExact(order, prefix, table, next, end);
      ScanFromOnce(order, prefix, pages[1..], end);
      assert order[next..] == order[next..end] + order[end..];
      forall k | k in here ensures k !in rest {
        LaterPagesAreApart(order, next, end, k);
      }
      NoDuplicatesConcat(here, rest);
    }
  }

  lemma LaterPagesAreApart(order: seq<string>, next: nat, end: nat, k: string)
    requires next <= end <= |order| && NoDuplicates(order)
    ensures k in order[next..end] ==> k !in order[end..]
  {
  }

  /** ...and exactly the keys with the prefix that were in the table when their own page was read, whatever was stored
      and deleted between pages. */
  lemma {:induction false} ScanFromExact(order: seq<string>, prefix: string, pages: seq<PageRead>, next: nat, at: nat)
    requires next <= at < |order| && NoDuplicates(order)
    requires ScanFrom(order, prefix, pages, next).Ok?
    ensures order[at] in ScanFrom(order, prefix, pages, next).value <==>
            prefix <= order[at] && SeenAt(order, pages, next, at)
    decreases |pages|
  {
    var table, end := pages[0].table, next + pages[0].size;
    if end > |order| {
      PageExact(order, prefix, table, next, |order|);
      assert order[next..|order|] == order[next..];
    } else {
      PageExact(order, prefix, table, next, end);
      if at < end {
        ScanFromOnce(order, prefix, pages[1..], end);
        assert order[at] == order[next..end][at - next];
        LaterPagesAreApart(order, next, end, order[at]);
      } else {
        ScanFromExact(order, prefix, pages[1..], end, at);
        SeenOnLaterPage(order, pages, next, at);
      }
    }
  }

  lemma SeenOnLaterPage(order: seq<string>, pages: seq<PageRead>, next: nat, at: nat)
    requires pages != [] && pages[0].Page? && next + pages[0].size <= at < |order|
    ensures SeenAt(order, pages, next, at) == SeenAt(order, pages[1..], next + pages[0].size, at)
  {
    var i := PageOf(pages[1..], next + pages[0].size, at);
    assert PageOf(pages, next, at) == 1 + i;
    assert i < |pages[1..]| ==> pages[1..][i] == pages[1 + i];
  }

  lemma PageOfIsRead(pages: seq<PageRead>, next: nat, order: seq<string>, prefix: string, at: nat)
    requires next <= at < |order| && ScanFrom(order, prefix, pages, next).Ok?
    ensures PageOf(pages, next, at) < |pages| && pages[PageOf(pages, next, at)].Page?
    decreases |pages|
  {
    if next + pages[0].size <= at {
      PageOfIsRead(pages[1..], next + pages[0].size, order, prefix, at);
    }
  }

  /** Keys that stayed throughout are returned, once; keys that were never there aren't; nothing else gets in. */
  lemma ScanUnderInterference(order: seq<string>, prefix: string, pages: seq<PageRead>)
    requires ValidOrder(order, pages) && Scan(order, prefix, pages).Ok?
    ensures var keys := Scan(order, prefix, pages).value;
            && NoDuplicates(keys)
            && (forall k :: prefix <= k && (forall i :: 0 <= i < |pages| && pages[i].Page? ==> k in pages[i].table) ==>
                  k in keys)
            && (forall k :: k in keys ==>
                  prefix <= k && exists i :: 0 <= i < |pages| && pages[i].Page? && k in pages[i].table)
  {
    var keys := Scan(order, prefix, pages).value;
    ScanFromOnce(order, prefix, pages, 0);
    forall k | prefix <= k && (forall i :: 0 <= i < |pages| && pages[i].Page? ==> k in pages[i].table)
      ensures k in keys
    {
      assert pages[0].Page? && k in pages[0].table;
      assert k in order;
      var at :| 0 <= at < |order| && order[at] == k;
      ScanFromExact(order, prefix, pages, 0, at);
      PageOfIsRead(pages, 0, order, prefix, at);
      assert SeenAt(order, pages, 0, at);
    }
    forall k | k in keys ensures prefix <= k && exists i :: 0 <= i < |pages| && pages[i].Page? && k in pages[i].table {
      assert k in order[0..] && order[0..] == order;
      var at :| 0 <= at < |order| && order[at] == k;
      ScanFromExact(order, prefix, pages, 0, at);
      assert SeenAt(order, pages, 0, at);
    }
  }

  /** Every page sees the same table: nobody else changed it during the scan. */
  ghost predicate Undisturbed(pages: seq<PageRead>, table: Table) {
    forall i :: 0 <= i < |pages| && pages[i].Page? ==> pages[i].table == table
  }

  /** Undisturbed, a scan returns exactly the keys with the prefix that are in the table. */
  lemma UndisturbedScan(order: seq<string>, prefix: string, pages: seq<PageRead>, table: Table)
    requires ValidOrder(order, pages) && Undisturbed(pages, table) && Scan(order, prefix, pages).Ok?
    ensures forall k :: k in Scan(order, prefix, pages).value <==> k in table && prefix <= k
  {
    ScanUnderInterference(order, prefix, pages);
  }

  lemma ScanFromPage(order: seq<string>, prefix: string, pages: seq<PageRead>, next: nat)
    requires pages != [] && pages[0].Page? && next <= |order|
    ensures var end := next + pages[0].size;
            ScanFrom(order, prefix, pages, next) ==
            if end > |order| then Ok(Filter(order[next..], pages[0].table, prefix))
            else Prepend(Filter(order[next..end], pages[0].table, prefix), ScanFrom(order, prefix, pages[1..], end))
  {
  }

  /** Reading one more page of a scan that has returned `keys` so far. */
  lemma ScanStep(order: seq<string>, prefix: string, pages: seq<PageRead>, page: nat, next: nat, keys: seq<string>)
    requires page < |pages| && pages[page].Page? && next <= |order|
    ensures var end := next + pages[page].size;
            Prepend(keys, ScanFrom(order, prefix, pages[page..], next)) ==
            if end > |order| then Ok(keys + Filter(order[next..], pages[page].table, prefix))
            else Prepend(keys + Filter(order[next..end], pages[page].table, prefix),
                         ScanFrom(order, prefix, pages[page + 1..], end))
  {
    var end := next + pages[page].size;
    assert pages[page..][0] == pages[page] && pages[page..][1..] == pages[page + 1..];
    ScanFromPage(order, prefix, pages[page..], next);
    if end <= |order| {
      PrependTwice(keys, Filter(order[next..end], pages[page].table, prefix),
                   ScanFrom(order, prefix, pages[page + 1..], end));
    }
  }

  method AppendAll(keys: seq<string>, items: seq<string>) returns (r: seq<string>)
    ensures r == keys + items
  {
    r := keys;
    var i := 0;
    while i < |items|
      invariant 0 <= i <= |items| && r == keys + items[..i]
    {
      r := r + [items[i]];
      i := i + 1;
    }
  }

  /** keysWithPrefix: follows the pages, growing the list of keys. */
  method KeysWithPrefix(order: seq<string>, prefix: string, pages: seq<PageRead>)
    returns (r: Result<seq<string>, ScanError>)
    ensures r == Scan(order, prefix, pages)
  {
    var keys: seq<string> := [];
    var next, page, more := 0, 0, true;
    assert pages[0..] == pages;
    PrependTwice([], [], Scan(order, prefix, pages));
    while more
      invariant next <= |order| && page <= |pages|
      invariant more ==> Scan(order, prefix, pages) == Prepend(keys, ScanFrom(order, prefix, pages[page..], next))
      invariant !more ==> Scan(order, prefix, pages) == Ok(keys)
      decreases |pages| - page, more
    {
      if page == |pages| || pages[page].Failed? {
        return Err(RequestFailed);
      }
      ScanStep(order, prefix, pages, page, next, keys);
      more := next + pages[page].size <= |order|;
      var end := if more then next + pages[page].size else |order|;
      assert order[next..|order|] == order[next..];
      keys := AppendAll(keys, Filter(order[next..end], pages[page].table, prefix));
      next, page := end, page + 1;
    }
    return Ok(keys);
  }
}
