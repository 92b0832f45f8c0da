/** PaginatePage of internal/server/storage_helpers.go, and what a client that follows its tokens sees. */
module Pagination {
  import opened GoStrings
  import opened Sequences
  import opened Wrappers

  /** No Go slice of pointers or strings is longer: each element takes at least eight bytes of a 63-bit space. */
  const MAX_LEN: int := MAX_INT / 8

  datatype Page<T> = Page(items: seq<T>, next: string)

  function Min(a: int, b: int): int { if a <= b then a else b }

  /** The page size in effect: the requested one when it lies in 1..100, otherwise 100. */
  function Clamp(size: int): (r: int)
    ensures 1 <= r <= 100
    ensures r == size || size < 1 || size > 100
  {
    if 1 <= size <= 100 then size else 100
  }

  /** The offset a token stands for; None for a token that is refused. */
  function Offset(token: string): (r: Option<nat>)
    ensures r.Some? ==> r.value <= MAX_INT
  {
    if token == "" then Some(0)
    else match Atoi(token)
         case None => None
         case Some(n) => if n < 0 then None else Some(n)
  }

  function Window<T>(items: seq<T>, from: nat, to: nat): (w: seq<T>)
    requires from <= to
    ensures |w| == Min(to, |items|) - Min(from, |items|)
    ensures forall k :: 0 <= k < |w| ==> w[k] == items[from + k]
  {
    items[Min(from, |items|)..Min(to, |items|)]
  }

  /** The page in exact arithmetic: a window of the list, and a token for the first item after it, if any. */
  function PageOf<T>(items: seq<T>, token: string, size: int): Result<Page<T>> {
    match Offset(token)
    case None => Err(InvalidArgument)
    case Some(offset) =>
      var end := offset + Clamp(size);
      Ok(Page(Window(items, offset, end),
              if end < |items| then Itoa(end) else if end <= MAX_INT then "" else Itoa(end - TWO_64)))
  }

  method PaginatePage<T>(items: seq<T>, pageToken: string, pageSize: int) returns (r: Result<Page<T>>)
    requires |items| <= MAX_LEN
    ensures r == PageOf(items, pageToken, pageSize)
  {
    var offset := 0;
    if pageToken != "" {
      var n := Atoi(pageToken);
      if n.None? || n.value < 0 {
        return Err(InvalidArgument);
      }
      offset := n.value;
    }
    var size := pageSize;
    if size <= 0 || size > 100 {
      size := 100;
    }
    var end := Wrap64(offset + size);
    if end > |items| {
      end := |items|;
    }
    var nextToken := "";
    if end < |items| {
      nextToken := Itoa(end);
    }
    if offset >= |items| {
      return Ok(Page([], nextToken));
    }
    return Ok(Page(items[offset..end], nextToken));
  }

  /** A token is refused if and only if it is neither empty nor a numeral of an offset. */
  lemma TokenRefusedIff<T>(items: seq<T>, token: string, size: int)
    ensures PageOf(items, token, size) == Err(InvalidArgument)
            <==> token != "" && forall n :: 0 <= n <= MAX_INT ==> !SpellsInt(token, n)
  {
    forall n ensures Atoi(token) == Some(n) <==> SpellsInt(token, n) && -MAX_INT - 1 <= n <= MAX_INT {
      AtoiIff(token, n);
    }
  }

  /** The first page of a list holds a hundred items, or all, when the requested size is not between 1 and 100. */
  lemma DefaultPageSize<T>(items: seq<T>, size: int)
    requires size < 1 || size > 100
    ensures PageOf(items, "", size) == PageOf(items, "", 100)
    ensures PageOf(items, "", size).value.items == if |items| <= 100 then items else items[..100]
  {
  }

  /**
   A token past the end gives an empty page, and ends the crawl exactly when offset + size does not wrap around;
   when it does wrap, the token handed out is negative and every request that uses it is refused.
   */
  lemma TokenPastTheEnd<T>(items: seq<T>, token: string, size: int)
    requires Offset(token).Some? && Offset(token).value >= |items|
    ensures PageOf(items, token, size).Ok? && PageOf(items, token, size).value.items == []
    ensures PageOf(items, token, size).value.next == "" <==> Offset(token).value <= MAX_INT - Clamp(size)
    ensures PageOf(items, token, size).value.next != "" ==>
              forall again :: PageOf(items, PageOf(items, token, size).value.next, again) == Err(InvalidArgument)
  {
    var end := Offset(token).value + Clamp(size);
    if end > MAX_INT {
      AtoiUndoesItoa(end - TWO_64);
    }
  }

  /** The largest token there is gets a page with a token back, and that one is refused. */
  lemma LargestTokenWraps<T>(items: seq<T>, again: int)
    requires |items| <= MAX_LEN
    ensures PageOf(items, Itoa(MAX_INT), 1) == Ok(Page([], Itoa(-MAX_INT - 1)))
    ensures PageOf(items, Itoa(-MAX_INT - 1), again) == Err(InvalidArgument)
  {
    AtoiUndoesItoa(MAX_INT);
    AtoiUndoesItoa(-MAX_INT - 1);
  }

  // ---- Crawls ------------------------------------------------------------------------------

  /**
   Page k was cut from lists[k] with sizes[k], using the token that page k-1 returned. Only the token before the
   first page and possibly the one after the last page are empty.
   */
  ghost predicate IsCrawl<T>(lists: seq<seq<T>>, sizes: seq<int>, pages: seq<seq<T>>, tokens: seq<string>) {
    && |lists| == |sizes| == |pages| && |tokens| == |pages| + 1
    && tokens[0] == ""
    && (forall k :: 0 < k < |pages| ==> tokens[k] != "")
    && forall k :: 0 <= k < |pages| ==>
         |lists[k]| <= MAX_LEN && PageOf(lists[k], tokens[k], sizes[k]) == Ok(Page(pages[k], tokens[k + 1]))
  }

  predicate Complete(tokens: seq<string>) {
    |tokens| > 1 && tokens[|tokens| - 1] == ""
  }

  /**
   The same crawl in terms of offsets: page k is a window of lists[k] starting where page k-1 ended, there is a next
   page only while items remain, and the crawl is complete when none do.
   */
  ghost predicate Windows<T>(lists: seq<seq<T>>, sizes: seq<int>, pages: seq<seq<T>>, offsets: seq<nat>, complete: bool) {
    && |lists| == |sizes| == |pages| && |offsets| == |pages| + 1 && offsets[0] == 0
    && (forall k :: 0 <= k < |pages| ==> offsets[k + 1] == offsets[k] + Clamp(sizes[k]))
    && (forall k :: 0 <= k < |pages| ==> pages[k] == Window(lists[k], offsets[k], offsets[k + 1]))
    && (forall k :: 0 < k < |pages| ==> offsets[k] < |lists[k - 1]|)
    && (complete <==> |pages| > 0 && offsets[|pages|] >= |lists[|pages| - 1]|)
  }

  function Offsets(sizes: seq<int>): (offsets: seq<nat>)
    ensures |offsets| == |sizes| + 1 && offsets[0] == 0
    ensures forall k :: 0 <= k < |sizes| ==> offsets[k + 1] == offsets[k] + Clamp(sizes[k])
  {
    if sizes == [] then [0]
    else
      var earlier := Offsets(sizes[..|sizes| - 1]);
      earlier + [earlier[|sizes| - 1] + Clamp(sizes[|sizes| - 1])]
  }

  /** One request at a token that parses: the token it returns, if any, parses back to the offset it was made from. */
  lemma PageStep<T>(list: seq<T>, token: string, size: int, page: seq<T>, next: string)
    requires |list| <= MAX_LEN && PageOf(list, token, size) == Ok(Page(page, next))
    requires Offset(token).value <= MAX_LEN
    ensures Offset(token).Some?
    ensures page == Window(list, Offset(token).value, Offset(token).value + Clamp(size))
    ensures next != "" <==> Offset(token).value + Clamp(size) < |list|
    ensures next != "" ==> Offset(next) == Some(Offset(token).value + Clamp(size))
  {
    AtoiUndoesItoa(Offset(token).value + Clamp(size));
  }

  lemma {:induction false} CrawlStep<T>(lists: seq<seq<T>>, sizes: seq<int>, pages: seq<seq<T>>, tokens: seq<string>, k: nat)
    requires IsCrawl(lists, sizes, pages, tokens) && k < |pages|
    ensures var offsets := Offsets(sizes);
            && Offset(tokens[k]) == Some(offsets[k])
            && pages[k] == Window(lists[k], offsets[k], offsets[k + 1])
            && (tokens[k + 1] != "" <==> offsets[k + 1] < |lists[k]|)
            && (tokens[k + 1] != "" ==> Offset(tokens[k + 1]) == Some(offsets[k + 1]))
  {
    if k > 0 {
      CrawlStep(lists, sizes, pages, tokens, k - 1);
    }
    PageStep(lists[k], tokens[k], sizes[k], pages[k], tokens[k + 1]);
  }

  lemma CrawlSteps<T>(lists: seq<seq<T>>, sizes: seq<int>, pages: seq<seq<T>>, tokens: seq<string>)
    requires IsCrawl(lists, sizes, pages, tokens)
    ensures var offsets := Offsets(sizes);
            forall k :: 0 <= k < |pages| ==>
              pages[k] == Window(lists[k], offsets[k], offsets[k + 1]) && (tokens[k + 1] != "" <==> offsets[k + 1] < |lists[k]|)
  {
    var offsets := Offsets(sizes);
    forall k | 0 <= k < |pages|
      ensures pages[k] == Window(lists[k], offsets[k], offsets[k + 1]) && (tokens[k + 1] != "" <==> offsets[k + 1] < |lists[k]|)
    {
      CrawlStep(lists, sizes, pages, tokens, k);
    }
  }

  /** Every crawl is such a sequence of windows: the tokens it is handed parse back to the offsets they were made from. */
  lemma CrawlWindows<T>(lists: seq<seq<T>>, sizes: seq<int>, pages: seq<seq<T>>, tokens: seq<string>)
    requires IsCrawl(lists, sizes, pages, tokens)
    ensures Windows(lists, sizes, pages, Offsets(sizes), Complete(tokens))
    ensures !Complete(tokens) ==> Offset(tokens[|pages|]) == Some(Offsets(sizes)[|pages|])
  {
    CrawlSteps(lists, sizes, pages, tokens);
    if |pages| > 0 {
      CrawlStep(lists, sizes, pages, tokens, |pages| - 1);
    }
  }

  /** A crawl never gets stuck on a refused token: whatever the next list and size, there is a next page. */
  lemma CrawlContinues<T>(lists: seq<seq<T>>, sizes: seq<int>, pages: seq<seq<T>>, tokens: seq<string>, list: seq<T>, size: int)
    returns (page: Page<T>)
    requires IsCrawl(lists, sizes, pages, tokens) && !Complete(tokens) && |list| <= MAX_LEN
    ensures IsCrawl(lists + [list], sizes + [size], pages + [page.items], tokens + [page.next])
  {
    CrawlWindows(lists, sizes, pages, tokens);
    page := PageOf(list, tokens[|pages|], size).value;
  }

  // ---- A list that does not change ---------------------------------------------------------

  function Same<T>(items: seq<T>, n: nat): seq<seq<T>> { seq(n, k => items) }

  lemma WindowsJoin<T>(items: seq<T>, a: nat, b: nat)
    requires a <= b
    ensures Window(items, 0, a) + Window(items, a, b) == Window(items, 0, b)
  {
  }

  lemma StaticPage<T>(items: seq<T>, sizes: seq<int>, pages: seq<seq<T>>, offsets: seq<nat>, complete: bool, k: nat)
    requires Windows(Same(items, |sizes|), sizes, pages, offsets, complete) && k < |pages|
    ensures pages[k] == Window(items, offsets[k], offsets[k + 1]) && offsets[k] < offsets[k + 1]
  {
    assert Same(items, |sizes|)[k] == items;
  }

  lemma {:induction false} StaticPrefix<T>(items: seq<T>, sizes: seq<int>, pages: seq<seq<T>>, offsets: seq<nat>, complete: bool, k: nat)
    requires Windows(Same(items, |sizes|), sizes, pages, offsets, complete) && k <= |pages|
    ensures Flatten(pages[..k]) == Window(items, 0, offsets[k])
    ensures k <= offsets[k]
  {
    if k > 0 {
      StaticPrefix(items, sizes, pages, offsets, complete, k - 1);
      StaticPage(items, sizes, pages, offsets, complete, k - 1);
      FlattenSnoc(pages[..k - 1], pages[k - 1]);
      assert pages[..k] == pages[..k - 1] + [pages[k - 1]];
      WindowsJoin(items, offsets[k - 1], offsets[k]);
    }
  }

  lemma StaticWindows<T>(items: seq<T>, sizes: seq<int>, pages: seq<seq<T>>, offsets: seq<nat>, complete: bool)
    requires Windows(Same(items, |sizes|), sizes, pages, offsets, complete)
    ensures complete ==> Flatten(pages) == items
    ensures forall k :: 0 <= k < |pages| - 1 ==> |pages[k]| == Clamp(sizes[k])
    ensures |pages| <= 1 || |pages| <= |items|
    ensures !complete ==> |pages| < 1 || |pages| < |items|
  {
    var n := |pages|;
    StaticPrefix(items, sizes, pages, offsets, complete, n);
    assert pages[..n] == pages;
    if n > 1 {
      StaticPrefix(items, sizes, pages, offsets, complete, n - 1);
    }
    forall k | 0 <= k < n - 1 ensures |pages[k]| == Clamp(sizes[k]) {
      assert offsets[k + 1] < |items|;
    }
  }

  /**
   Following the tokens of a fixed list, with any page sizes: the pages of a completed crawl concatenate to the list,
   every page but the last is full, and no crawl has more pages than max(1, |items|), so following tokens terminates.
   */
  lemma StaticCrawl<T>(items: seq<T>, sizes: seq<int>, pages: seq<seq<T>>, tokens: seq<string>)
    requires IsCrawl(Same(items, |sizes|), sizes, pages, tokens)
    ensures Complete(tokens) ==> Flatten(pages) == items
    ensures forall k :: 0 <= k < |pages| - 1 ==> |pages[k]| == Clamp(sizes[k])
    ensures |pages| <= 1 || |pages| <= |items|
    ensures !Complete(tokens) ==> |pages| < 1 || |pages| < |items|
  {
    CrawlWindows(Same(items, |sizes|), sizes, pages, tokens);
    StaticWindows(items, sizes, pages, Offsets(sizes), Complete(tokens));
  }

  lemma {:induction false} ConstantSteps(offsets: seq<nat>, c: int, k: nat)
    requires k < |offsets| && offsets[0] == 0
    requires forall j :: 0 <= j < |offsets| - 1 ==> offsets[j + 1] == offsets[j] + c
    ensures offsets[k] == k * c
  {
    if k > 0 {
      ConstantSteps(offsets, c, k - 1);
    }
  }

  /**
   With one page size throughout, the number of pages is the least one that holds max(1, |items|) items: the item
   count divided by the page size and rounded up, and one page for an empty list.
   */
  lemma StaticPageCount<T>(items: seq<T>, sizes: seq<int>, pages: seq<seq<T>>, tokens: seq<string>, size: int)
    requires IsCrawl(Same(items, |sizes|), sizes, pages, tokens) && Complete(tokens)
    requires forall j :: 0 <= j < |sizes| ==> Clamp(sizes[j]) == size
    ensures (|pages| - 1) * size < (if items == [] then 1 else |items|) <= |pages| * size
  {
    var offsets := Offsets(sizes);
    CrawlWindows(Same(items, |sizes|), sizes, pages, tokens);
    ConstantSteps(offsets, size, |pages|);
    ConstantSteps(offsets, size, |pages| - 1);
    assert Clamp(sizes[0]) == size && offsets[1] == size;
    if |pages| > 1 {
      assert offsets[|pages| - 1] < |items|;
    }
  }

  // ---- A name-ordered list that changes between pages --------------------------------------

  ghost predicate Ascending(names: seq<string>) {
    forall i, j :: 0 <= i < j < |names| ==> Less(names[i], names[j])
  }

  ghost predicate Within(inner: seq<string>, outer: seq<string>) {
    forall x :: x in inner ==> x in outer
  }

  /** Among more names, a name stands no earlier. */
  lemma {:induction false} MoreNamesPushBack(outer: seq<string>, inner: seq<string>, i: nat, j: nat)
    requires Ascending(outer) && Ascending(inner) && Within(inner, outer)
    requires i < |outer| && j < |inner| && outer[i] == inner[j]
    ensures j <= i
    decreases j
  {
    if j > 0 {
      assert inner[j - 1] in outer;
      var before :| 0 <= before < |outer| && outer[before] == inner[j - 1];
      MoreNamesPushBack(outer, inner, before, j - 1);
      LessIsTotal(outer[before], outer[i]);
    }
  }

  ghost predicate OnlyDeletes(lists: seq<seq<string>>) {
    forall k :: 0 < k < |lists| ==> Within(lists[k], lists[k - 1])
  }

  ghost predicate OnlyCreates(lists: seq<seq<string>>) {
    forall k :: 0 < k < |lists| ==> Within(lists[k - 1], lists[k])
  }

  lemma {:induction false} LaterIsWithin(lists: seq<seq<string>>, p: nat, q: nat)
    requires OnlyDeletes(lists) && p <= q < |lists|
    ensures Within(lists[q], lists[p])
    decreases q - p
  {
    if p < q {
      LaterIsWithin(lists, p, q - 1);
      assert Within(lists[q], lists[q - 1]);
    }
  }

  lemma {:induction false} LaterIsFurther<T>(lists: seq<seq<T>>, sizes: seq<int>, pages: seq<seq<T>>, offsets: seq<nat>,
                                             complete: bool, p: nat, q: nat)
    requires Windows(lists, sizes, pages, offsets, complete) && p <= q <= |pages|
    ensures offsets[p] <= offsets[q]
    decreases q - p
  {
    if p < q {
      LaterIsFurther(lists, sizes, pages, offsets, complete, p, q - 1);
    }
  }

  lemma WindowsApart(outer: seq<string>, inner: seq<string>, a: nat, b: nat, c: nat, d: nat)
    requires Ascending(outer) && Ascending(inner) && Within(inner, outer) && a <= b <= c <= d
    ensures forall name :: name in Window(outer, a, b) ==> name !in Window(inner, c, d)
  {
    var w, x := Window(outer, a, b), Window(inner, c, d);
    forall i, j | 0 <= i < |w| && 0 <= j < |x| && w[i] == x[j] ensures c + j <= a + i {
      MoreNamesPushBack(outer, inner, a + i, c + j);
    }
  }

  /** If names only disappear between pages, no name is returned on two pages. */
  lemma DeletesNeverRepeat(lists: seq<seq<string>>, sizes: seq<int>, pages: seq<seq<string>>, tokens: seq<string>, p: nat, q: nat)
    requires IsCrawl(lists, sizes, pages, tokens)
    requires (forall k :: 0 <= k < |lists| ==> Ascending(lists[k])) && OnlyDeletes(lists)
    requires p < q < |pages|
    ensures forall name :: name in pages[p] ==> name !in pages[q]
  {
    var offsets := Offsets(sizes);
    CrawlWindows(lists, sizes, pages, tokens);
    LaterIsWithin(lists, p, q);
    LaterIsFurther(lists, sizes, pages, offsets, Complete(tokens), p + 1, q);
    assert pages[p] == Window(lists[p], offsets[p], offsets[p + 1]);
    assert pages[q] == Window(lists[q], offsets[q], offsets[q + 1]);
    WindowsApart(lists[p], lists[q], offsets[p], offsets[p + 1], offsets[q], offsets[q + 1]);
  }

  /** If names only appear between pages, a name still ahead of the offset is returned on this or a later page. */
  lemma {:induction false} StillAhead(lists: seq<seq<string>>, sizes: seq<int>, pages: seq<seq<string>>, offsets: seq<nat>, k: nat, at: nat)
    returns (on: nat)
    requires Windows(lists, sizes, pages, offsets, true)
    requires (forall k :: 0 <= k < |lists| ==> Ascending(lists[k])) && OnlyCreates(lists)
    requires k < |pages| && offsets[k] <= at < |lists[k]|
    ensures on < |pages| && lists[k][at] in pages[on]
    decreases |pages| - k
  {
    if at < offsets[k + 1] {
      assert pages[k][at - offsets[k]] == lists[k][at];
      on := k;
    } else {
      assert Within(lists[k + 1 - 1], lists[k + 1]) && lists[k][at] in lists[k + 1];
      var next :| 0 <= next < |lists[k + 1]| && lists[k + 1][next] == lists[k][at];
      MoreNamesPushBack(lists[k + 1], lists[k], next, at);
      on := StillAhead(lists, sizes, pages, offsets, k + 1, next);
    }
  }

  /** If names only appear between pages, every name present at the start has been returned by the end. */
  lemma CreatesNeverSkip(lists: seq<seq<string>>, sizes: seq<int>, pages: seq<seq<string>>, tokens: seq<string>, name: string)
    requires IsCrawl(lists, sizes, pages, tokens) && Complete(tokens)
    requires (forall k :: 0 <= k < |lists| ==> Ascending(lists[k])) && OnlyCreates(lists)
    requires name in lists[0]
    ensures exists k :: 0 <= k < |pages| && name in pages[k]
  {
    var offsets := Offsets(sizes);
    CrawlWindows(lists, sizes, pages, tokens);
    var at :| 0 <= at < |lists[0]| && lists[0][at] == name;
    var k := StillAhead(lists, sizes, pages, offsets, 0, at);
  }

  /** Neither guarantee survives the other kind of change: a create repeats a name, a delete skips one. */
  lemma CreateRepeatsDeleteSkips()
    ensures IsCrawl([["b", "c"], ["a", "b", "c"]], [1, 1], [["b"], ["b"]], ["", "1", "2"])
    ensures IsCrawl([["a", "b"], ["b"]], [1, 1], [["a"], []], ["", "1", ""])
  {
    assert Itoa(1) == "1" && Itoa(2) == "2";
    AtoiUndoesItoa(1);
    assert Window(["b", "c"], 0, 1) == ["b"] && Window(["a", "b", "c"], 1, 2) == ["b"];
    assert Window(["a", "b"], 0, 1) == ["a"] && Window(["b"], 1, 2) == [];
  }
}
