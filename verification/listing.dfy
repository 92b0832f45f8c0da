/** What a trigger listing contains and in which order, and what a crawl over a changing store returns. */
module Listing {
  import opened FieldMasks
  import opened GoStrings
  import opened Names
  import opened Pagination
  import opened Sequences
  import opened TriggerSpec
  import opened Wrappers

  function LastPieceOf(name: string): string {
    Split(name)[|Split(name)| - 1]
  }

  /** The "trigger_id=X" filter, X possibly quoted; any other filter accepts every trigger. */
  predicate FilterAccepts(filter: string, name: string) {
    var f := TrimSpace(filter);
    "trigger_id=" <= f ==> LastPieceOf(name) == Trim(TrimPrefix(f, "trigger_id="), "\"'")
  }

  predicate OrdersByTime(orderBy: string) {
    TrimSpace(ToLower(orderBy)) == "create_time desc"
  }

  predicate Selected(c: Contents, parent: string, filter: string, name: string) {
    name in c && parent + "/triggers/" <= name && FilterAccepts(filter, name)
  }

  function NamesOf(ts: seq<Trigger>): (names: seq<string>)
    ensures |names| == |ts|
    ensures forall k :: 0 <= k < |ts| ==> names[k] == ts[k].name
  {
    seq(|ts|, k requires 0 <= k < |ts| => ts[k].name)
  }

  /**
   A full listing before it is cut into pages: each selected trigger once, by ascending name, or by descending
   creation time with ties in any order.
   */
  ghost predicate IsListing(c: Contents, parent: string, orderBy: string, filter: string, l: seq<Trigger>) {
    && (forall k :: 0 <= k < |l| ==> l[k].name in c && l[k] == c[l[k].name])
    && (forall n :: n in NamesOf(l) <==> Selected(c, parent, filter, n))
    && DistinctNames(l)
    && if OrdersByTime(orderBy) then
         forall i, j :: 0 <= i < j < |l| ==> l[i].createTime >= l[j].createTime
       else
         Ascending(NamesOf(l))
  }

  predicate DistinctNames(l: seq<Trigger>) {
    forall i, j :: 0 <= i < j < |l| ==> l[i].name != l[j].name
  }

  /** Every trigger under the parent, each once, in any order. */
  ghost predicate AllUnder(c: Contents, parent: string, l: seq<Trigger>) {
    && (forall k :: 0 <= k < |l| ==> l[k].name in c && l[k] == c[l[k].name])
    && (forall n :: n in NamesOf(l) <==> n in c && parent + "/triggers/" <= n)
    && DistinctNames(l)
  }

  /** The part of AllUnder gathered so far, when the names in rest are still to come. */
  ghost predicate Gathered(c: Contents, prefix: string, rest: set<string>, l: seq<Trigger>) {
    && (forall k :: 0 <= k < |l| ==> l[k].name in c && l[k] == c[l[k].name])
    && (forall n :: n in NamesOf(l) <==> n in c && n !in rest && prefix <= n)
    && DistinctNames(l)
  }

  lemma GatherOne(c: Contents, prefix: string, rest: set<string>, l: seq<Trigger>, name: string)
    requires KeyedByName(c) && Gathered(c, prefix, rest, l) && name in rest && name in c
    ensures Gathered(c, prefix, rest - {name}, if prefix <= name then l + [c[name]] else l)
  {
    assert name !in NamesOf(l);
    assert forall k :: 0 <= k < |l| ==> l[k].name == NamesOf(l)[k];
    assert NamesOf(l + [c[name]]) == NamesOf(l) + [name];
  }

  predicate Before(a: Trigger, b: Trigger, byTime: bool) {
    if byTime then a.createTime > b.createTime else Less(a.name, b.name)
  }

  predicate Sorted(l: seq<Trigger>, byTime: bool) {
    forall i, j :: 0 <= i < j < |l| ==> !Before(l[j], l[i], byTime)
  }

  lemma LaterIsNotBefore(x: Trigger, y: Trigger, z: Trigger, byTime: bool)
    requires Before(x, y, byTime) && (z == y || !Before(z, y, byTime))
    ensures !Before(z, x, byTime)
  {
    if !byTime {
      LessIsTotal(x.name, y.name);
      LessIsTotal(y.name, z.name);
      LessIsTotal(x.name, z.name);
      if Less(y.name, z.name) {
        LessIsTransitive(x.name, y.name, z.name);
      }
    }
  }

  /** Inserting before the first element that the new one precedes keeps a list sorted and its names distinct. */
  lemma InsertKeepsSorted(vs: seq<Trigger>, k: nat, l: seq<Trigger>, at: nat, byTime: bool)
    requires k < |vs| && DistinctNames(vs) && DistinctNames(l) && Sorted(l, byTime)
    requires forall v :: v in l <==> v in vs[..k]
    requires at <= |l| && (forall i :: 0 <= i < at ==> !Before(vs[k], l[i], byTime))
    requires at < |l| ==> Before(vs[k], l[at], byTime)
    ensures Sorted(InsertAt(l, at, vs[k]), byTime) && DistinctNames(InsertAt(l, at, vs[k]))
  {
    forall j | at <= j < |l| ensures !Before(l[j], vs[k], byTime) {
      LaterIsNotBefore(vs[k], l[at], l[j], byTime);
    }
    forall i | 0 <= i < |l| ensures l[i].name != vs[k].name {
      assert l[i] in vs[..k];
    }
  }

  /** Filtering and sorting all triggers under the parent makes the listing. */
  lemma MakesListing(c: Contents, parent: string, orderBy: string, filter: string, all: seq<Trigger>, l: seq<Trigger>)
    requires AllUnder(c, parent, all) && DistinctNames(l) && Sorted(l, OrdersByTime(orderBy))
    requires forall v :: v in l <==> v in all && FilterAccepts(filter, v.name)
    ensures IsListing(c, parent, orderBy, filter, l)
  {
    forall n ensures n in NamesOf(l) <==> Selected(c, parent, filter, n) {
      if n in NamesOf(l) {
        var k :| 0 <= k < |l| && NamesOf(l)[k] == n;
        assert l[k] in all;
        NameIsListed(all, l[k]);
      }
      if Selected(c, parent, filter, n) {
        assert n in NamesOf(all);
        var k :| 0 <= k < |all| && NamesOf(all)[k] == n;
        assert all[k] in l;
        NameIsListed(l, all[k]);
      }
    }
    forall k | 0 <= k < |l| ensures l[k].name in c && l[k] == c[l[k].name] {
      assert l[k] in all;
    }
    forall i, j | 0 <= i < j < |l| ensures Before(l[i], l[j], OrdersByTime(orderBy)) || l[i].createTime == l[j].createTime {
      assert !Before(l[j], l[i], OrdersByTime(orderBy));
      LessIsTotal(l[i].name, l[j].name);
    }
    forall i, j | 0 <= i < j < |l| ensures OrdersByTime(orderBy) || Less(NamesOf(l)[i], NamesOf(l)[j]) {
      assert !Before(l[j], l[i], OrdersByTime(orderBy));
      LessIsTotal(l[i].name, l[j].name);
    }
  }

  /** In name order the store determines the listing, so it does not depend on the map's iteration order. */
  lemma NameListingIsUnique(c: Contents, parent: string, orderBy: string, filter: string, a: seq<Trigger>, b: seq<Trigger>)
    requires !OrdersByTime(orderBy)
    requires IsListing(c, parent, orderBy, filter, a) && IsListing(c, parent, orderBy, filter, b)
    ensures a == b
  {
    var m, n := NamesOf(a), NamesOf(b);
    forall k | 0 <= k < |m| ensures k < |n| && m[k] == n[k] {
      SameNamesSamePlace(m, n, k);
    }
    forall k | 0 <= k < |n| ensures k < |m| && n[k] == m[k] {
      SameNamesSamePlace(n, m, k);
    }
    if |m| > 0 {
      SameNamesSamePlace(m, n, |m| - 1);
    }
    if |n| > 0 {
      SameNamesSamePlace(n, m, |n| - 1);
    }
    forall k | 0 <= k < |a| ensures a[k] == b[k] {
      assert m[k] == n[k];
    }
  }

  lemma SameNamesSamePlace(m: seq<string>, n: seq<string>, k: nat)
    requires Ascending(m) && Ascending(n) && Within(m, n) && Within(n, m) && k < |m|
    ensures k < |n| && m[k] == n[k]
  {
    assert m[k] in n;
    var j :| 0 <= j < |n| && n[j] == m[k];
    MoreNamesPushBack(m, n, k, j);
    MoreNamesPushBack(n, m, j, k);
  }

  ghost predicate Descends(l: seq<Trigger>) {
    forall i, j :: 0 <= i < j < |l| ==> l[i].createTime > l[j].createTime
  }

  lemma TailIsEarlier(l: seq<Trigger>, t: Trigger)
    requires Descends(l) && l != []
    ensures t in l[1..] <==> t in l && t != l[0]
  {
    assert forall k :: 0 < k < |l| ==> l[1..][k - 1] == l[k];
    assert forall k :: 0 <= k < |l[1..]| ==> l[1..][k] == l[k + 1] && l[k + 1].createTime < l[0].createTime;
  }

  lemma SameFirst(a: seq<Trigger>, b: seq<Trigger>)
    requires Descends(a) && Descends(b) && a != [] && b != [] && a[0] in b && b[0] in a
    ensures a[0] == b[0]
  {
    var i :| 0 <= i < |a| && a[i] == b[0];
    var j :| 0 <= j < |b| && b[j] == a[0];
  }

  lemma {:induction false} SameByTime(a: seq<Trigger>, b: seq<Trigger>)
    requires Descends(a) && Descends(b) && forall t :: t in a <==> t in b
    ensures a == b
  {
    if a == [] {
      assert forall k :: 0 <= k < |b| ==> b[k] in b;
    } else {
      assert a[0] in b && b[0] in a;
      SameFirst(a, b);
      forall t ensures t in a[1..] <==> t in b[1..] {
        TailIsEarlier(a, t);
        TailIsEarlier(b, t);
      }
      SameByTime(a[1..], b[1..]);
      assert a == [a[0]] + a[1..] && b == [b[0]] + b[1..];
    }
  }

  lemma SameElements(c: Contents, parent: string, orderBy: string, filter: string, a: seq<Trigger>, b: seq<Trigger>)
    requires IsListing(c, parent, orderBy, filter, a) && IsListing(c, parent, orderBy, filter, b)
    ensures forall t :: t in a ==> t in b
  {
    forall t | t in a ensures t in b {
      NameIsListed(a, t);
      assert t.name in NamesOf(b);
      var k :| 0 <= k < |b| && NamesOf(b)[k] == t.name;
      assert b[k] == t;
    }
  }

  lemma SwappedIsListing(c: Contents, parent: string, orderBy: string, filter: string, l: seq<Trigger>, i: nat, j: nat)
    requires OrdersByTime(orderBy) && IsListing(c, parent, orderBy, filter, l)
    requires i < j < |l| && l[i].createTime == l[j].createTime
    ensures IsListing(c, parent, orderBy, filter, l[i := l[j]][j := l[i]])
  {
    var m := l[i := l[j]][j := l[i]];
    assert forall k :: 0 <= k < |l| ==> m[k].createTime == l[k].createTime;
    assert forall k :: 0 <= k < |l| ==> m[k] == l[if k == i then j else if k == j then i else k];
    forall n ensures n in NamesOf(m) <==> n in NamesOf(l) {
      if n in NamesOf(l) {
        var k :| 0 <= k < |l| && NamesOf(l)[k] == n;
        assert NamesOf(m)[if k == i then j else if k == j then i else k] == n;
      }
    }
  }

  predicate TimesDiffer(c: Contents, parent: string, filter: string, x: string, y: string) {
    Selected(c, parent, filter, x) && Selected(c, parent, filter, y) && x != y ==> c[x].createTime != c[y].createTime
  }

  /** By descending creation time the store determines the listing if and only if no two selected triggers share a time. */
  lemma TimeListingIsUniqueIff(c: Contents, parent: string, orderBy: string, filter: string, l: seq<Trigger>)
    requires OrdersByTime(orderBy) && IsListing(c, parent, orderBy, filter, l)
    ensures (forall m :: IsListing(c, parent, orderBy, filter, m) ==> m == l)
            <==> (forall x, y :: TimesDiffer(c, parent, filter, x, y))
  {
    if forall x, y :: TimesDiffer(c, parent, filter, x, y) {
      forall m | IsListing(c, parent, orderBy, filter, m) ensures m == l {
        StrictByTime(c, parent, orderBy, filter, l);
        StrictByTime(c, parent, orderBy, filter, m);
        SameElements(c, parent, orderBy, filter, l, m);
        SameElements(c, parent, orderBy, filter, m, l);
        SameByTime(m, l);
      }
    }
    if x, y :| !TimesDiffer(c, parent, filter, x, y) {
      assert x in NamesOf(l) && y in NamesOf(l);
      var i :| 0 <= i < |l| && NamesOf(l)[i] == x;
      var j :| 0 <= j < |l| && NamesOf(l)[j] == y;
      var p, q := if i < j then i else j, if i < j then j else i;
      SwappedIsListing(c, parent, orderBy, filter, l, p, q);
      assert l[p := l[q]][q := l[p]][p].name != l[p].name;
    }
  }

  lemma StrictByTime(c: Contents, parent: string, orderBy: string, filter: string, l: seq<Trigger>)
    requires OrdersByTime(orderBy) && IsListing(c, parent, orderBy, filter, l)
    requires forall x, y :: TimesDiffer(c, parent, filter, x, y)
    ensures Descends(l)
  {
    forall i, j | 0 <= i < j < |l| ensures l[i].createTime > l[j].createTime {
      NameIsListed(l, l[i]);
      NameIsListed(l, l[j]);
      assert TimesDiffer(c, parent, filter, l[i].name, l[j].name);
    }
  }

  // ---- Crawling a store that changes -------------------------------------------------------

  /** Page k lists the contents the store had when it was requested. */
  ghost predicate IsStoreCrawl(stores: seq<Contents>, parent: string, filter: string, orderBy: string,
                               lists: seq<seq<Trigger>>, sizes: seq<int>, pages: seq<seq<Trigger>>, tokens: seq<string>) {
    && !OrdersByTime(orderBy)
    && |stores| == |lists|
    && (forall k :: 0 <= k < |stores| ==> IsListing(stores[k], parent, orderBy, filter, lists[k]))
    && IsCrawl(lists, sizes, pages, tokens)
  }

  function EachNamesOf(ls: seq<seq<Trigger>>): (r: seq<seq<string>>)
    ensures |r| == |ls|
    ensures forall k :: 0 <= k < |ls| ==> r[k] == NamesOf(ls[k])
  {
    seq(|ls|, k requires 0 <= k < |ls| => NamesOf(ls[k]))
  }

  lemma NamesCrawlToo(lists: seq<seq<Trigger>>, sizes: seq<int>, pages: seq<seq<Trigger>>, tokens: seq<string>)
    requires IsCrawl(lists, sizes, pages, tokens)
    ensures IsCrawl(EachNamesOf(lists), sizes, EachNamesOf(pages), tokens)
  {
    forall k | 0 <= k < |pages|
      ensures PageOf(NamesOf(lists[k]), tokens[k], sizes[k]) == Ok(Page(NamesOf(pages[k]), tokens[k + 1]))
    {
      assert PageOf(lists[k], tokens[k], sizes[k]) == Ok(Page(pages[k], tokens[k + 1]));
      var offset := Offset(tokens[k]).value;
      assert Window(NamesOf(lists[k]), offset, offset + Clamp(sizes[k])) == NamesOf(pages[k]);
    }
  }

  lemma ListedIffSelected(stores: seq<Contents>, parent: string, filter: string, orderBy: string,
                          lists: seq<seq<Trigger>>, sizes: seq<int>, pages: seq<seq<Trigger>>, tokens: seq<string>, k: nat)
    requires IsStoreCrawl(stores, parent, filter, orderBy, lists, sizes, pages, tokens) && k < |stores|
    ensures Ascending(EachNamesOf(lists)[k])
    ensures forall n :: n in EachNamesOf(lists)[k] <==> Selected(stores[k], parent, filter, n)
  {
    assert IsListing(stores[k], parent, orderBy, filter, lists[k]);
  }

  /**
   If triggers are only deleted (or updated) between the pages of a name-ordered crawl, whatever the page sizes, then
   no name is returned on two pages.
   */
  lemma CrawlWithDeletes(stores: seq<Contents>, parent: string, filter: string, orderBy: string,
                         lists: seq<seq<Trigger>>, sizes: seq<int>, pages: seq<seq<Trigger>>, tokens: seq<string>)
    requires IsStoreCrawl(stores, parent, filter, orderBy, lists, sizes, pages, tokens)
    requires forall k :: 0 < k < |stores| ==> stores[k].Keys <= stores[k - 1].Keys
    ensures forall p, q, t, u :: 0 <= p < q < |pages| && t in pages[p] && u in pages[q] ==> t.name != u.name
  {
    NamesCrawlToo(lists, sizes, pages, tokens);
    var names := EachNamesOf(lists);
    forall k | 0 <= k < |names| ensures Ascending(names[k]) {
      ListedIffSelected(stores, parent, filter, orderBy, lists, sizes, pages, tokens, k);
    }
    forall k | 0 < k < |names| ensures Within(names[k], names[k - 1]) {
      ListedIffSelected(stores, parent, filter, orderBy, lists, sizes, pages, tokens, k);
      ListedIffSelected(stores, parent, filter, orderBy, lists, sizes, pages, tokens, k - 1);
    }
    forall p, q, t, u | 0 <= p < q < |pages| && t in pages[p] && u in pages[q] ensures t.name != u.name {
      DeletesNeverRepeat(names, sizes, EachNamesOf(pages), tokens, p, q);
      NameIsListed(pages[p], t);
      NameIsListed(pages[q], u);
    }
  }

  /**
   If triggers are only created (or updated) between the pages of a name-ordered crawl, whatever the page sizes, then
   every trigger selected at the start has been returned by the time the token is empty.
   */
  lemma CrawlWithCreates(stores: seq<Contents>, parent: string, filter: string, orderBy: string,
                         lists: seq<seq<Trigger>>, sizes: seq<int>, pages: seq<seq<Trigger>>, tokens: seq<string>, name: string)
    requires IsStoreCrawl(stores, parent, filter, orderBy, lists, sizes, pages, tokens) && Complete(tokens)
    requires forall k :: 0 < k < |stores| ==> stores[k - 1].Keys <= stores[k].Keys
    requires Selected(stores[0], parent, filter, name)
    ensures exists k, t :: 0 <= k < |pages| && t in pages[k] && t.name == name
  {
    NamesCrawlToo(lists, sizes, pages, tokens);
    var names := EachNamesOf(lists);
    forall k | 0 <= k < |names| ensures Ascending(names[k]) {
      ListedIffSelected(stores, parent, filter, orderBy, lists, sizes, pages, tokens, k);
    }
    forall k | 0 < k < |names| ensures Within(names[k - 1], names[k]) {
      ListedIffSelected(stores, parent, filter, orderBy, lists, sizes, pages, tokens, k);
      ListedIffSelected(stores, parent, filter, orderBy, lists, sizes, pages, tokens, k - 1);
    }
    ListedIffSelected(stores, parent, filter, orderBy, lists, sizes, pages, tokens, 0);
    CreatesNeverSkip(names, sizes, EachNamesOf(pages), tokens, name);
    var k :| 0 <= k < |pages| && name in EachNamesOf(pages)[k];
    var i :| 0 <= i < |pages[k]| && NamesOf(pages[k])[i] == name;
    assert pages[k][i] in pages[k];
  }

  lemma NameIsListed(ts: seq<Trigger>, t: Trigger)
    requires t in ts
    ensures t.name in NamesOf(ts)
  {
    var i :| 0 <= i < |ts| && ts[i] == t;
    assert NamesOf(ts)[i] == t.name;
  }

  // ---- What the order and filter arguments ask for -----------------------------------------

  predicate White(s: string) {
    forall k :: 0 <= k < |s| ==> s[k] in {' ', '\t', '\n', '\r', '\U{000B}', '\U{000C}'}
  }

  lemma WhiteIsTrimmed(s: string)
    ensures White(s) <==> OnlyOf(s, WHITE)
  {
  }

  /** The argument is "create_time desc", in any letter case, with white space around it. */
  ghost predicate AsksForTime(orderBy: string) {
    exists a, word, b :: orderBy == a + word + b && White(a) && White(b) && SpelledAnyCase(word, "create_time desc")
  }

  lemma LowerKeepsWhite(s: string)
    ensures White(ToLower(s)) <==> White(s)
  {
    assert forall k :: 0 <= k < |s| ==> ToLower(s)[k] == s[k] || 'A' <= s[k] <= 'Z';
  }

  lemma LowerCuts(s: string, a: string, word: string, b: string)
    requires ToLower(s) == a + word + b
    ensures ToLower(s[..|a|]) == a && ToLower(s[|a|..|a| + |word|]) == word && ToLower(s[|a| + |word|..]) == b
  {
    assert (a + word + b)[|a|..|a| + |word|] == word && (a + word + b)[|a| + |word|..] == b;
  }

  lemma LowerJoins(a: string, word: string, b: string)
    ensures ToLower(a + word + b) == ToLower(a) + ToLower(word) + ToLower(b)
  {
  }

  lemma DescIsClean()
    ensures NoUpper("create_time desc") && "create_time desc"[0] !in WHITE && "create_time desc"[15] !in WHITE
  {
  }

  /** A listing is by creation time if and only if its order argument asks for it; any other argument means by name. */
  lemma OrdersByTimeIff(orderBy: string)
    ensures OrdersByTime(orderBy) <==> AsksForTime(orderBy)
  {
    DescIsClean();
    if OrdersByTime(orderBy) {
      var a, b := TrimCuts(ToLower(orderBy), WHITE);
      var word := "create_time desc";
      LowerCuts(orderBy, a, word, b);
      var i, j := |a|, |a| + |word|;
      WhiteIsTrimmed(a);
      WhiteIsTrimmed(b);
      LowerKeepsWhite(orderBy[..i]);
      LowerKeepsWhite(orderBy[j..]);
      LowersToIff(orderBy[i..j], word);
      assert orderBy == orderBy[..i] + orderBy[i..j] + orderBy[j..];
    }
    if AsksForTime(orderBy) {
      var a, word, b :|
        orderBy == a + word + b && White(a) && White(b) && SpelledAnyCase(word, "create_time desc");
      LowersToIff(word, "create_time desc");
      LowerKeepsWhite(a);
      LowerKeepsWhite(b);
      WhiteIsTrimmed(ToLower(a));
      WhiteIsTrimmed(ToLower(b));
      LowerJoins(a, word, b);
      TrimDropsEnds(ToLower(a), ToLower(word), ToLower(b), WHITE);
    }
  }

  /** Without an order, and with "name", a listing is ascending by name. */
  lemma DefaultOrderIsByName(c: Contents, parent: string, orderBy: string, filter: string, l: seq<Trigger>)
    requires (orderBy == "" || orderBy == "name") && IsListing(c, parent, orderBy, filter, l)
    ensures !OrdersByTime(orderBy)
    ensures forall i, j :: 0 <= i < j < |l| ==> Precedes(l[i].name, l[j].name)
  {
    OrdersByTimeIff(orderBy);
    forall i, j | 0 <= i < j < |l| ensures Precedes(l[i].name, l[j].name) {
      assert Less(NamesOf(l)[i], NamesOf(l)[j]);
      LessIff(l[i].name, l[j].name);
    }
  }

  /** A listing that was asked for by creation time has the newest first. */
  lemma NewestFirst(c: Contents, parent: string, orderBy: string, filter: string, l: seq<Trigger>, newer: string, older: string)
    requires AsksForTime(orderBy) && IsListing(c, parent, orderBy, filter, l)
    requires Selected(c, parent, filter, newer) && Selected(c, parent, filter, older) && c[newer].createTime > c[older].createTime
    ensures exists i, j :: 0 <= i < j < |l| && l[i] == c[newer] && l[j] == c[older]
  {
    OrdersByTimeIff(orderBy);
    assert newer in NamesOf(l) && older in NamesOf(l);
    var i :| 0 <= i < |l| && NamesOf(l)[i] == newer;
    var j :| 0 <= j < |l| && NamesOf(l)[j] == older;
    assert l[i] == c[newer] && l[j] == c[older];
  }

  predicate Quotes(s: string) {
    forall k :: 0 <= k < |s| ==> s[k] == '"' || s[k] == '\''
  }

  /** The argument is trigger_id= and the id, perhaps in quotes, with white space around it. */
  predicate AsksForId(filter: string, a: string, open: string, id: string, close: string, b: string) {
    && filter == a + ("trigger_id=" + open + id + close) + b && White(a) && White(b) && Quotes(open) && Quotes(close)
    && (id != "" ==> !Quotes(id[..1]) && !Quotes(id[|id| - 1..]))
    && (open + id + close != "" ==> !White((open + id + close)[|open + id + close| - 1..]))
  }

  lemma WhiteIsDropped(a: string, rest: string, b: string)
    requires White(a) && White(b) && (rest != "" ==> !White(rest[|rest| - 1..]))
    ensures TrimSpace(a + ("trigger_id=" + rest) + b) == "trigger_id=" + rest
  {
    var f := "trigger_id=" + rest;
    assert f[0] == 't' && f[|f| - 1] == if rest == "" then '=' else rest[|rest| - 1..][0];
    WhiteIsTrimmed(a);
    WhiteIsTrimmed(b);
    TrimDropsEnds(a, f, b, WHITE);
  }

  lemma QuotesAreDropped(open: string, id: string, close: string)
    requires Quotes(open) && Quotes(close) && (id != "" ==> !Quotes(id[..1]) && !Quotes(id[|id| - 1..]))
    ensures Trim(open + id + close, "\"'") == id
  {
    assert id != "" ==> id[..1] == [id[0]] && id[|id| - 1..] == [id[|id| - 1]];
    TrimDropsEnds(open, id, close, "\"'");
  }

  /** A filter that asks for an id accepts exactly the names whose last segment it is. */
  lemma FilterSelectsId(filter: string, a: string, open: string, id: string, close: string, b: string, name: string)
    requires AsksForId(filter, a, open, id, close, b)
    ensures FilterAccepts(filter, name) <==> LastSegment(name) == id
  {
    assert "trigger_id=" + open + id + close == "trigger_id=" + (open + id + close);
    WhiteIsDropped(a, open + id + close, b);
    QuotesAreDropped(open, id, close);
    LastOfSplit(name);
  }

  /** Any other filter is ignored. */
  lemma OtherFiltersAcceptAll(filter: string, name: string)
    requires forall a, rest :: White(a) && filter == a + rest ==> !("trigger_id=" <= rest)
    ensures FilterAccepts(filter, name)
  {
    var a, b := TrimCuts(filter, WHITE);
    WhiteIsTrimmed(a);
    assert filter == a + (TrimSpace(filter) + b);
  }

  // ---- Listing by id and getting by name ---------------------------------------------------

  /** A filter naming a valid id, as a client writes it, accepts exactly the names whose last piece is that id. */
  lemma FilterForId(id: string, name: string)
    requires ValidResourceId(id)
    ensures FilterAccepts("trigger_id=" + id, name) <==> LastSegment(name) == id
  {
    assert id[..1] == [id[0]] && id[|id| - 1..] == [id[|id| - 1]] && "" + id + "" == id;
    assert "trigger_id=" + id == "" + ("trigger_id=" + "" + id + "") + "";
    FilterSelectsId("trigger_id=" + id, "", "", id, "", "", name);
  }

  /** The only key that a by-id listing of the parent can add to what Get finds is one nested deeper under the parent. */
  predicate Nested(parent: string, id: string, key: string) {
    parent + "/triggers/" <= key && LastSegment(key) == id && key != Format(parent, "triggers", id)
  }

  /**
   Listing a parent by a valid id returns exactly what Get returns for the formatted name, a singleton or nothing,
   if and only if no stored key is nested deeper under the parent with the same last segment.
   */
  lemma ListByIdAgreesWithGet(c: Contents, parent: string, id: string, orderBy: string, l: seq<Trigger>)
    requires ValidResourceId(id) && IsListing(c, parent, orderBy, "trigger_id=" + id, l)
    ensures var name := Format(parent, "triggers", id);
            l == (if name in c then [c[name]] else []) <==> (forall key :: key in c ==> !Nested(parent, id, key))
  {
    SelectedById(c, parent, id);
    var name := Format(parent, "triggers", id);
    ListsOnlyIff(c, orderBy, l, name, set key | key in c && Nested(parent, id, key));
  }

  lemma NestedName()
    ensures Format("P/triggers/x", "triggers", "y") == "P/triggers/x/triggers/y"
    ensures "P" + "/triggers/" <= "P/triggers/x/triggers/y" && LastSegment("P/triggers/x/triggers/y") == "y"
    ensures |Format("P", "triggers", "y")| < |"P/triggers/x/triggers/y"|
  {
    var name := "P/triggers/x/triggers/y";
    assert "P" + "/triggers/" == "P/triggers/" == name[..11];
    assert name == "P/triggers/x/triggers" + "/" + "y";
    LastAfterSlash("P/triggers/x/triggers", "y");
  }

  /** A trigger created under the parent "P/triggers/x" is listed for its id under "P", where Get does not find it. */
  lemma NestedKeyIsListed(req: Trigger, stamp: Stamp)
    ensures var c := AfterCreate(map[], "P/triggers/x", "y", req, stamp);
            && Selected(c, "P", "trigger_id=" + "y", "P/triggers/x/triggers/y") && Format("P", "triggers", "y") !in c
  {
    NestedName();
    assert ValidResourceId("y");
    FilterForId("y", "P/triggers/x/triggers/y");
  }

  lemma ListsOnlyIff(c: Contents, orderBy: string, l: seq<Trigger>, name: string, others: set<string>)
    requires forall k :: 0 <= k < |l| ==> l[k].name in c && l[k] == c[l[k].name]
    requires DistinctNames(l)
    requires forall n :: n in NamesOf(l) <==> n in c && (n == name || n in others)
    requires name !in others && others <= c.Keys
    ensures l == (if name in c then [c[name]] else []) <==> others == {}
  {
    assert |l| > 1 ==> l[0].name != l[1].name;
    assert |l| > 0 ==> l[0].name in c && l[0] == c[l[0].name];
    if other :| other in others {
      assert other in NamesOf(l);
      var k :| 0 <= k < |l| && NamesOf(l)[k] == other;
      assert l[k].name == other;
    } else {
      forall k | 0 <= k < |l| ensures l[k].name == name {
        assert NamesOf(l)[k] in NamesOf(l);
      }
      assert others == {};
      if name in c {
        assert name in NamesOf(l);
      }
    }
  }

  lemma TriggersMarker()
    ensures "/" + "triggers" + "/" == "/triggers/" && '/' !in "triggers"
  {
  }

  lemma OwnNameIsFlat(parent: string, id: string)
    requires ValidResourceId(id)
    ensures parent + "/triggers/" <= Format(parent, "triggers", id) && LastSegment(Format(parent, "triggers", id)) == id
  {
    RecognizerDecidesTheRe(id);
    TriggersMarker();
    FormatSplitsAtMarker(parent, "triggers", id, "/triggers/");
  }

  lemma SelectedByIdIff(c: Contents, parent: string, id: string, n: string)
    requires ValidResourceId(id)
    ensures Selected(c, parent, "trigger_id=" + id, n)
            <==> n in c && (n == Format(parent, "triggers", id) || Nested(parent, id, n))
  {
    OwnNameIsFlat(parent, id);
    FilterForId(id, n);
  }

  lemma SelectedById(c: Contents, parent: string, id: string)
    requires ValidResourceId(id)
    ensures forall n :: Selected(c, parent, "trigger_id=" + id, n)
                        <==> n in c && (n == Format(parent, "triggers", id) || Nested(parent, id, n))
  {
    forall n
      ensures Selected(c, parent, "trigger_id=" + id, n)
              <==> n in c && (n == Format(parent, "triggers", id) || Nested(parent, id, n))
    {
      SelectedByIdIff(c, parent, id, n);
    }
  }

  /** No key is nested when every key was formatted from a slash-free id and a parent free of the collection marker. */
  lemma FlatStoresAgree(c: Contents, parent: string, id: string)
    requires forall key :: key in c ==> exists p, i :: FlatKey(key, p, i)
    ensures forall key :: key in c ==> !Nested(parent, id, key)
  {
    forall key | key in c ensures !Nested(parent, id, key) {
      var p, i :| FlatKey(key, p, i);
      FlatKeyIsNotNested(parent, id, key, p, i);
    }
  }

  lemma FlatKeyIsNotNested(parent: string, id: string, key: string, p: string, i: string)
    requires FlatKey(key, p, i)
    ensures !Nested(parent, id, key)
  {
    if parent + "/triggers/" <= key {
      MarkerAfterPrefix(parent, key, p, i);
      if |parent| < |p| {
        MarkerInside(p, i, |parent|);
      } else {
        assert p == key[..|p|] == parent;
        ParsersUndoFormat(parent, "triggers", i);
      }
    }
  }

  lemma MarkerAfterPrefix(parent: string, key: string, p: string, i: string)
    requires '/' !in i && key == Format(p, "triggers", i) && parent + "/triggers/" <= key
    ensures OccursAt(key, "/triggers/", |parent|) && |parent| <= |p| && parent == key[..|parent|]
  {
    TriggersMarker();
    FormatSplitsAtMarker(p, "triggers", i, "/triggers/");
    PrefixOccurs(parent, "/triggers/", key);
  }

  lemma PrefixOccurs(parent: string, marker: string, key: string)
    requires parent + marker <= key
    ensures OccursAt(key, marker, |parent|) && parent == key[..|parent|]
  {
    assert key[..|parent| + |marker|] == parent + marker;
    assert key[|parent|..|parent| + |marker|] == marker;
  }

  predicate FlatKey(key: string, parent: string, id: string) {
    '/' !in id && key == Format(parent, "triggers", id)
    && forall j :: 0 <= j < |parent| ==> !OccursAt(parent + "/", "/triggers/", j)
  }

  /** An occurrence of the marker that starts inside the parent lies within the parent and the slash after it. */
  lemma MarkerInside(parent: string, id: string, j: nat)
    requires j < |parent| && OccursAt(Format(parent, "triggers", id), "/triggers/", j)
    ensures OccursAt(parent + "/", "/triggers/", j)
  {
    var key, marker := Format(parent, "triggers", id), "/triggers/";
    assert key == parent + marker + id;
    // The slash after the parent cannot be one of the letters of this occurrence.
    assert forall p :: j <= p < j + 10 ==> key[p] == key[j..j + 10][p - j] == marker[p - j];
    assert forall m :: 0 < m < 9 ==> marker[m] != '/';
    assert key[|parent|] == '/';
    assert |parent| >= j + 9;
    assert (parent + "/")[j..j + 10] == key[j..j + 10];
  }
}
