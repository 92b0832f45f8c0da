/**
 Crawls by descending creation time over a store that does not change. The listing is cut anew for each page, and
 triggers with equal times may stand in another order each time.
 */
module TimeCrawls {
  import opened FieldMasks
  import opened GoStrings
  import opened Listing
  import opened Names
  import opened Pagination
  import opened Sequences
  import opened TriggerSpec
  import opened Wrappers

  /** Each page is cut from a listing of the one store. */
  ghost predicate IsStillCrawl(c: Contents, parent: string, filter: string, orderBy: string,
                               lists: seq<seq<Trigger>>, sizes: seq<int>, pages: seq<seq<Trigger>>, tokens: seq<string>) {
    && (forall k :: 0 <= k < |lists| ==> IsListing(c, parent, orderBy, filter, lists[k]))
    && IsCrawl(lists, sizes, pages, tokens)
  }

  /** The pages together hold each selected trigger exactly once, and nothing else. */
  ghost predicate ReturnsEachOnce(c: Contents, parent: string, filter: string, pages: seq<seq<Trigger>>) {
    && DistinctNames(Flatten(pages))
    && forall n :: n in NamesOf(Flatten(pages)) <==> Selected(c, parent, filter, n)
  }

  /** Without ties every page is cut from one and the same list. */
  lemma UntiedCrawlIsExact(c: Contents, parent: string, filter: string, orderBy: string,
                           lists: seq<seq<Trigger>>, sizes: seq<int>, pages: seq<seq<Trigger>>, tokens: seq<string>)
    requires OrdersByTime(orderBy) && (forall x, y :: TimesDiffer(c, parent, filter, x, y))
    requires IsStillCrawl(c, parent, filter, orderBy, lists, sizes, pages, tokens) && Complete(tokens)
    ensures ReturnsEachOnce(c, parent, filter, pages)
  {
    TimeListingIsUniqueIff(c, parent, orderBy, filter, lists[0]);
    assert lists == Same(lists[0], |sizes|);
    StaticCrawl(lists[0], sizes, pages, tokens);
  }

  // ---- A crawl one trigger at a time -------------------------------------------------------

  function Singles<T>(s: seq<T>): (r: seq<seq<T>>)
    ensures |r| == |s| && forall k :: 0 <= k < |s| ==> r[k] == [s[k]]
  {
    seq(|s|, k requires 0 <= k < |s| => [s[k]])
  }

  lemma {:induction false} FlattenSingles<T>(s: seq<T>)
    ensures Flatten(Singles(s)) == s
  {
    if s != [] {
      var last := |s| - 1;
      FlattenSingles(s[..last]);
      FlattenSnoc(Singles(s[..last]), [s[last]]);
      assert Singles(s) == Singles(s[..last]) + [[s[last]]];
    }
  }

  /** The tokens of a crawl with n pages of one item each. */
  function OneByOne(n: nat): seq<string> {
    seq(n + 1, k => if k == 0 || k == n then "" else Itoa(k))
  }

  lemma SinglePage<T>(list: seq<T>, k: nat)
    requires k < |list| <= MAX_LEN
    ensures PageOf(list, OneByOne(|list|)[k], 1) == Ok(Page([list[k]], OneByOne(|list|)[k + 1]))
    ensures OneByOne(|list|)[k] == "" <==> k == 0
  {
    AtoiUndoesItoa(k);
    assert Window(list, k, k + 1) == [list[k]];
  }

  lemma CrawlsOneByOne<T>(lists: seq<seq<T>>, items: seq<T>)
    requires 0 < |lists| == |items| <= MAX_LEN
    requires forall k :: 0 <= k < |lists| ==> |lists[k]| == |lists| && lists[k][k] == items[k]
    ensures IsCrawl(lists, seq(|lists|, k => 1), Singles(items), OneByOne(|lists|)) && Complete(OneByOne(|lists|))
  {
    forall k | 0 <= k < |lists|
      ensures PageOf(lists[k], OneByOne(|lists|)[k], 1) == Ok(Page(Singles(items)[k], OneByOne(|lists|)[k + 1]))
      ensures OneByOne(|lists|)[k] == "" <==> k == 0
    {
      SinglePage(lists[k], k);
    }
  }

  /** If the second of two tied triggers is cut from a listing where they have swapped, the first is returned again. */
  lemma TiedCrawlRepeats(c: Contents, parent: string, filter: string, orderBy: string, l: seq<Trigger>, i: nat, j: nat)
    returns (lists: seq<seq<Trigger>>, sizes: seq<int>, pages: seq<seq<Trigger>>, tokens: seq<string>)
    requires OrdersByTime(orderBy) && IsListing(c, parent, orderBy, filter, l) && |l| <= MAX_LEN
    requires i < j < |l| && l[i].createTime == l[j].createTime
    ensures IsStillCrawl(c, parent, filter, orderBy, lists, sizes, pages, tokens) && Complete(tokens)
    ensures !ReturnsEachOnce(c, parent, filter, pages)
  {
    var swapped, items := l[i := l[j]][j := l[i]], l[j := l[i]];
    SwappedIsListing(c, parent, orderBy, filter, l, i, j);
    lists := seq(|l|, k => if k == j then swapped else l);
    CrawlsOneByOne(lists, items);
    FlattenSingles(items);
    assert items[i] == items[j];
    sizes, pages, tokens := seq(|lists|, k => 1), Singles(items), OneByOne(|lists|);
  }

  /**
   On a store that does not change, every completed crawl by creation time, whatever the page sizes, returns each
   selected trigger exactly once and nothing else, if and only if no two selected triggers share a creation time.
   */
  lemma TimeCrawlIsExactIff(c: Contents, parent: string, filter: string, orderBy: string, l: seq<Trigger>)
    requires OrdersByTime(orderBy) && IsListing(c, parent, orderBy, filter, l) && |l| <= MAX_LEN
    ensures (forall lists, sizes, pages, tokens ::
               IsStillCrawl(c, parent, filter, orderBy, lists, sizes, pages, tokens) && Complete(tokens)
               ==> ReturnsEachOnce(c, parent, filter, pages))
            <==> (forall x, y :: TimesDiffer(c, parent, filter, x, y))
  {
    if x, y :| !TimesDiffer(c, parent, filter, x, y) {
      assert x in NamesOf(l) && y in NamesOf(l);
      var i :| 0 <= i < |l| && NamesOf(l)[i] == x;
      var j :| 0 <= j < |l| && NamesOf(l)[j] == y;
      var lists, sizes, pages, tokens :=
        TiedCrawlRepeats(c, parent, filter, orderBy, l, if i < j then i else j, if i < j then j else i);
    } else {
      forall lists, sizes, pages, tokens
        | IsStillCrawl(c, parent, filter, orderBy, lists, sizes, pages, tokens) && Complete(tokens)
        ensures ReturnsEachOnce(c, parent, filter, pages)
      {
        UntiedCrawlIsExact(c, parent, filter, orderBy, lists, sizes, pages, tokens);
      }
    }
  }

  // ---- The smallest such crawl -------------------------------------------------------------

  lemma PairIsListed(c: Contents, parent: string, x: Trigger, y: Trigger)
    requires c.Keys == {x.name, y.name} && parent + "/triggers/" <= x.name && parent + "/triggers/" <= y.name
    ensures NamesOf([x, y]) == [x.name, y.name]
    ensures forall n :: n in NamesOf([x, y]) <==> Selected(c, parent, "", n)
  {
    assert NamesOf([x, y]) == [x.name, y.name];
    forall n ensures n in NamesOf([x, y]) <==> Selected(c, parent, "", n) {
      OtherFiltersAcceptAll("", n);
      assert n in c.Keys <==> n == x.name || n == y.name;
    }
  }

  lemma TiedPairIsListing(c: Contents, parent: string, x: Trigger, y: Trigger)
    requires c.Keys == {x.name, y.name} && c[x.name] == x && c[y.name] == y && x.name != y.name
    requires parent + "/triggers/" <= x.name && parent + "/triggers/" <= y.name && x.createTime == y.createTime
    ensures IsListing(c, parent, "create_time desc", "", [x, y])
  {
    PairIsListed(c, parent, x, y);
    assert "create_time desc" == "" + "create_time desc" + "";
    assert AsksForTime("create_time desc");
    OrdersByTimeIff("create_time desc");
  }

  lemma OrderedPairIsListing(c: Contents, parent: string, x: Trigger, y: Trigger)
    requires c.Keys == {x.name, y.name} && c[x.name] == x && c[y.name] == y && Less(x.name, y.name)
    requires parent + "/triggers/" <= x.name && parent + "/triggers/" <= y.name
    ensures IsListing(c, parent, "", "", [x, y])
  {
    PairIsListed(c, parent, x, y);
    LessIsTotal(x.name, y.name);
    OrdersByTimeIff("");
  }

  lemma CreatedUnder(parent: string, id: string)
    ensures parent + "/triggers/" <= Format(parent, "triggers", id)
  {
    assert Format(parent, "triggers", id) == (parent + "/triggers/") + id;
  }

  lemma PairCrawl<T>(x: T, y: T)
    ensures IsCrawl([[x, y], [y, x]], [1, 1], [[x], [x]], ["", "1", ""])
  {
    AtoiUndoesItoa(1);
    assert Itoa(1) == "1";
    assert Window([x, y], 0, 1) == [x] && Window([y, x], 1, 2) == [x];
  }

  /**
   Two triggers created under "p" at one reading of the clock, and nothing else done: a crawl by creation time with
   pages of one can return the one twice and the other never.
   */
  lemma TiedTriggersRepeat(req: Trigger, one: Stamp, two: Stamp)
    requires one.now == two.now
    ensures var c := AfterCreate(AfterCreate(map[], "p", "a", req, one), "p", "b", req, two);
            var a, b := Created("p", "a", req, one), Created("p", "b", req, two);
            && c == map[a.name := a, b.name := b] && a.name != b.name
            && IsStillCrawl(c, "p", "", "create_time desc", [[a, b], [b, a]], [1, 1], [[a], [a]], ["", "1", ""])
  {
    var c := AfterCreate(AfterCreate(map[], "p", "a", req, one), "p", "b", req, two);
    var a, b := Created("p", "a", req, one), Created("p", "b", req, two);
    CreatedUnder("p", "a");
    CreatedUnder("p", "b");
    assert a.name[|a.name| - 1] == 'a' && b.name[|b.name| - 1] == 'b';
    assert c == map[a.name := a, b.name := b];
    TiedPairIsListing(c, "p", a, b);
    TiedPairIsListing(c, "p", b, a);
    PairCrawl(a, b);
  }

  lemma AbeforeB(a: string, b: string)
    requires a == Format("p", "triggers", "a") && b == Format("p", "triggers", "b")
    ensures Less(a, b) && a != b && "p" + "/triggers/" <= a && "p" + "/triggers/" <= b
  {
    CreatedUnder("p", "a");
    CreatedUnder("p", "b");
    assert a == "p/triggers/" + "a" && b == "p/triggers/" + "b";
    assert BeforeAt(a, b, 11);
    LessIff(a, b);
  }

  /** In the default order two pages of one return two triggers by name, whatever their creation times. */
  lemma DefaultCrawl(req: Trigger, one: Stamp, two: Stamp)
    ensures var c := AfterCreate(AfterCreate(map[], "p", "b", req, one), "p", "a", req, two);
            var a, b := Created("p", "a", req, two), Created("p", "b", req, one);
            IsStoreCrawl([c, c], "p", "", "", [[a, b], [a, b]], [1, 1], [[a], [b]], ["", "1", ""])
  {
    var c := AfterCreate(AfterCreate(map[], "p", "b", req, one), "p", "a", req, two);
    var a, b := Created("p", "a", req, two), Created("p", "b", req, one);
    AbeforeB(a.name, b.name);
    assert c == map[a.name := a, b.name := b];
    OrderedPairIsListing(c, "p", a, b);
    PairStoreCrawl(c, "p", a, b);
  }

  lemma PairStoreCrawl(c: Contents, parent: string, x: Trigger, y: Trigger)
    requires IsListing(c, parent, "", "", [x, y])
    ensures IsStoreCrawl([c, c], parent, "", "", [[x, y], [x, y]], [1, 1], [[x], [y]], ["", "1", ""])
  {
    OrdersByTimeIff("");
    PlainCrawl(x, y);
    assert forall k :: 0 <= k < 2 ==> [c, c][k] == c && [[x, y], [x, y]][k] == [x, y];
  }

  lemma PlainCrawl<T>(x: T, y: T)
    ensures IsCrawl([[x, y], [x, y]], [1, 1], [[x], [y]], ["", "1", ""])
  {
    AtoiUndoesItoa(1);
    assert Itoa(1) == "1";
    assert Window([x, y], 0, 1) == [x] && Window([x, y], 1, 2) == [y];
  }
}
