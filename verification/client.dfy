/** `ODBase`: the service connection, reading pages of an OData feed and
    following their `next` links, turning entries into records, and the
    write requests. The HTTP transport is an oracle: `Fetch` answers a GET,
    `Server` answers every other request. */
module Client {
  import opened Wrappers
  import opened Text
  import opened Faults
  import opened XmlTree
  import opened Values
  import Numbers
  import Query
  import EntryMapper
  import Payload
  import Records

  /** The parts of the connection the modelled operations read: the data
      service URL, the https switch, and the request timeout in milliseconds. */
  datatype Service = Service(serviceUrl: Str, useHttps: bool, timeout: int)

  /** The `Timeout` setter ignores values that are not positive. */
  function SetTimeout(s: Service, value: int): (s': Service)
    ensures value > 0 ==> s'.timeout == value
    ensures value <= 0 ==> s' == s
    ensures s' == s.(timeout := s'.timeout)
  {
    if value > 0 then s.(timeout := value) else s
  }

  /** A positive timeout stays positive whatever is assigned. */
  lemma TimeoutStaysPositive(s: Service, value: int)
    requires s.timeout > 0
    ensures SetTimeout(s, value).timeout > 0
    ensures SetTimeout(s, value).timeout == value || SetTimeout(s, value).timeout == s.timeout
  {
  }

  // ---------------------------------------------------------------------
  // Reading pages

  /** What a GET returns: a transport or HTTP failure, a body that does not
      parse as XML, or the document element of a parsed body. */
  datatype Response = Unreachable | Malformed | Document(root: Element)

  type Fetch = Str -> Response

  const FeedName: Str := Lit("feed")

  /** A child `GetPage` keeps from a feed. */
  predicate IsItem(x: Element) {
    x.name == EntryMapper.EntryName || x.name == EntryMapper.LinkName
  }

  /** The `entry` and `link` children of a feed, in document order. */
  function FeedItems(cs: seq<Element>): (r: seq<Element>)
    ensures forall i | 0 <= i < |r| :: IsItem(r[i])
    ensures |r| <= |cs|
    decreases |cs|
  {
    if cs == [] then []
    else (if IsItem(cs[0]) then [cs[0]] else []) + FeedItems(cs[1..])
  }

  /** The feed keeps exactly its `entry` and `link` children. */
  lemma {:induction false} FeedItemsMembers(cs: seq<Element>, x: Element)
    ensures x in FeedItems(cs) <==> x in cs && IsItem(x)
    decreases |cs|
  {
    if cs != [] {
      FeedItemsMembers(cs[1..], x);
      assert x in cs <==> x == cs[0] || x in cs[1..];
    }
  }

  /** The filter distributes over concatenation: each child is kept or
      dropped on its own, and the kept ones stay in document order. */
  lemma {:induction false} FeedItemsConcat(a: seq<Element>, b: seq<Element>)
    ensures FeedItems(a + b) == FeedItems(a) + FeedItems(b)
    decreases |a|
  {
    if a == [] {
      assert a + b == b;
    } else {
      assert (a + b)[0] == a[0] && (a + b)[1..] == a[1..] + b;
      FeedItemsConcat(a[1..], b);
    }
  }

  function Lift(es: seq<Element>): (r: seq<Option<Element>>)
    ensures |r| == |es| && forall i | 0 <= i < |es| :: r[i] == Some(es[i])
  {
    seq(|es|, i requires 0 <= i < |es| => Some(es[i]))
  }

  /** The units `XmlDocument` drops as insignificant whitespace between elements. */
  const XmlSpace: set<u16> := {0x20, 0x09, 0x0D, 0x0A}

  /** The element has a text node among its children: character data other
      than whitespace. */
  predicate HasTextNode(e: Element) {
    exists i | 0 <= i < |e.text| :: e.text[i] !in XmlSpace
  }

  /** The items `GetPage` collects from a parsed document. A document with
      exactly one `feed` element yields the feed's `entry` and `link`
      children; dereferencing `xd["feed"]` fails when that element is not
      the document element, and casting a text child of the feed to an
      element fails. Otherwise a document with exactly one `entry` yields
      `xd["entry"]`, which is `null` (`None`) when that entry is not the
      document element. Anything else yields nothing. */
  function PageItems(root: Element): (r: Result<seq<Option<Element>>, Error>)
    ensures r.Err? <==> CountNamed(root, FeedName) == 1 && (root.name != FeedName || HasTextNode(root))
    ensures r.Err? ==> r.error == if root.name != FeedName then NullReference else InvalidCast
    ensures r.Ok? && CountNamed(root, FeedName) == 1 ==> r.value == Lift(FeedItems(root.children))
    ensures CountNamed(root, FeedName) != 1 ==>
      r == Ok(if CountNamed(root, EntryMapper.EntryName) != 1 then []
              else if root.name == EntryMapper.EntryName then [Some(root)] else [None])
    ensures r.Ok? ==> forall i | 0 <= i < |r.value| && r.value[i].Some? :: IsItem(r.value[i].value)
    ensures r.Ok? && CountNamed(root, FeedName) == 1 ==> forall c | c in root.children && IsItem(c) :: Some(c) in r.value
  {
    if CountNamed(root, FeedName) == 1 then
      if root.name != FeedName then Err(NullReference)
      else if HasTextNode(root) then Err(InvalidCast)
      else
        var items := FeedItems(root.children);
        var r := Lift(items);
        assert forall c | c in root.children && IsItem(c) :: Some(c) in r by {
          forall c | c in root.children && IsItem(c) ensures Some(c) in r {
            FeedItemsMembers(root.children, c);
            var i :| 0 <= i < |items| && items[i] == c;
            assert r[i] == Some(c);
          }
        }
        Ok(r)
    else if CountNamed(root, EntryMapper.EntryName) == 1 then
      if root.name == EntryMapper.EntryName then Ok([Some(root)]) else Ok([None])
    else Ok([])
  }

  /** `GetPage(url)`: the https rewrite, then the GET. A failed request raises
      the web exception; a body that is not XML is logged and yields nothing. */
  function GetPage(svc: Service, fetch: Fetch, url: Str): (r: Result<seq<Option<Element>>, Error>)
    ensures var u := Query.HttpsFix(svc.useHttps, url);
      (fetch(u).Unreachable? <==> r.Err? && r.error.Web?)
      && (r.Err? && r.error.Web? ==> r.error.url == u)
      && (fetch(u).Malformed? ==> r == Ok([]))
      && (fetch(u).Document? ==> r == PageItems(fetch(u).root))
  {
    var u := Query.HttpsFix(svc.useHttps, url);
    match fetch(u)
    case Unreachable => Err(Web(u))
    case Malformed => Ok([])
    case Document(root) => PageItems(root)
  }

  /** A service that is not https fetches exactly the URL it is given. */
  lemma PlainServiceFetchesAsGiven(svc: Service, fetch: Fetch, url: Str)
    requires !svc.useHttps
    ensures GetPage(svc, fetch, url).Err? && GetPage(svc, fetch, url).error.Web? ==> GetPage(svc, fetch, url).error.url == url
  {
  }

  // ---------------------------------------------------------------------
  // Following `next` links

  const NextRel: Str := Lit("next")

  /** An item `GetAllPages` treats as a link to the next page. */
  predicate IsNextLink(e: Element) {
    e.name == EntryMapper.LinkName && HasAttr(e, EntryMapper.RelAttr) && Attr(e, EntryMapper.RelAttr) == NextRel
    && HasAttr(e, EntryMapper.HrefAttr)
  }

  function Href(e: Element): Str {
    Attr(e, EntryMapper.HrefAttr)
  }

  /** The state of the scan of one page: the entries collected, whether a
      further page is due, and the URL to fetch next. */
  datatype Scan = Scan(entries: seq<Element>, go: bool, url: Str)

  /** One item of the page: an entry is collected, and a next link whose
      href differs from the current URL becomes the URL. */
  function Step(st: Scan, e: Element): (st': Scan)
    ensures !IsNextLink(e) ==> st'.go == st.go && st'.url == st.url
  {
    var st1 := if e.name == EntryMapper.EntryName then st.(entries := st.entries + [e]) else st;
    if IsNextLink(e) && Href(e) != st1.url then st1.(go := true, url := Href(e)) else st1
  }

  /** The `entry` elements among the items, in order: what a page
      contributes to the crawl. */
  function EntriesOf(items: seq<Option<Element>>): (r: seq<Element>)
    ensures |r| <= |items|
    decreases |items|
  {
    if items == [] then []
    else
      var last := items[|items| - 1];
      EntriesOf(items[..|items| - 1]) + (if last.Some? && last.value.name == EntryMapper.EntryName then [last.value] else [])
  }

  /** An element is among the entries exactly when it is an `entry` item. */
  lemma {:induction false} EntriesOfMembers(items: seq<Option<Element>>, x: Element)
    ensures x in EntriesOf(items) <==> Some(x) in items && x.name == EntryMapper.EntryName
    decreases |items|
  {
    if items != [] {
      var init := items[..|items| - 1];
      EntriesOfMembers(init, x);
      assert items == init + [items[|items| - 1]];
    }
  }

  /** Items that are all present entries are their own entries. */
  lemma {:induction false} EntriesOfLift(es: seq<Element>)
    requires forall i | 0 <= i < |es| :: es[i].name == EntryMapper.EntryName
    ensures EntriesOf(Lift(es)) == es
    decreases |es|
  {
    if es != [] {
      var init := es[..|es| - 1];
      EntriesOfLift(init);
      assert Lift(es)[..|es| - 1] == Lift(init);
    }
  }

  /** The scan of the first `n` items of a page fetched from `start`; a `null`
      item is dereferenced and fails. */
  function ScanItems(items: seq<Option<Element>>, n: nat, start: Str): (r: Result<Scan, Error>)
    requires n <= |items|
    ensures r.Err? <==> exists i | 0 <= i < n :: items[i].None?
    ensures r.Err? ==> r.error == NullReference
    ensures r.Ok? ==> r.value.entries == EntriesOf(items[..n])
    ensures r.Ok? ==> |r.value.entries| <= n
    ensures r.Ok? ==> forall i | 0 <= i < |r.value.entries| :: r.value.entries[i].name == EntryMapper.EntryName
    decreases n
  {
    if n == 0 then Ok(Scan([], false, start))
    else
      assert items[..n][..n - 1] == items[..n - 1];
      match ScanItems(items, n - 1, start)
      case Err(e) => Err(e)
      case Ok(st) =>
        match items[n - 1]
        case None => Err(NullReference)
        case Some(e) => Ok(Step(st, e))
  }

  /** Item `j` is a next link pointing away from `url`. */
  predicate LeavesAt(items: seq<Option<Element>>, j: int, url: Str)
    requires 0 <= j < |items|
  {
    items[j].Some? && IsNextLink(items[j].value) && Href(items[j].value) != url
  }

  /** A page asks for another page exactly when one of its next links
      points away from the URL it was fetched from; the URL to follow is then
      the href of one of its next links, and otherwise stays unchanged. */
  lemma {:induction false} ScanFollow(items: seq<Option<Element>>, n: nat, start: Str)
    requires n <= |items| && ScanItems(items, n, start).Ok?
    ensures var st := ScanItems(items, n, start).value;
      (st.go <==> exists j | 0 <= j < n :: LeavesAt(items, j, start))
      && (!st.go ==> st.url == start)
      && (st.go ==> exists j | 0 <= j < n :: items[j].Some? && IsNextLink(items[j].value) && st.url == Href(items[j].value))
    decreases n
  {
    if n > 0 {
      ScanFollow(items, n - 1, start);
      var st0 := ScanItems(items, n - 1, start).value;
      var e := items[n - 1].value;
      var st := ScanItems(items, n, start).value;
      assert st == Step(st0, e);
      if !st0.go {
        if !(IsNextLink(e) && Href(e) != start) {
          assert !LeavesAt(items, n - 1, start);
        } else {
          assert LeavesAt(items, n - 1, start);
        }
      } else {
        var j :| 0 <= j < n - 1 && LeavesAt(items, j, start);
        assert LeavesAt(items, j, start);
      }
    }
  }

  /** When all next links of a page agree on one target, the page leads to
      that target exactly when it differs from the page's own URL. */
  lemma ScanSingleTarget(items: seq<Option<Element>>, start: Str, target: Str)
    requires ScanItems(items, |items|, start).Ok?
    requires forall j | 0 <= j < |items| && items[j].Some? && IsNextLink(items[j].value) :: Href(items[j].value) == target
    ensures var st := ScanItems(items, |items|, start).value;
      st.go ==> st.url == target && target != start
  {
    ScanFollow(items, |items|, start);
  }

  /** What the loop of `GetAllPages` produces: the entries in page order, the
      URLs it fetched, and the exception that ended it, if any. */
  datatype Crawl = Crawl(entries: seq<Element>, fetched: seq<Str>, failure: Option<Error>)

  /** One page fetched from `url` and scanned. */
  function PageScan(svc: Service, fetch: Fetch, url: Str): (r: Result<Scan, Error>)
    ensures GetPage(svc, fetch, url).Err? ==> r == Err(GetPage(svc, fetch, url).error)
    ensures var p := GetPage(svc, fetch, url);
      p.Ok? ==> (r.Err? <==> exists i | 0 <= i < |p.value| :: p.value[i].None?)
    ensures r.Ok? ==> GetPage(svc, fetch, url).Ok? && r.value.entries == EntriesOf(GetPage(svc, fetch, url).value)
    ensures r.Ok? ==> forall i | 0 <= i < |r.value.entries| :: r.value.entries[i].name == EntryMapper.EntryName
  {
    var items :- GetPage(svc, fetch, url);
    assert items[..|items|] == items;
    ScanItems(items, |items|, url)
  }

  /** `c` after the entries `es` and the fetches `fs`. */
  function Extend(es: seq<Element>, fs: seq<Str>, c: Crawl): Crawl {
    Crawl(es + c.entries, fs + c.fetched, c.failure)
  }

  /** The reference definition of the loop: at most `n` further pages from
      `url`. The first page is always fetched when `n` is positive. */
  function Pages(svc: Service, fetch: Fetch, url: Str, n: int): (c: Crawl)
    ensures |c.fetched| <= if n > 0 then n else 0
    ensures n > 0 ==> |c.fetched| > 0 && c.fetched[0] == url
    ensures forall i | 0 <= i < |c.entries| :: c.entries[i].name == EntryMapper.EntryName
    decreases n
  {
    if n <= 0 then Crawl([], [], None)
    else match PageScan(svc, fetch, url)
      case Err(e) => Crawl([], [url], Some(e))
      case Ok(st) =>
        if st.go then Extend(st.entries, [url], Pages(svc, fetch, st.url, n - 1))
        else Crawl(st.entries, [url], None)
  }

  /** The entries a fetched URL contributes: the page's entries, or nothing
      when the page fails. */
  function PageEntries(svc: Service, fetch: Fetch, url: Str): seq<Element> {
    var p := GetPage(svc, fetch, url);
    if p.Ok? then EntriesOf(p.value) else []
  }

  /** The entries of the pages at `fs`, page after page. */
  function Collected(svc: Service, fetch: Fetch, fs: seq<Str>): seq<Element>
    decreases |fs|
  {
    if fs == [] then [] else PageEntries(svc, fetch, fs[0]) + Collected(svc, fetch, fs[1..])
  }

  /** The entries of `c` are those of the pages it fetched, the failed last
      page excepted, which then is the page that ended the crawl. */
  predicate Collects(svc: Service, fetch: Fetch, c: Crawl) {
    (c.failure.None? ==> c.entries == Collected(svc, fetch, c.fetched))
    && (c.failure.Some? ==>
          |c.fetched| > 0
          && c.entries == Collected(svc, fetch, c.fetched[..|c.fetched| - 1])
          && PageScan(svc, fetch, c.fetched[|c.fetched| - 1]) == Err(c.failure.value))
  }

  /** A page's entries put in front of a crawl that collects keeps it collecting. */
  lemma ExtendCollects(svc: Service, fetch: Fetch, url: Str, rest: Crawl)
    requires Collects(svc, fetch, rest)
    ensures Collects(svc, fetch, Extend(PageEntries(svc, fetch, url), [url], rest))
  {
    var c := Extend(PageEntries(svc, fetch, url), [url], rest);
    assert c.fetched[0] == url && c.fetched[1..] == rest.fetched;
    if rest.failure.Some? {
      var init := c.fetched[..|c.fetched| - 1];
      assert init[0] == url && init[1..] == rest.fetched[..|rest.fetched| - 1];
    }
  }

  /** The crawl collects the entries of every page it fetched, in page order
      and within a page in document order; when a page fails, that page is
      the last one fetched and the entries are those of the pages before it. */
  lemma {:induction false} PagesCollect(svc: Service, fetch: Fetch, url: Str, n: int)
    ensures Collects(svc, fetch, Pages(svc, fetch, url, n))
    decreases n
  {
    if n <= 0 {
      assert Pages(svc, fetch, url, n) == Crawl([], [], None);
    } else if PageScan(svc, fetch, url).Err? {
      PagesCollectFail(svc, fetch, url, n);
    } else {
      var st := PageScan(svc, fetch, url).value;
      if st.go {
        PagesCollect(svc, fetch, st.url, n - 1);
        assert Tail(svc, fetch, st.go, st.url, n - 1) == Pages(svc, fetch, st.url, n - 1);
      } else {
        assert Tail(svc, fetch, st.go, st.url, n - 1) == Crawl([], [], None);
      }
      PagesCollectStep(svc, fetch, url, n);
    }
  }

  /** A failing first page ends the crawl with nothing collected. */
  lemma PagesCollectFail(svc: Service, fetch: Fetch, url: Str, n: int)
    requires n > 0 && PageScan(svc, fetch, url).Err?
    ensures Collects(svc, fetch, Pages(svc, fetch, url, n))
  {
    PagesStep(svc, fetch, url, n);
    assert [url][..0] == [];
  }

  /** A successful first page put in front of a crawl that collects. */
  lemma PagesCollectStep(svc: Service, fetch: Fetch, url: Str, n: int)
    requires n > 0 && PageScan(svc, fetch, url).Ok?
    requires var st := PageScan(svc, fetch, url).value;
      Collects(svc, fetch, Tail(svc, fetch, st.go, st.url, n - 1))
    ensures Collects(svc, fetch, Pages(svc, fetch, url, n))
  {
    PagesStep(svc, fetch, url, n);
    var st := PageScan(svc, fetch, url).value;
    assert st.entries == PageEntries(svc, fetch, url);
    ExtendCollects(svc, fetch, url, Tail(svc, fetch, st.go, st.url, n - 1));
  }

  /** What remains of the loop: more pages while `go` holds, else nothing. */
  function Tail(svc: Service, fetch: Fetch, go: bool, url: Str, n: int): Crawl {
    if go then Pages(svc, fetch, url, n) else Crawl([], [], None)
  }

  /** One turn of the loop: the first page's scan, then the rest. */
  lemma PagesStep(svc: Service, fetch: Fetch, url: Str, n: int)
    requires n > 0
    ensures PageScan(svc, fetch, url).Err? ==> Pages(svc, fetch, url, n) == Crawl([], [url], Some(PageScan(svc, fetch, url).error))
    ensures PageScan(svc, fetch, url).Ok? ==> var st := PageScan(svc, fetch, url).value;
      Pages(svc, fetch, url, n) == Extend(st.entries, [url], Tail(svc, fetch, st.go, st.url, n - 1))
  {
  }

  lemma ExtendTwice(es: seq<Element>, fs: seq<Str>, es': seq<Element>, fs': seq<Str>, c: Crawl)
    ensures Extend(es, fs, Extend(es', fs', c)) == Extend(es + es', fs + fs', c)
  {
    assert es + (es' + c.entries) == (es + es') + c.entries;
    assert fs + (fs' + c.fetched) == (fs + fs') + c.fetched;
  }

  /** The loop invariant of `GetAllPages` on entry. */
  lemma LoopStart(svc: Service, fetch: Fetch, url: Str, n: int)
    ensures Pages(svc, fetch, url, n) == Extend([], [], Tail(svc, fetch, true, url, n))
  {
    var c := Pages(svc, fetch, url, n);
    assert [] + c.entries == c.entries && [] + c.fetched == c.fetched;
  }

  /** The loop invariant of `GetAllPages` on exit. */
  lemma LoopDone(svc: Service, fetch: Fetch, go: bool, url: Str, n: int, es: seq<Element>, fs: seq<Str>)
    requires !go || n <= 0
    ensures Extend(es, fs, Tail(svc, fetch, go, url, n)) == Crawl(es, fs, None)
  {
    assert es + [] == es && fs + [] == fs;
  }

  /** The loop invariant of `GetAllPages` carried over one turn. */
  lemma LoopTurn(svc: Service, fetch: Fetch, url: Str, n: int, es: seq<Element>, fs: seq<Str>)
    requires n > 0
    ensures PageScan(svc, fetch, url).Err? ==>
      Extend(es, fs, Tail(svc, fetch, true, url, n)) == Crawl(es, fs + [url], Some(PageScan(svc, fetch, url).error))
    ensures PageScan(svc, fetch, url).Ok? ==> var st := PageScan(svc, fetch, url).value;
      Extend(es, fs, Tail(svc, fetch, true, url, n)) == Extend(es + st.entries, fs + [url], Tail(svc, fetch, st.go, st.url, n - 1))
  {
    PagesStep(svc, fetch, url, n);
    if PageScan(svc, fetch, url).Ok? {
      var st := PageScan(svc, fetch, url).value;
      ExtendTwice(es, fs, st.entries, [url], Tail(svc, fetch, st.go, st.url, n - 1));
    } else {
      assert es + [] == es;
    }
  }

  /** A crawl that fetched a second page went on from the first page's scan. */
  lemma PagesUnfold(svc: Service, fetch: Fetch, url: Str, n: int)
    requires |Pages(svc, fetch, url, n).fetched| > 1
    ensures n > 0 && PageScan(svc, fetch, url).Ok? && PageScan(svc, fetch, url).value.go
    ensures Pages(svc, fetch, url, n).fetched == [url] + Pages(svc, fetch, PageScan(svc, fetch, url).value.url, n - 1).fetched
  {
  }

  /** The page at `from` has a next link pointing away from `from`, and one
      pointing to `to`. */
  predicate Leads(svc: Service, fetch: Fetch, from: Str, to: Str) {
    var p := GetPage(svc, fetch, from);
    p.Ok?
    && (exists j | 0 <= j < |p.value| :: LeavesAt(p.value, j, from))
    && (exists j | 0 <= j < |p.value| :: p.value[j].Some? && IsNextLink(p.value[j].value) && Href(p.value[j].value) == to)
  }

  /** A page whose scan asks for another page leads to the URL it names. */
  lemma ScanLeads(svc: Service, fetch: Fetch, url: Str)
    requires PageScan(svc, fetch, url).Ok? && PageScan(svc, fetch, url).value.go
    ensures Leads(svc, fetch, url, PageScan(svc, fetch, url).value.url)
  {
    var items := GetPage(svc, fetch, url).value;
    ScanFollow(items, |items|, url);
  }

  /** The scan of the page at `from` asks for the page at `to`. */
  predicate Asks(svc: Service, fetch: Fetch, from: Str, to: Str) {
    PageScan(svc, fetch, from).Ok? && PageScan(svc, fetch, from).value.go && PageScan(svc, fetch, from).value.url == to
  }

  /** The relation `Asks` on the pages of one service. */
  function AsksOn(svc: Service, fetch: Fetch): (Str, Str) -> bool {
    (from: Str, to: Str) => Asks(svc, fetch, from, to)
  }

  /** Each URL of `fs` is related by `rel` to the one after it. */
  predicate Chained(rel: (Str, Str) -> bool, fs: seq<Str>)
    decreases |fs|
  {
    |fs| <= 1 || (rel(fs[0], fs[1]) && Chained(rel, fs[1..]))
  }

  lemma {:induction false} ChainedAt(rel: (Str, Str) -> bool, fs: seq<Str>, i: nat)
    requires Chained(rel, fs) && i + 1 < |fs|
    ensures rel(fs[i], fs[i + 1])
    decreases i
  {
    if i > 0 {
      ChainedAt(rel, fs[1..], i - 1);
    }
  }

  /** The pages are fetched along the chain of next links. */
  lemma {:induction false} PagesChained(svc: Service, fetch: Fetch, url: Str, n: int)
    ensures Chained(AsksOn(svc, fetch), Pages(svc, fetch, url, n).fetched)
    decreases n
  {
    var c := Pages(svc, fetch, url, n);
    if |c.fetched| > 1 {
      PagesUnfold(svc, fetch, url, n);
      var st := PageScan(svc, fetch, url).value;
      var rest := Pages(svc, fetch, st.url, n - 1);
      PagesChained(svc, fetch, st.url, n - 1);
      assert c.fetched[1..] == rest.fetched;
      assert c.fetched[0] == url && c.fetched[1] == st.url;
      assert AsksOn(svc, fetch)(url, st.url);
    }
  }

  /** Every page after the first was reached through a next link of the page
      before it, one pointing away from that page's URL. */
  lemma PagesFollowNext(svc: Service, fetch: Fetch, url: Str, n: int, i: nat)
    requires i + 1 < |Pages(svc, fetch, url, n).fetched|
    ensures Leads(svc, fetch, Pages(svc, fetch, url, n).fetched[i], Pages(svc, fetch, url, n).fetched[i + 1])
  {
    var c := Pages(svc, fetch, url, n);
    PagesChained(svc, fetch, url, n);
    ChainedAt(AsksOn(svc, fetch), c.fetched, i);
    ScanLeads(svc, fetch, c.fetched[i]);
  }

  /** The result `GetAllPages` returns for a crawl. */
  function Outcome(c: Crawl): (r: Result<seq<Element>, Error>)
    ensures r.Err? <==> c.failure.Some?
    ensures r.Ok? ==> r.value == c.entries
  {
    if c.failure.Some? then Err(c.failure.value) else Ok(c.entries)
  }

  /** The inner loop of `GetAllPages` over the items of the page fetched from
      `goUrl`. */
  method ScanPage(entries: seq<Option<Element>>, goUrl: Str) returns (r: Result<Scan, Error>)
    ensures r == ScanItems(entries, |entries|, goUrl)
  {
    var found: seq<Element> := [];
    var goNext := false;
    var url := goUrl;
    var i := 0;
    while i < |entries|
      invariant 0 <= i <= |entries|
      invariant ScanItems(entries, i, goUrl) == Ok(Scan(found, goNext, url))
    {
      if entries[i].None? {
        return Err(NullReference);
      }
      var entry := entries[i].value;
      if entry.name == EntryMapper.EntryName {
        found := found + [entry];
      }
      if IsNextLink(entry) {
        var goUrlNext := Href(entry);
        if url != goUrlNext {
          goNext := true;
          url := goUrlNext;
        }
      }
      i := i + 1;
    }
    return Ok(Scan(found, goNext, url));
  }

  /** The body of one turn of `GetAllPages`: fetch the page, then scan it. */
  method FetchPage(svc: Service, fetch: Fetch, goUrl: Str) returns (r: Result<Scan, Error>)
    ensures r == PageScan(svc, fetch, goUrl)
  {
    var page := GetPage(svc, fetch, goUrl);
    if page.Err? {
      return Err(page.error);
    }
    r := ScanPage(page.value, goUrl);
  }

  /** `GetAllPages(collection, query, fields, maxIterations)`: starting from
      the collection URL, fetch a page, collect its entries, and move on to
      its next link while one differs from the current URL, for at most
      `maxIterations` pages. `fetched` lists the URLs requested; the entries
      are those of the fetched pages, page after page. */
  method GetAllPages(svc: Service, fetch: Fetch, collection: Str, query: Str, fields: Str, maxIterations: int)
    returns (r: Result<seq<Element>, Error>, fetched: seq<Str>)
    ensures var c := Pages(svc, fetch, Query.AllPagesUrl(svc.serviceUrl, collection, fields, query), maxIterations);
      fetched == c.fetched && r == Outcome(c)
    ensures r.Ok? ==> r.value == Collected(svc, fetch, fetched)
  {
    r, fetched := CrawlLoop(svc, fetch, Query.AllPagesUrl(svc.serviceUrl, collection, fields, query), maxIterations);
    PagesCollect(svc, fetch, Query.AllPagesUrl(svc.serviceUrl, collection, fields, query), maxIterations);
  }

  /** The `while` loop of `GetAllPages` from the URL `start`. */
  method CrawlLoop(svc: Service, fetch: Fetch, start: Str, maxIterations: int)
    returns (r: Result<seq<Element>, Error>, fetched: seq<Str>)
    ensures var c := Pages(svc, fetch, start, maxIterations);
      fetched == c.fetched && r == Outcome(c)
  {
    var result: seq<Element> := [];
    var goNext := true;
    var goUrl := start;
    var iter := 0;
    fetched := [];
    LoopStart(svc, fetch, start, maxIterations);
    while goNext && iter < maxIterations
      invariant 0 <= iter
      invariant Pages(svc, fetch, start, maxIterations) == Extend(result, fetched, Tail(svc, fetch, goNext, goUrl, maxIterations - iter))
      decreases maxIterations - iter
    {
      LoopTurn(svc, fetch, goUrl, maxIterations - iter, result, fetched);
      goNext := false;
      var scan := FetchPage(svc, fetch, goUrl);
      fetched := fetched + [goUrl];
      if scan.Err? {
        r := Err(scan.error);
        return;
      }
      result := result + scan.value.entries;
      goNext := scan.value.go;
      goUrl := scan.value.url;
      iter := iter + 1;
    }
    LoopDone(svc, fetch, goNext, goUrl, maxIterations - iter, result, fetched);
    r := Ok(result);
  }

  /** A `rel="next"` link to `to`. */
  function NextLink(to: Str): Element {
    Element(EntryMapper.LinkName, map[EntryMapper.RelAttr := NextRel, EntryMapper.HrefAttr := to], [], [])
  }

  /** A feed page holding only a next link to `to`. */
  function LinkPage(to: Str): Element {
    Element(FeedName, map[], [], [NextLink(to)])
  }

  lemma LinkPageItems(to: Str)
    ensures PageItems(LinkPage(to)) == Ok([Some(NextLink(to))])
  {
    var link := NextLink(to);
    assert link.name != FeedName by { assert link.name[0] != FeedName[0]; }
    assert CountNamed(link, FeedName) == 0 by {
      assert CountNamedIn(link, FeedName, 0) == 0;
    }
    assert CountNamedIn(LinkPage(to), FeedName, 1) == CountNamedIn(LinkPage(to), FeedName, 0) + CountNamed(link, FeedName);
    assert CountNamed(LinkPage(to), FeedName) == 1;
    assert FeedItems([link][1..]) == [];
    assert FeedItems([link]) == [link];
    assert Lift([link]) == [Some(link)];
  }

  lemma LinkPageScan(to: Str, from: Str)
    ensures ScanItems([Some(NextLink(to))], 1, from) == Ok(Scan([], to != from, if to != from then to else from))
  {
    var link := NextLink(to);
    assert link.name != EntryMapper.EntryName by { assert link.name[0] != EntryMapper.EntryName[0]; }
    assert IsNextLink(link) && Href(link) == to;
  }

  /** Two pages whose next links point at each other are fetched in turn
      until the iteration bound: the loop only refuses a link back to the
      page it is on, not to a page it has already visited. */
  lemma TwoPageCycle(a: Str, b: Str)
    requires a != b
    ensures var fetch: Fetch := u => Document(if u == a then LinkPage(b) else LinkPage(a));
      Pages(Service([], false, 1), fetch, a, 3).fetched == [a, b, a]
  {
    var fetch: Fetch := u => Document(if u == a then LinkPage(b) else LinkPage(a));
    var svc := Service([], false, 1);
    LinkPageItems(a);
    LinkPageItems(b);
    LinkPageScan(b, a);
    LinkPageScan(a, b);
    assert PageScan(svc, fetch, a) == Ok(Scan([], true, b));
    assert PageScan(svc, fetch, b) == Ok(Scan([], true, a));
    assert Pages(svc, fetch, a, 1).fetched == [a];
    assert Pages(svc, fetch, b, 2).fetched == [b, a];
  }

  /** A next link is compared with the URL as the page's earlier links left
      it, not with the URL the page came from: a page at `a` whose next links
      name `b` and then `a` asks for `a` again. */
  lemma BackLinkRefetch(a: Str, b: Str)
    requires a != b
    ensures ScanItems([Some(NextLink(b)), Some(NextLink(a))], 2, a) == Ok(Scan([], true, a))
  {
    var items := [Some(NextLink(b)), Some(NextLink(a))];
    assert NextLink(a).name != EntryMapper.EntryName by { assert NextLink(a).name[0] != EntryMapper.EntryName[0]; }
    assert NextLink(b).name != EntryMapper.EntryName by { assert NextLink(b).name[0] != EntryMapper.EntryName[0]; }
    assert IsNextLink(NextLink(a)) && Href(NextLink(a)) == a;
    assert IsNextLink(NextLink(b)) && Href(NextLink(b)) == b;
    assert ScanItems(items, 1, a) == Ok(Scan([], true, b));
  }

  // ---------------------------------------------------------------------
  // Records from entries

  /** `getObjectFromEntry`: the entry's fields, its media link, and the
      `Id` field as the record's id; an entry without `Id` fails on
      `result["Id"].ToString()`. */
  function ObjectFromEntry(collection: Str, entry: Element, readOnly: bool): (r: Result<Records.Record, Error>)
    ensures r.Err? <==> EntryMapper.EntryFields(entry).Err? || Records.IdKey !in EntryMapper.EntryFields(entry).value
    ensures r.Err? ==> r.error == NullReference
    ensures r.Ok? ==> r.value.data == FromStrings(EntryMapper.EntryFields(entry).value)
    ensures r.Ok? ==> Records.Exists(r.value) && Records.Get(r.value, Records.IdKey) == StrVal(r.value.guid)
    ensures r.Ok? ==> r.value.collection == collection && r.value.readOnly == readOnly && r.value.many == map[]
    ensures r.Ok? ==> r.value.binaryLink == EntryMapper.GetDataLink(entry)
  {
    match EntryMapper.EntryFields(entry)
    case Err(e) => Err(e)
    case Ok(fields) =>
      if Records.IdKey !in fields then Err(NullReference)
      else Ok(Records.Record(fields[Records.IdKey], collection, FromStrings(fields), EntryMapper.GetDataLink(entry), readOnly, map[]))
  }

  /** The first `i` items are present and none of them is an entry. */
  predicate NoEntryBefore(items: seq<Option<Element>>, i: int)
    requires 0 <= i <= |items|
  {
    forall j | 0 <= j < i :: items[j].Some? && items[j].value.name != EntryMapper.EntryName
  }

  /** The first `entry` item of a page, if any; a `null` item before it fails. */
  function FirstEntry(items: seq<Option<Element>>): (r: Result<Option<Element>, Error>)
    ensures r.Err? <==> exists i | 0 <= i < |items| :: items[i].None? && NoEntryBefore(items, i)
    ensures r.Err? ==> r.error == NullReference
    ensures r == Ok(None) <==> NoEntryBefore(items, |items|)
    ensures r.Ok? && r.value.Some? ==> exists i | 0 <= i < |items| ::
      items[i] == r.value && r.value.value.name == EntryMapper.EntryName && NoEntryBefore(items, i)
    decreases |items|
  {
    if items == [] then Ok(None)
    else
      var rest := items[1..];
      assert forall i | 0 <= i < |rest| :: rest[i] == items[i + 1];
      assert forall i | 0 < i <= |items| :: NoEntryBefore(items, i) <==> items[0].Some? && items[0].value.name != EntryMapper.EntryName && NoEntryBefore(rest, i - 1);
      match items[0]
      case None => Err(NullReference)
      case Some(e) =>
        if e.name == EntryMapper.EntryName then Ok(Some(e))
        else
          var r := FirstEntry(rest);
          assert r.Err? ==> exists i | 0 <= i < |items| :: items[i].None? && NoEntryBefore(items, i) by {
            if r.Err? {
              var i :| 0 <= i < |rest| && rest[i].None? && NoEntryBefore(rest, i);
              assert items[i + 1].None? && NoEntryBefore(items, i + 1);
            }
          }
          assert r.Ok? && r.value.Some? ==> exists i | 0 <= i < |items| ::
            items[i] == r.value && r.value.value.name == EntryMapper.EntryName && NoEntryBefore(items, i) by {
            if r.Ok? && r.value.Some? {
              var i :| 0 <= i < |rest| && rest[i] == r.value && r.value.value.name == EntryMapper.EntryName && NoEntryBefore(rest, i);
              assert items[i + 1] == r.value && NoEntryBefore(items, i + 1);
            }
          }
          r
  }

  /** `GetFirstItemByUniqueField`: the first entry of the filtered page as a
      record, or `null`. */
  function GetFirstItemByUniqueField(svc: Service, fetch: Fetch, collection: Str, field: Str, value: Str, mode: Str)
    : (r: Result<Option<Records.Record>, Error>)
    ensures r.Ok? && r.value.Some? ==> Records.Exists(r.value.value) && !r.value.value.readOnly
    ensures var p := GetPage(svc, fetch, Query.UniqueFieldUrl(svc.serviceUrl, collection, field, value, mode));
      (p.Err? ==> r == Err(p.error))
      && (p.Ok? && FirstEntry(p.value).Err? ==> r == Err(NullReference))
      && (p.Ok? && FirstEntry(p.value) == Ok(None) ==> r == Ok(None))
    ensures var p := GetPage(svc, fetch, Query.UniqueFieldUrl(svc.serviceUrl, collection, field, value, mode));
      p.Ok? && FirstEntry(p.value).Ok? && FirstEntry(p.value).value.Some? ==>
        var o := ObjectFromEntry(collection, FirstEntry(p.value).value.value, false);
        (r.Ok? <==> o.Ok?) && (r.Ok? ==> r.value == Some(o.value))
  {
    var items :- GetPage(svc, fetch, Query.UniqueFieldUrl(svc.serviceUrl, collection, field, value, mode));
    var first :- FirstEntry(items);
    match first
    case None => Ok(None)
    case Some(e) =>
      var o :- ObjectFromEntry(collection, e, false);
      Ok(Some(o))
  }

  /** The records of the `entry` items among the first `n` items, in order.
      Building fails when an item is `null` or an entry cannot be read;
      `RecordsOfEntries` states which records come out. */
  function RecordsOf(collection: Str, items: seq<Option<Element>>, n: nat, readOnly: bool): (r: Result<seq<Records.Record>, Error>)
    requires n <= |items|
    ensures r.Err? ==> r.error == NullReference
    ensures r.Ok? ==> forall i | 0 <= i < |r.value| ::
      Records.Exists(r.value[i]) && r.value[i].readOnly == readOnly && r.value[i].collection == collection
    decreases n
  {
    if n == 0 then Ok([])
    else
      var prior :- RecordsOf(collection, items, n - 1, readOnly);
      match items[n - 1]
      case None => Err(NullReference)
      case Some(e) =>
        if e.name != EntryMapper.EntryName then Ok(prior)
        else
          var o :- ObjectFromEntry(collection, e, readOnly);
          Ok(prior + [o])
  }

  /** Building the records of the first `n` items succeeds exactly when none
      of them is `null` and every entry among them reads as an object; record
      `i` is then the object read from entry `i`. */
  predicate ReadsEntries(collection: Str, items: seq<Option<Element>>, n: nat, readOnly: bool)
    requires n <= |items|
  {
    var r := RecordsOf(collection, items, n, readOnly);
    var es := EntriesOf(items[..n]);
    (r.Ok? <==> (forall i | 0 <= i < n :: items[i].Some?) && (forall i | 0 <= i < |es| :: ObjectFromEntry(collection, es[i], readOnly).Ok?))
    && (r.Ok? ==> |r.value| == |es| && forall i | 0 <= i < |es| :: Ok(r.value[i]) == ObjectFromEntry(collection, es[i], readOnly))
  }

  lemma {:induction false} RecordsOfEntries(collection: Str, items: seq<Option<Element>>, n: nat, readOnly: bool)
    requires n <= |items|
    ensures ReadsEntries(collection, items, n, readOnly)
    decreases n
  {
    if n == 0 {
      assert items[..0] == [];
    } else {
      RecordsOfEntries(collection, items, n - 1, readOnly);
      assert items[..n][..n - 1] == items[..n - 1];
      var prior := RecordsOf(collection, items, n - 1, readOnly);
      if prior.Err? || items[n - 1].None? {
        RecordsOfFailStep(collection, items, n, readOnly);
      } else if items[n - 1].value.name != EntryMapper.EntryName {
        RecordsOfSkipStep(collection, items, n, readOnly);
      } else if ObjectFromEntry(collection, items[n - 1].value, readOnly).Err? {
        RecordsOfFailStep(collection, items, n, readOnly);
      } else {
        RecordsOfEntryStep(collection, items, n, readOnly);
      }
    }
  }

  /** One item more, when the prefix fails, the item is `null` or the entry
      cannot be read. */
  lemma RecordsOfFailStep(collection: Str, items: seq<Option<Element>>, n: nat, readOnly: bool)
    requires 0 < n <= |items| && ReadsEntries(collection, items, n - 1, readOnly)
    requires items[..n][..n - 1] == items[..n - 1]
    requires RecordsOf(collection, items, n - 1, readOnly).Err? || items[n - 1].None?
      || (items[n - 1].value.name == EntryMapper.EntryName && ObjectFromEntry(collection, items[n - 1].value, readOnly).Err?)
    ensures ReadsEntries(collection, items, n, readOnly)
  {
    var es0 := EntriesOf(items[..n - 1]);
    var es := EntriesOf(items[..n]);
    assert |es0| <= |es| && es[..|es0|] == es0;
    assert RecordsOf(collection, items, n, readOnly).Err?;
    if items[n - 1].None? {
      assert !items[n - 1].Some?;
    } else if RecordsOf(collection, items, n - 1, readOnly).Err? {
      if forall i | 0 <= i < n - 1 :: items[i].Some? {
        var j :| 0 <= j < |es0| && ObjectFromEntry(collection, es0[j], readOnly).Err?;
        assert es[j] == es0[j];
      }
    } else {
      assert es == es0 + [items[n - 1].value];
      assert ObjectFromEntry(collection, es[|es0|], readOnly).Err?;
    }
  }

  /** One item more, when it is not an entry. */
  lemma RecordsOfSkipStep(collection: Str, items: seq<Option<Element>>, n: nat, readOnly: bool)
    requires 0 < n <= |items| && ReadsEntries(collection, items, n - 1, readOnly)
    requires items[..n][..n - 1] == items[..n - 1]
    requires RecordsOf(collection, items, n - 1, readOnly).Ok? && items[n - 1].Some?
    requires items[n - 1].value.name != EntryMapper.EntryName
    ensures ReadsEntries(collection, items, n, readOnly)
  {
    assert EntriesOf(items[..n]) == EntriesOf(items[..n - 1]);
    assert RecordsOf(collection, items, n, readOnly) == RecordsOf(collection, items, n - 1, readOnly);
  }

  /** One item more, when it is an entry that reads as an object. */
  lemma RecordsOfEntryStep(collection: Str, items: seq<Option<Element>>, n: nat, readOnly: bool)
    requires 0 < n <= |items| && ReadsEntries(collection, items, n - 1, readOnly)
    requires items[..n][..n - 1] == items[..n - 1]
    requires RecordsOf(collection, items, n - 1, readOnly).Ok? && items[n - 1].Some?
    requires items[n - 1].value.name == EntryMapper.EntryName
    requires ObjectFromEntry(collection, items[n - 1].value, readOnly).Ok?
    ensures ReadsEntries(collection, items, n, readOnly)
  {
    var e := items[n - 1].value;
    var es0 := EntriesOf(items[..n - 1]);
    var es := EntriesOf(items[..n]);
    assert es == es0 + [e];
    var prior := RecordsOf(collection, items, n - 1, readOnly).value;
    var o := ObjectFromEntry(collection, e, readOnly).value;
    var r := RecordsOf(collection, items, n, readOnly);
    assert r == Ok(prior + [o]);
    forall i | 0 <= i < |es| ensures Ok(r.value[i]) == ObjectFromEntry(collection, es[i], readOnly) {
      if i < |es0| {
        assert r.value[i] == prior[i] && es[i] == es0[i];
      }
    }
  }

  /** `GetSomeLimitedItemsByQuery`: one page of the restricted query; its
      records are read-only. */
  function GetSomeLimitedItemsByQuery(svc: Service, fetch: Fetch, collection: Str, query: Str, fields: Str, skip: int)
    : (r: Result<seq<Records.Record>, Error>)
    ensures r.Ok? ==> forall i | 0 <= i < |r.value| :: r.value[i].readOnly && Records.Exists(r.value[i])
    ensures var p := GetPage(svc, fetch, Query.LimitedUrl(svc.serviceUrl, collection, query, fields, skip));
      p.Err? ==> r == Err(p.error)
    ensures var p := GetPage(svc, fetch, Query.LimitedUrl(svc.serviceUrl, collection, query, fields, skip));
      p.Ok? ==> var es := EntriesOf(p.value);
        (r.Ok? <==> (forall i | 0 <= i < |p.value| :: p.value[i].Some?) && (forall i | 0 <= i < |es| :: ObjectFromEntry(collection, es[i], true).Ok?))
        && (r.Ok? ==> |r.value| == |es| && forall i | 0 <= i < |es| :: Ok(r.value[i]) == ObjectFromEntry(collection, es[i], true))
  {
    var items :- GetPage(svc, fetch, Query.LimitedUrl(svc.serviceUrl, collection, query, fields, skip));
    assert items[..|items|] == items;
    RecordsOfEntries(collection, items, |items|, true);
    RecordsOf(collection, items, |items|, true)
  }

  /** `GetAllLimitedItemsByQuery`: every page of the restricted query, the
      `$expand` list appended to the filter; its records are read-only. */
  method GetAllLimitedItemsByQuery(svc: Service, fetch: Fetch, collection: Str, query: Str, fields: Str, maxIterations: int)
    returns (r: Result<seq<Records.Record>, Error>)
    ensures var c := Pages(svc, fetch,
        Query.AllPagesUrl(svc.serviceUrl, collection, Query.SelectFields(fields), Query.AllLimitedQuery(query, fields)), maxIterations);
      (c.failure.Some? ==> r == Err(c.failure.value))
      && (c.failure.None? ==> r == RecordsOf(collection, Lift(c.entries), |c.entries|, true))
    ensures r.Ok? ==> forall i | 0 <= i < |r.value| :: r.value[i].readOnly
  {
    var entries, _ := GetAllPages(svc, fetch, collection, Query.AllLimitedQuery(query, fields), Query.SelectFields(fields), maxIterations);
    if entries.Err? {
      return Err(entries.error);
    }
    r := RecordsOf(collection, Lift(entries.value), |entries.value|, true);
  }

  /** Entry `i` is an entry whose `field` reads `k`. */
  predicate KeyedBy(entries: seq<Element>, field: Str, i: int, k: Str)
    requires 0 <= i < |entries|
  {
    entries[i].name == EntryMapper.EntryName
    && EntryMapper.EntryFields(entries[i]).Ok?
    && field in EntryMapper.EntryFields(entries[i]).value
    && EntryMapper.EntryFields(entries[i]).value[field] == k
  }

  /** The dictionary `GetDictionaryByUniqueField` builds from the first `n`
      entries: each record under its `field` value, a later one replacing an
      earlier one. */
  function IndexEntries(collection: Str, entries: seq<Element>, field: Str, n: nat): (r: Result<map<Str, Records.Record>, Error>)
    requires n <= |entries|
    ensures r.Ok? ==> forall k | k in r.value :: Records.Get(r.value[k], field) == StrVal(k)
    decreases n
  {
    if n == 0 then Ok(map[])
    else
      var m :- IndexEntries(collection, entries, field, n - 1);
      var e := entries[n - 1];
      if e.name != EntryMapper.EntryName then Ok(m)
      else
        var o :- ObjectFromEntry(collection, e, false);
        if field in o.data then Ok(m[Render(o.data[field]) := o]) else Ok(m)
  }

  /** One more entry: it takes over its own key and leaves the others. */
  lemma IndexStep(collection: Str, entries: seq<Element>, field: Str, n: nat, k: Str)
    requires 0 < n <= |entries| && IndexEntries(collection, entries, field, n).Ok?
    ensures IndexEntries(collection, entries, field, n - 1).Ok?
    ensures var m := IndexEntries(collection, entries, field, n).value;
      KeyedBy(entries, field, n - 1, k) ==> k in m && Ok(m[k]) == ObjectFromEntry(collection, entries[n - 1], false)
    ensures var m := IndexEntries(collection, entries, field, n).value;
      var m0 := IndexEntries(collection, entries, field, n - 1).value;
      !KeyedBy(entries, field, n - 1, k) ==> (k in m <==> k in m0) && (k in m0 ==> m[k] == m0[k])
  {
    var e := entries[n - 1];
    if e.name == EntryMapper.EntryName {
      var o := ObjectFromEntry(collection, e, false).value;
      assert field in o.data <==> field in EntryMapper.EntryFields(e).value;
      if field in o.data {
        assert Render(o.data[field]) == EntryMapper.EntryFields(e).value[field];
      }
    }
  }

  /** The dictionary holds a key exactly when some entry's field has that
      value, and under it the record of the last such entry. */
  lemma {:induction false} IndexLastWins(collection: Str, entries: seq<Element>, field: Str, n: nat, k: Str)
    requires n <= |entries| && IndexEntries(collection, entries, field, n).Ok?
    ensures var m := IndexEntries(collection, entries, field, n).value;
      k in m <==> exists i | 0 <= i < n :: KeyedBy(entries, field, i, k)
    ensures var m := IndexEntries(collection, entries, field, n).value;
      forall i | 0 <= i < n && KeyedBy(entries, field, i, k) && (forall j | i < j < n :: !KeyedBy(entries, field, j, k)) ::
        k in m && Ok(m[k]) == ObjectFromEntry(collection, entries[i], false)
    decreases n
  {
    if n > 0 {
      IndexLastWins(collection, entries, field, n - 1, k);
      IndexStep(collection, entries, field, n, k);
      if !KeyedBy(entries, field, n - 1, k) {
        var m := IndexEntries(collection, entries, field, n).value;
        forall i | 0 <= i < n && KeyedBy(entries, field, i, k) && (forall j | i < j < n :: !KeyedBy(entries, field, j, k))
          ensures k in m && Ok(m[k]) == ObjectFromEntry(collection, entries[i], false)
        {
          assert i < n - 1;
        }
      }
    }
  }

  /** `GetDictionaryByUniqueField(collection, field, query, maxIterations)`. */
  method GetDictionaryByUniqueField(svc: Service, fetch: Fetch, collection: Str, field: Str, query: Str, maxIterations: int)
    returns (r: Result<map<Str, Records.Record>, Error>)
    ensures var c := Pages(svc, fetch, Query.AllPagesUrl(svc.serviceUrl, collection, [], query), maxIterations);
      (c.failure.Some? ==> r == Err(c.failure.value))
      && (c.failure.None? ==> r == IndexEntries(collection, c.entries, field, |c.entries|))
  {
    var entries, _ := GetAllPages(svc, fetch, collection, query, [], maxIterations);
    if entries.Err? {
      return Err(entries.error);
    }
    r := IndexEntries(collection, entries.value, field, |entries.value|);
  }

  // ---------------------------------------------------------------------
  // Writes

  /** A request other than a GET: the create and update payloads carry the
      field map they are built from (see `Body`). */
  datatype Request =
      Post(url: Str, fields: Data)
    | Put(url: Str, fields: Data)
    | PutBinary(url: Str, bytes: seq<Numbers.byte>)
    | Delete(url: Str)

  /** The server's answer: a failed request, or the status code and the
      `Location` header. */
  datatype Reply = Failed | Done(status: int, location: Option<Str>)

  type Server = Request -> Reply

  /** The outcome of one call: the requests it sent (none when it fails
      before building one) and what it returns. */
  datatype Call<T> = Call(sent: seq<Request>, result: Result<T, Error>)

  const Created: int := 201
  const Unknown: Str := Lit("?")
  const OkText: Str := Lit("ok")
  const Uploaded: Str := Lit("OK")
  const ItemOpen: Str := Lit("Collection(guid'")
  const ItemClose: Str := Lit("')")

  /** `serviceUrl + Collection + "Collection(guid'" + Guid + "')"`: the
      collection's address, then the guid between the quotes. */
  function ItemUrl(svc: Service, collection: Str, guid: Str): (r: Str)
    ensures StartsWith(r, svc.serviceUrl + collection + ItemOpen) && EndsWith(r, ItemClose)
    ensures |r| == |svc.serviceUrl + collection + ItemOpen| + |guid| + |ItemClose|
    ensures r[|svc.serviceUrl + collection + ItemOpen|..|r| - |ItemClose|] == guid
  {
    var p := svc.serviceUrl + collection + ItemOpen;
    var r := p + guid + ItemClose;
    assert r[..|p|] == p && r[|r| - |ItemClose|..] == ItemClose;
    assert r[|p|..|r| - |ItemClose|] == guid;
    r
  }

  /** Distinct guids address distinct items of a collection. */
  lemma ItemUrlInjective(svc: Service, collection: Str, g1: Str, g2: Str)
    requires ItemUrl(svc, collection, g1) == ItemUrl(svc, collection, g2)
    ensures g1 == g2
  {
  }

  /** `serviceUrl + Collection + "Collection/"`, where `AddItem` posts. */
  function CreateUrl(svc: Service, collection: Str): (r: Str)
    ensures StartsWith(r, svc.serviceUrl + collection) && EndsWith(r, Lit("Collection/"))
  {
    var p := svc.serviceUrl + collection;
    var r := p + Lit("Collection/");
    assert r[..|p|] == p && r[|r| - 11..] == Lit("Collection/");
    r
  }

  /** A create never goes to an item's URL: the POST and PUT targets differ. */
  lemma CreateUrlIsNoItemUrl(svc: Service, collection: Str, other: Str, guid: Str)
    ensures CreateUrl(svc, collection) != ItemUrl(svc, other, guid) + Lit("/")
  {
    var a := CreateUrl(svc, collection);
    var b := ItemUrl(svc, other, guid) + Lit("/");
    assert a[|a| - 2] == Unit('n');
    assert b[|b| - 2] == ItemClose[1];
  }

  /** The Atom entry sent for a request, for the dictionary enumerated in the
      order `keys`. The tree carries the `d:` and `m:` prefixes of the
      service's own serialisation: it is the entry as the service reads it
      and serves it back. */
  function Body(req: Request, keys: seq<Str>): Element
    requires req.Post? || req.Put?
    requires forall i | 0 <= i < |keys| :: keys[i] in req.fields
  {
    if req.Post? then Payload.EntryDocument(Payload.CreateProperties(keys, req.fields))
    else Payload.EntryDocument(Payload.UpdateProperties(keys, req.fields))
  }

  /** Whatever the enumeration order, the entry a write sends reads back as
      its non-null fields. */
  lemma BodyReadsBack(req: Request, keys: seq<Str>)
    requires req.Post? || req.Put?
    requires Payload.Enumerates(keys, req.fields) && Payload.PlainKeys(keys)
    ensures EntryMapper.EntryFields(Body(req, keys)) == Ok(Payload.Readable(req.fields))
  {
    if req.Post? {
      Payload.CreateRoundTrip(keys, req.fields);
    } else {
      Payload.UpdateRoundTrip(keys, req.fields);
    }
  }

  /** A record read from an entry the client wrote carries the written
      fields: the non-null ones, as their sanitised text. */
  lemma WrittenRecordReadsBack(req: Request, keys: seq<Str>, collection: Str)
    requires req.Post? || req.Put?
    requires Payload.Enumerates(keys, req.fields) && Payload.PlainKeys(keys)
    requires Records.IdKey in Payload.Readable(req.fields)
    ensures ObjectFromEntry(collection, Body(req, keys), false).Ok?
    ensures ObjectFromEntry(collection, Body(req, keys), false).value.data == FromStrings(Payload.Readable(req.fields))
  {
    BodyReadsBack(req, keys);
  }

  /** `AddItem(Collection, data)`: build the create payload, whose element
      names are the keys of the non-null fields, then POST it; a `201
      Created` returns the `Location` header (`null` when absent), any other
      success returns `?`. A key that is not a name raises before the
      request is made. */
  function AddItem(svc: Service, server: Server, collection: Str, data: Data): (c: Call<Option<Str>>)
    ensures !Payload.CreateNamesValid(data) ==> c == Call([], Err(InvalidName))
    ensures var req := Post(CreateUrl(svc, collection), data);
      Payload.CreateNamesValid(data) ==> c.sent == [req] && (c.result.Err? <==> server(req).Failed?)
    ensures var req := Post(CreateUrl(svc, collection), data);
      Payload.CreateNamesValid(data) && c.result.Err? ==> c.result.error == Web(req.url)
    ensures var req := Post(CreateUrl(svc, collection), data);
      Payload.CreateNamesValid(data) && server(req).Done? && server(req).status != Created ==> c.result == Result.Ok(Some(Unknown))
    ensures var req := Post(CreateUrl(svc, collection), data);
      Payload.CreateNamesValid(data) && server(req).Done? && server(req).status == Created ==> c.result == Result.Ok(server(req).location)
  {
    if !Payload.CreateNamesValid(data) then Call([], Err(InvalidName))
    else
      var req := Post(CreateUrl(svc, collection), data);
      match server(req)
      case Failed => Call([req], Err(Web(req.url)))
      case Done(status, location) => Call([req], Result.Ok(if status == Created then location else Some(Unknown)))
  }

  /** `UpdateItem(Collection, Guid, data)`: build the update payload, whose
      element names are all the keys, then PUT it to the item's URL;
      success returns `ok`. A key that is not a name raises before the
      request is made. */
  function UpdateItem(svc: Service, server: Server, collection: Str, guid: Str, data: Data): (c: Call<Str>)
    ensures !Payload.UpdateNamesValid(data) ==> c == Call([], Err(InvalidName))
    ensures var req := Put(ItemUrl(svc, collection, guid) + Lit("/"), data);
      Payload.UpdateNamesValid(data) ==> c.sent == [req] && (c.result.Err? <==> server(req).Failed?)
    ensures var req := Put(ItemUrl(svc, collection, guid) + Lit("/"), data);
      Payload.UpdateNamesValid(data) && c.result.Err? ==> c.result.error == Web(req.url)
    ensures c.result.Ok? ==> c.result.value == OkText
  {
    if !Payload.UpdateNamesValid(data) then Call([], Err(InvalidName))
    else
      var req := Put(ItemUrl(svc, collection, guid) + Lit("/"), data);
      if server(req).Failed? then Call([req], Err(Web(req.url))) else Call([req], Result.Ok(OkText))
  }

  /** An update the client actually sends reads back as its readable fields
      in any enumeration order: the name check has ruled out keys with a
      colon. */
  lemma SentUpdateReadsBack(svc: Service, server: Server, collection: Str, guid: Str, data: Data, keys: seq<Str>)
    requires Payload.Enumerates(keys, data)
    requires UpdateItem(svc, server, collection, guid, data).sent != []
    ensures EntryMapper.EntryFields(Body(UpdateItem(svc, server, collection, guid, data).sent[0], keys)) == Ok(Payload.Readable(data))
  {
    Payload.ValidNamesArePlain(keys, data);
    BodyReadsBack(UpdateItem(svc, server, collection, guid, data).sent[0], keys);
  }

  /** `DeleteItem(Collection, Guid)`. */
  function DeleteItem(svc: Service, server: Server, collection: Str, guid: Str): (c: Call<()>)
    ensures var req := Delete(ItemUrl(svc, collection, guid) + Lit("/"));
      c.sent == [req] && (c.result.Err? <==> server(req).Failed?) && (c.result.Err? ==> c.result.error == Web(req.url))
  {
    var req := Delete(ItemUrl(svc, collection, guid) + Lit("/"));
    if server(req).Failed? then Call([req], Err(Web(req.url))) else Call([req], Result.Ok(()))
  }

  /** `DeleteLink(Collection, Guid, CollectionTo)`: DELETE the `$links` URL. */
  function DeleteLink(svc: Service, server: Server, collection: Str, guid: Str, collectionTo: Str): (c: Call<()>)
    ensures var req := Delete(ItemUrl(svc, collection, guid) + Lit("/$links/") + collectionTo);
      c.sent == [req] && (c.result.Err? <==> server(req).Failed?) && (c.result.Err? ==> c.result.error == Web(req.url))
  {
    var req := Delete(ItemUrl(svc, collection, guid) + Lit("/$links/") + collectionTo);
    if server(req).Failed? then Call([req], Err(Web(req.url))) else Call([req], Result.Ok(()))
  }

  /** A SHA-256 digest: 32 bytes. */
  type Digest = d: seq<Numbers.byte> | |d| == 32 witness seq(32, i => 0 as Numbers.byte)

  /** The hash function, which the model does not compute. */
  type Hasher = seq<Numbers.byte> -> Digest

  /** `UploadBinary(Collection, Guid, bytes, returnSHA256)`: PUT the bytes to
      the item's `Data`; success returns the upper-case hexadecimal SHA-256 of
      the bytes, or `OK`. */
  function UploadBinary(svc: Service, server: Server, sha: Hasher, collection: Str, guid: Str, bytes: seq<Numbers.byte>, returnSha: bool)
    : (c: Call<Str>)
    ensures var req := PutBinary(ItemUrl(svc, collection, guid) + Lit("/Data"), bytes);
      c.sent == [req] && (c.result.Err? <==> server(req).Failed?) && (c.result.Err? ==> c.result.error == Web(req.url))
    ensures c.result.Ok? && returnSha ==> |c.result.value| == 64 && Numbers.HexDecode(c.result.value) == Some(sha(bytes))
    ensures c.result.Ok? && returnSha ==> c.result.value == Numbers.HexUpper(sha(bytes))
    ensures c.result.Ok? && !returnSha ==> c.result.value == Uploaded
    ensures c.result.Ok? ==> c.result.value != []
  {
    var req := PutBinary(ItemUrl(svc, collection, guid) + Lit("/Data"), bytes);
    if server(req).Failed? then Call([req], Err(Web(req.url)))
    else if returnSha then
      Numbers.HexRoundTrip(sha(bytes));
      Call([req], Result.Ok(Numbers.HexUpper(sha(bytes))))
    else Call([req], Result.Ok(Uploaded))
  }
}
