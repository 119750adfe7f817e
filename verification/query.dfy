/** The OData URLs the client builds: `$select` lists that always start with
    `Id`, the `$expand` list derived from slashed field paths, `$filter`
    joins, equality literals and the https rewrite. */
module Query {
  import opened Wrappers
  import opened Text
  import Numbers

  const Slash: u16 := 0x2F
  const Amp: u16 := 0x26
  const Apos: u16 := 0x27
  /** The separators the field list is split on: comma, semicolon, space. */
  const FieldSeps: set<u16> := {0x2C, 0x3B, 0x20}
  const IdPrefix: Str := Lit("Id,")
  const ExpandSep: Str := Lit(", ")
  const CollectionSuffix: Str := Lit("Collection")
  const SelectParam: Str := Lit("$select=")
  const FilterParam: Str := Lit("$filter=")
  /** The filter used when the caller gives none. */
  const TrueFilter: Str := Lit("1 eq 1")
  const HttpScheme: Str := Lit("http://")
  const HttpsScheme: Str := Lit("https://")

  /** The `$select` list: `Id,` is put in front unless the list starts with it. */
  function SelectFields(fields: Str): (r: Str)
    ensures StartsWith(r, IdPrefix)
    ensures StartsWith(fields, IdPrefix) ==> r == fields
    ensures !StartsWith(fields, IdPrefix) ==> r[|IdPrefix|..] == fields
  {
    if StartsWith(fields, IdPrefix) then fields else IdPrefix + fields
  }

  lemma SelectFieldsIdempotent(fields: Str)
    ensures SelectFields(SelectFields(fields)) == SelectFields(fields)
  {
  }

  /** The object path of a slashed field: everything before its last slash. */
  function Target(f: Str): (r: Str)
    requires Slash in f
    ensures |r| < |f| && f[..|r|] == r && f[|r|] == Slash && Slash !in f[|r| + 1..]
  {
    var i := LastIndex(f, Slash);
    var after := f[i + 1..];
    assert Slash !in after by {
      forall j | 0 <= j < |after| ensures after[j] != Slash {
        assert after[j] == f[i + 1 + j];
      }
    }
    f[..i]
  }

  /** The object paths of the slashed fields, in order, repeats included. */
  function Targets(tokens: seq<Str>): seq<Str>
    decreases |tokens|
  {
    if tokens == [] then []
    else
      var f := tokens[|tokens| - 1];
      Targets(tokens[..|tokens| - 1]) + (if Slash in f then [Target(f)] else [])
  }

  /** The reference: each value once, in the order of first appearance. */
  function Dedup(xs: seq<Str>): (r: seq<Str>)
    decreases |xs|
  {
    if xs == [] then []
    else
      var prev := Dedup(xs[..|xs| - 1]);
      var x := xs[|xs| - 1];
      if x in prev then prev else prev + [x]
  }

  predicate NoDuplicates(xs: seq<Str>) {
    forall i, j | 0 <= i < j < |xs| :: xs[i] != xs[j]
  }

  lemma {:induction false} DedupShape(xs: seq<Str>)
    ensures NoDuplicates(Dedup(xs))
    ensures forall x :: x in Dedup(xs) <==> x in xs
    decreases |xs|
  {
    if xs != [] {
      var init := xs[..|xs| - 1];
      DedupShape(init);
      assert xs == init + [xs[|xs| - 1]];
    }
  }

  /** The state of the `$expand` loop: the paths added (`willexpand`) and
      the text built (`toexpand`). */
  datatype ExpandState = ExpandState(seen: seq<Str>, text: Str)

  /** The `$expand` loop over the first tokens of the field list. */
  function ExpandOver(tokens: seq<Str>): (st: ExpandState)
    decreases |tokens|
  {
    if tokens == [] then ExpandState([], [])
    else
      var st := ExpandOver(tokens[..|tokens| - 1]);
      var f := tokens[|tokens| - 1];
      if Slash !in f then st
      else
        var obj := Target(f);
        if obj in st.seen then st
        else ExpandState(st.seen + [obj], (if st.text != [] then st.text + ExpandSep else st.text) + obj)
  }

  /** `toexpand` for a (prefixed) field list. */
  function ExpandList(fields: Str): Str {
    if Slash in fields then ExpandOver(Split(fields, FieldSeps)).text else []
  }

  /** The loop adds each distinct object path once, in first-seen order. */
  lemma {:induction false} ExpandSeenIsDedup(tokens: seq<Str>)
    ensures ExpandOver(tokens).seen == Dedup(Targets(tokens))
    decreases |tokens|
  {
    if tokens != [] {
      var init := tokens[..|tokens| - 1];
      ExpandSeenIsDedup(init);
      var f := tokens[|tokens| - 1];
      if Slash in f {
        assert Targets(tokens) == Targets(init) + [Target(f)];
        assert Targets(tokens)[..|Targets(tokens)| - 1] == Targets(init);
      } else {
        assert Targets(tokens) == Targets(init);
      }
    }
  }

  ghost predicate NonEmptyAll(xs: seq<Str>) {
    forall i | 0 <= i < |xs| :: xs[i] != []
  }

  lemma {:induction false} JoinNonEmpty(sep: Str, xs: seq<Str>)
    requires NonEmptyAll(xs)
    ensures Join(sep, xs) == [] <==> xs == []
    decreases |xs|
  {
    if |xs| > 1 {
      JoinNonEmpty(sep, xs[..|xs| - 1]);
    }
  }

  /** When no object path is empty, the text is the paths joined by `", "`. */
  lemma {:induction false} ExpandTextIsJoin(tokens: seq<Str>)
    requires NonEmptyAll(ExpandOver(tokens).seen)
    ensures ExpandOver(tokens).text == Join(ExpandSep, ExpandOver(tokens).seen)
    decreases |tokens|
  {
    if tokens != [] {
      var init := tokens[..|tokens| - 1];
      var st := ExpandOver(init);
      var f := tokens[|tokens| - 1];
      if Slash in f && Target(f) !in st.seen {
        var seen := st.seen + [Target(f)];
        assert seen[..|seen| - 1] == st.seen;
        assert NonEmptyAll(st.seen);
        ExpandTextIsJoin(init);
        JoinNonEmpty(ExpandSep, st.seen);
      } else {
        ExpandTextIsJoin(init);
      }
    }
  }

  /** Every token of a field list without a slash is slash-free, so it
      yields no `$expand`. */
  lemma {:induction false} NoSlashNoTargets(tokens: seq<Str>)
    requires forall i | 0 <= i < |tokens| :: Slash !in tokens[i]
    ensures ExpandOver(tokens) == ExpandState([], [])
    decreases |tokens|
  {
    if tokens != [] {
      NoSlashNoTargets(tokens[..|tokens| - 1]);
    }
  }

  /** `$expand` names each distinct object path of the field list exactly
      once, in first-seen order; joined by `", "` when none is empty; and a
      field list without a slash has none. */
  lemma ExpandListShape(fields: Str)
    ensures Slash !in fields ==> ExpandList(fields) == []
    ensures var st := ExpandOver(Split(fields, FieldSeps));
      st.seen == Dedup(Targets(Split(fields, FieldSeps)))
      && NoDuplicates(st.seen)
      && (forall x :: x in st.seen <==> x in Targets(Split(fields, FieldSeps)))
      && (Slash in fields && NonEmptyAll(st.seen) ==> ExpandList(fields) == Join(ExpandSep, st.seen))
  {
    var tokens := Split(fields, FieldSeps);
    ExpandSeenIsDedup(tokens);
    DedupShape(Targets(tokens));
    if NonEmptyAll(ExpandOver(tokens).seen) {
      ExpandTextIsJoin(tokens);
    }
  }

  /** The URL `GetAllPages` starts from: `$select` when fields are given,
      `$filter` when a query is given, joined by `&`. */
  function AllPagesUrl(serviceUrl: Str, collection: Str, fields: Str, query: Str): (r: Str)
    ensures StartsWith(r, serviceUrl + collection + CollectionSuffix)
  {
    var base := serviceUrl + collection + CollectionSuffix;
    var r := base + QueryString(fields, query);
    assert r[..|base|] == base;
    r
  }

  /** The first page URL of a crawl reads back as its field list and filter,
      provided the field list holds no `&`. */
  lemma AllPagesUrlReadsBack(serviceUrl: Str, collection: Str, fields: Str, query: Str)
    requires Amp !in fields
    ensures var base := serviceUrl + collection + CollectionSuffix;
      ParseQueryString(AllPagesUrl(serviceUrl, collection, fields, query)[|base|..]) == Some((fields, query))
  {
    var base := serviceUrl + collection + CollectionSuffix;
    assert AllPagesUrl(serviceUrl, collection, fields, query)[|base|..] == QueryString(fields, query);
    QueryStringRoundTrip(fields, query);
  }

  function QueryString(fields: Str, query: Str): (r: Str)
    ensures fields == [] && query == [] <==> r == []
  {
    (if fields != [] then Lit("?") + SelectParam + fields else [])
    + (if query != [] then (if fields != [] then Lit("&") else Lit("?")) + FilterParam + query else [])
  }

  /** The first index of `u` in `s`, or `|s|`. */
  function IndexOf(s: Str, u: u16): (r: nat)
    ensures r <= |s| && u !in s[..r] && (r < |s| ==> s[r] == u)
    decreases |s|
  {
    if s == [] then 0 else if s[0] == u then 0
    else
      var r := IndexOf(s[1..], u) + 1;
      assert s[..r] == [s[0]] + s[1..][..r - 1];
      r
  }

  lemma {:induction false} IndexOfAfter(a: Str, b: Str, u: u16)
    requires u !in a && |b| > 0 && b[0] == u
    ensures IndexOf(a + b, u) == |a|
    decreases |a|
  {
    if a != [] {
      assert (a + b)[1..] == a[1..] + b;
      IndexOfAfter(a[1..], b, u);
    }
  }

  /** Reads `fields` and `query` back from a query string. */
  function ParseQueryString(qs: Str): Option<(Str, Str)> {
    if qs == [] then Some(([], []))
    else if StartsWith(qs, Lit("?") + SelectParam) then
      var rest := qs[|SelectParam| + 1..];
      var i := IndexOf(rest, Amp);
      if i == |rest| then (if rest == [] then None else Some((rest, [])))
      else if i > 0 && StartsWith(rest[i..], Lit("&") + FilterParam) && |rest| > i + 1 + |FilterParam| then
        Some((rest[..i], rest[i + 1 + |FilterParam|..]))
      else None
    else if StartsWith(qs, Lit("?") + FilterParam) && |qs| > |FilterParam| + 1 then
      Some(([], qs[|FilterParam| + 1..]))
    else None
  }

  /** The `$select`/`$filter` join loses nothing: both parts are read back,
      provided the field list has no `&`. */
  lemma QueryStringRoundTrip(fields: Str, query: Str)
    requires Amp !in fields
    ensures ParseQueryString(QueryString(fields, query)) == Some((fields, query))
  {
    var qs := QueryString(fields, query);
    var sel := Lit("?") + SelectParam;
    var fil := Lit("?") + FilterParam;
    if fields != [] {
      assert qs[..|sel|] == sel;
      var rest := qs[|SelectParam| + 1..];
      if query == [] {
        assert rest == fields;
      } else {
        var tail := Lit("&") + FilterParam + query;
        assert rest == fields + tail;
        assert rest[..|fields|] == fields;
        IndexOfAfter(fields, tail, Amp);
        assert rest[|fields|..] == tail;
        assert tail[..|FilterParam| + 1] == Lit("&") + FilterParam;
        assert rest[|fields| + 1 + |FilterParam|..] == query;
      }
    } else if query != [] {
      assert qs == fil + query;
      assert qs[..|sel|] != sel by {
        assert qs[2] == FilterParam[1] != SelectParam[1];
      }
      assert qs[..|fil|] == fil;
      assert qs[|FilterParam| + 1..] == query;
    }
  }

  const SkipParam: Str := Lit("&$skip=")
  const ExpandParam: Str := Lit("&$expand=")

  /** The `$skip` part of a limited page URL: present only for a positive
      count. */
  function SkipOf(skip: int): Str {
    if skip > 0 then SkipParam + Numbers.IntToDecimal(skip) else []
  }

  /** The `$expand` part of a limited query: present only for a non-empty
      list. */
  function ExpandOf(toexpand: Str): Str {
    if toexpand != [] then ExpandParam + toexpand else []
  }

  /** What follows the filter of a limited page URL. */
  function LimitedTail(skip: int, toexpand: Str): Str {
    SkipOf(skip) + ExpandOf(toexpand)
  }

  /** The `$expand` part both limited queries append: present only when the
      Id-prefixed field list names an object path. */
  function ExpandPart(fields: Str): Str {
    ExpandOf(ExpandList(SelectFields(fields)))
  }

  /** The query `GetAllLimitedItemsByQuery` hands on: the caller's filter
      followed by the `$expand` list, if any. */
  function AllLimitedQuery(query: Str, fields: Str): (r: Str)
    ensures StartsWith(r, query)
    ensures ExpandList(SelectFields(fields)) == [] <==> r == query
  {
    var r := query + ExpandPart(fields);
    assert r[..|query|] == query;
    r
  }

  /** The filter of a limited page: `1 eq 1` when none is given. */
  function LimitedFilter(query: Str): Str {
    if query != [] then query else TrueFilter
  }

  /** The page URL of `GetSomeLimitedItemsByQuery`: the Id-prefixed
      `$select`, the filter (`1 eq 1` when none is given), `$skip` only for a
      positive count, and `$expand` only when some field names a path. There
      is no `$top`: the page size is the service's. Both the `$select` list
      and the filter are non-empty, so this is the collection URL, `?$select=`,
      the fields, `&$filter=` and the rest (`LimitedUrlIsQuery`);
      `LimitedUrlReadsBack` states what a reader recovers from it. */
  function LimitedUrl(serviceUrl: Str, collection: Str, query: Str, fields: Str, skip: int): (r: Str)
    ensures StartsWith(r, serviceUrl + collection + CollectionSuffix)
  {
    AllPagesUrl(serviceUrl, collection, SelectFields(fields), LimitedFilter(query) + LimitedTail(skip, ExpandList(SelectFields(fields))))
  }

  /** Reads an optional `$expand` list back. */
  function ParseExpand(rest: Str): Option<Str> {
    if rest == [] then Some([])
    else if StartsWith(rest, ExpandParam) then Some(rest[|ExpandParam|..])
    else None
  }

  /** Reads an optional `$skip` count (0 when absent) and an optional
      `$expand` list back. */
  function ParseSkipExpand(rest: Str): Option<(int, Str)> {
    if StartsWith(rest, SkipParam) then
      var tail := rest[|SkipParam|..];
      var j := IndexOf(tail, Amp);
      match Numbers.ParseInt32(tail[..j])
      case None => None
      case Some(k) =>
        match ParseExpand(tail[j..])
        case None => None
        case Some(x) => Some((k, x))
    else
      match ParseExpand(rest)
      case None => None
      case Some(x) => Some((0, x))
  }

  /** Reads the filter, the `$skip` count (0 when absent) and the `$expand`
      list back from the `$filter` value of a limited page URL, whose filter
      holds no `&`. */
  function ParseLimitedFilter(t: Str): Option<(Str, int, Str)> {
    var i := IndexOf(t, Amp);
    match ParseSkipExpand(t[i..])
    case None => None
    case Some((k, x)) => Some((t[..i], k, x))
  }

  /** Reads the `$select` list, the filter, the `$skip` count and the
      `$expand` list back from a page URL of the collection URL `base`. */
  function ParseLimitedUrl(base: Str, url: Str): Option<(Str, Str, int, Str)> {
    if !StartsWith(url, base) then None
    else
      match ParseQueryString(url[|base|..])
      case None => None
      case Some((fs, t)) =>
        match ParseLimitedFilter(t)
        case None => None
        case Some((q, k, x)) => Some((fs, q, k, x))
  }

  lemma SelectFieldsNoAmp(fields: Str)
    requires Amp !in fields
    ensures Amp !in SelectFields(fields)
  {
    if !StartsWith(fields, IdPrefix) {
      assert SelectFields(fields) == IdPrefix + fields;
      ParamFacts();
    }
  }

  lemma DecimalNoAmp(n: int)
    requires n > 0
    ensures Amp !in Numbers.IntToDecimal(n)
  {
    var d := Numbers.IntToDecimal(n);
    assert Numbers.AllDigits(d);
    forall i | 0 <= i < |d| ensures d[i] != Amp {
      assert Numbers.IsDigit(d[i]);
    }
  }

  /** The `$expand` part reads back as its list. */
  lemma ExpandReadsBack(toexpand: Str)
    ensures ParseExpand(ExpandOf(toexpand)) == Some(toexpand)
  {
    if toexpand != [] {
      var xp := ExpandParam + toexpand;
      assert xp[..|ExpandParam|] == ExpandParam;
      assert xp[|ExpandParam|..] == toexpand;
    }
  }

  lemma ParamFacts()
    ensures |SkipParam| == 7 && |ExpandParam| == 9
    ensures SkipParam[0] == Amp && ExpandParam[0] == Amp && SkipParam[2] != ExpandParam[2]
    ensures Amp !in TrueFilter && Amp !in IdPrefix
  {
  }

  /** Digits that parse as a count, then an `$expand` part, read back. */
  lemma DigitsReadBack(d: Str, k: int, xp: Str, toexpand: Str)
    requires Numbers.ParseInt32(d) == Some(k) && Amp !in d
    requires xp != [] ==> xp[0] == Amp
    requires ParseExpand(xp) == Some(toexpand)
    ensures ParseSkipExpand(SkipParam + d + xp) == Some((k, toexpand))
  {
    var rest := SkipParam + d + xp;
    assert rest == SkipParam + (d + xp);
    assert rest[..|SkipParam|] == SkipParam && rest[|SkipParam|..] == d + xp;
    FilterEndsAtAmp(d, xp);
    assert (d + xp)[..|d|] == d && (d + xp)[|d|..] == xp;
  }

  /** A positive count and the `$expand` part read back. */
  lemma SkipReadsBack(skip: int, toexpand: Str)
    requires 0 < skip <= Numbers.Int32Max
    ensures ParseSkipExpand(LimitedTail(skip, toexpand)) == Some((skip, toexpand))
  {
    ParamFacts();
    ExpandReadsBack(toexpand);
    DecimalNoAmp(skip);
    Numbers.DecimalRoundTrip(skip);
    DigitsReadBack(Numbers.IntToDecimal(skip), skip, ExpandOf(toexpand), toexpand);
  }

  /** Without a count, the `$expand` part reads back with a count of 0. */
  lemma NoSkipReadsBack(toexpand: Str)
    ensures ParseSkipExpand(ExpandOf(toexpand)) == Some((0, toexpand))
  {
    ParamFacts();
    ExpandReadsBack(toexpand);
    if toexpand != [] {
      assert !StartsWith(ExpandOf(toexpand), SkipParam) by {
        assert ExpandOf(toexpand)[2] == ExpandParam[2];
      }
    }
  }

  /** The `$skip` and `$expand` parts read back as the count (0 for a
      non-positive one) and the list. */
  lemma SkipExpandReadsBack(skip: int, toexpand: Str)
    requires skip <= Numbers.Int32Max
    ensures ParseSkipExpand(LimitedTail(skip, toexpand)) == Some((if skip > 0 then skip else 0, toexpand))
  {
    if skip > 0 {
      SkipReadsBack(skip, toexpand);
    } else {
      assert LimitedTail(skip, toexpand) == ExpandOf(toexpand);
      NoSkipReadsBack(toexpand);
    }
  }

  /** What follows the filter starts with `&` when there is anything. */
  lemma TailStartsWithAmp(skip: int, toexpand: Str)
    ensures var rest := LimitedTail(skip, toexpand); rest != [] ==> rest[0] == Amp
  {
    ParamFacts();
  }

  /** The filter ends at the first `&`. */
  lemma FilterEndsAtAmp(filter: Str, rest: Str)
    requires Amp !in filter
    requires rest != [] ==> rest[0] == Amp
    ensures IndexOf(filter + rest, Amp) == |filter|
  {
    if rest != [] {
      IndexOfAfter(filter, rest, Amp);
    } else {
      assert filter + rest == filter;
    }
  }

  /** The `$filter` value of a limited page reads back as the filter, the
      count to skip (0 for a non-positive one) and the `$expand` list. */
  lemma LimitedFilterReadsBack(filter: Str, skip: int, toexpand: Str)
    requires Amp !in filter
    requires skip <= Numbers.Int32Max
    ensures ParseLimitedFilter(filter + LimitedTail(skip, toexpand)) == Some((filter, if skip > 0 then skip else 0, toexpand))
  {
    var rest := LimitedTail(skip, toexpand);
    var t := filter + rest;
    TailStartsWithAmp(skip, toexpand);
    FilterEndsAtAmp(filter, rest);
    assert t[..|filter|] == filter && t[|filter|..] == rest;
    SkipExpandReadsBack(skip, toexpand);
  }

  /** With both parts present, the query string is `?$select=`, the
      fields, `&$filter=` and the filter. */
  lemma BothParts(fs: Str, t: Str)
    requires fs != [] && t != []
    ensures QueryString(fs, t) == Lit("?") + SelectParam + fs + Lit("&") + FilterParam + t
  {
  }

  /** The limited page URL is the collection URL, `?$select=` with the
      Id-prefixed fields, and `&$filter=` with the filter (`1 eq 1` for
      none), the `$skip` part and the `$expand` part. */
  lemma LimitedUrlIsQuery(serviceUrl: Str, collection: Str, query: Str, fields: Str, skip: int)
    ensures LimitedUrl(serviceUrl, collection, query, fields, skip)
      == serviceUrl + collection + CollectionSuffix
         + (Lit("?") + SelectParam + SelectFields(fields) + Lit("&") + FilterParam
            + (LimitedFilter(query) + LimitedTail(skip, ExpandList(SelectFields(fields)))))
  {
    var t := LimitedFilter(query) + LimitedTail(skip, ExpandList(SelectFields(fields)));
    assert LimitedFilter(query) != [] && SelectFields(fields) != [];
    BothParts(SelectFields(fields), t);
  }

  lemma ParseAfterBase(base: Str, qs: Str, fs: Str, t: Str, q: Str, k: int, x: Str)
    requires ParseQueryString(qs) == Some((fs, t)) && ParseLimitedFilter(t) == Some((q, k, x))
    ensures ParseLimitedUrl(base, base + qs) == Some((fs, q, k, x))
  {
    assert (base + qs)[..|base|] == base && (base + qs)[|base|..] == qs;
  }

  /** A reader of a limited page URL recovers the Id-prefixed `$select`
      list, the filter (`1 eq 1` for none), the count to skip (0 for a
      non-positive one) and the `$expand` list of the field paths, provided
      neither the fields nor the filter hold an `&` and the count is an
      Int32. */
  lemma LimitedUrlReadsBack(serviceUrl: Str, collection: Str, query: Str, fields: Str, skip: int)
    requires Amp !in fields && Amp !in query
    requires skip <= Numbers.Int32Max
    ensures ParseLimitedUrl(serviceUrl + collection + CollectionSuffix, LimitedUrl(serviceUrl, collection, query, fields, skip))
      == Some((SelectFields(fields), if query != [] then query else TrueFilter, if skip > 0 then skip else 0,
               ExpandList(SelectFields(fields))))
  {
    var fs := SelectFields(fields);
    var t := LimitedFilter(query) + LimitedTail(skip, ExpandList(SelectFields(fields)));
    ParamFacts();
    SelectFieldsNoAmp(fields);
    QueryStringRoundTrip(fs, t);
    LimitedFilterReadsBack(LimitedFilter(query), skip, ExpandList(fs));
    ParseAfterBase(serviceUrl + collection + CollectionSuffix, QueryString(fs, t), fs, t,
      LimitedFilter(query), if skip > 0 then skip else 0, ExpandList(fs));
  }

  /** The literal of the `eq` filter: `true` and `false` stay bare, every
      other value is put in single quotes (without doubling inner quotes). */
  function EqLiteral(value: Str): (r: Str)
    ensures value == Lit("true") || value == Lit("false") ==> r == value
    ensures value != Lit("true") && value != Lit("false") ==> |r| == |value| + 2 && r[0] == Apos && r[|r| - 1] == Apos
  {
    if value != Lit("true") && value != Lit("false") then [Apos] + value + [Apos] else value
  }

  /** Removes the quotes `EqLiteral` adds. */
  function Unquote(r: Str): Str {
    if |r| >= 2 && r[0] == Apos && r[|r| - 1] == Apos then r[1..|r| - 1] else r
  }

  lemma EqLiteralRoundTrip(value: Str)
    ensures Unquote(EqLiteral(value)) == value
  {
    if value != Lit("true") && value != Lit("false") {
      assert EqLiteral(value)[1..|value| + 1] == value;
    }
  }

  /** The filter `GetFirstItemByUniqueField` uses: `substringof` in
      `contains` mode, an equality in every other mode. */
  function UniqueFieldFilter(field: Str, value: Str, mode: Str): (r: Str)
    ensures mode == Lit("contains") ==> StartsWith(r, Lit("substringof('") + value) && EndsWith(r, Lit("',") + field + Lit(")"))
    ensures mode != Lit("contains") ==> StartsWith(r, field + Lit(" eq ")) && Unquote(r[|field| + 4..]) == value
  {
    if mode == Lit("contains") then
      var p := Lit("substringof('") + value;
      var q := Lit("',") + field + Lit(")");
      var r := p + q;
      assert r[..|p|] == p && r[|r| - |q|..] == q;
      r
    else
      var p := field + Lit(" eq ");
      var r := p + EqLiteral(value);
      assert r[..|p|] == p && r[|field| + 4..] == EqLiteral(value);
      EqLiteralRoundTrip(value);
      r
  }

  /** The URL of `GetFirstItemByUniqueField`: the collection URL with the
      filter as its only parameter. */
  function UniqueFieldUrl(serviceUrl: Str, collection: Str, field: Str, value: Str, mode: Str): (r: Str)
    ensures var base := serviceUrl + collection + CollectionSuffix;
      StartsWith(r, base) && ParseQueryString(r[|base|..]) == Some(([], UniqueFieldFilter(field, value, mode)))
  {
    var f := UniqueFieldFilter(field, value, mode);
    UniqueFieldFilterNonEmpty(field, value, mode);
    FilterOnlyReadsBack(serviceUrl + collection, f);
    serviceUrl + collection + Lit("Collection?$filter=") + f
  }

  lemma UniqueFieldFilterNonEmpty(field: Str, value: Str, mode: Str)
    ensures UniqueFieldFilter(field, value, mode) != []
  {
    if mode != Lit("contains") {
      assert |UniqueFieldFilter(field, value, mode)| >= |field + Lit(" eq ")|;
    }
  }

  /** A collection URL with a non-empty filter as its only parameter reads
      back as that filter. */
  lemma FilterOnlyReadsBack(prefix: Str, f: Str)
    requires f != []
    ensures var base := prefix + CollectionSuffix;
      var r := prefix + Lit("Collection?$filter=") + f;
      StartsWith(r, base) && ParseQueryString(r[|base|..]) == Some(([], f))
  {
    var base := prefix + CollectionSuffix;
    var r := prefix + Lit("Collection?$filter=") + f;
    assert Lit("Collection?$filter=") == CollectionSuffix + Lit("?") + FilterParam;
    assert r == base + QueryString([], f);
    assert r[..|base|] == base && r[|base|..] == QueryString([], f);
    QueryStringRoundTrip([], f);
  }

  /** The https rewrite of `GetPage`: on an https service, every `http://`
      in a URL that starts with it becomes `https://`, not only the leading
      one. */
  function HttpsFix(useHttps: bool, url: Str): (r: Str)
    ensures !useHttps || !StartsWith(url, HttpScheme) ==> r == url
    ensures useHttps && StartsWith(url, HttpScheme) ==> r == ReplaceAll(url, HttpScheme, HttpsScheme)
    ensures useHttps && StartsWith(url, HttpScheme) ==> StartsWith(r, HttpsScheme)
  {
    if useHttps && StartsWith(url, HttpScheme) then
      assert url[..|HttpScheme|] == HttpScheme;
      ReplaceAll(url, HttpScheme, HttpsScheme)
    else url
  }

  /** The rewrite is idempotent: its output no longer starts with `http://`. */
  lemma HttpsFixIdempotent(useHttps: bool, url: Str)
    ensures HttpsFix(useHttps, HttpsFix(useHttps, url)) == HttpsFix(useHttps, url)
  {
    var r := HttpsFix(useHttps, url);
    if useHttps && StartsWith(url, HttpScheme) {
      assert r[..|HttpsScheme|] == HttpsScheme;
      if |r| >= |HttpScheme| {
        assert r[..|HttpScheme|] != HttpScheme by {
          assert r[4] == HttpsScheme[4] != HttpScheme[4];
        }
      }
    }
  }
}
