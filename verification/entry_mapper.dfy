/** `GetEntryFields` and `GetDataLink`: reading an Atom `entry` element into a
    flat field map and finding its media link. */
module EntryMapper {
  import opened Wrappers
  import opened Text
  import opened Faults
  import opened XmlTree

  /** The field map `GetEntryFields` returns; every value is a string. */
  type Fields = map<Str, Str>

  const ContentName: Str := Lit("content")
  const PropertiesName: Str := Lit("m:properties")
  const LinkName: Str := Lit("link")
  const InlineName: Str := Lit("m:inline")
  const EntryName: Str := Lit("entry")
  const TypeAttr: Str := Lit("m:type")
  const TitleAttr: Str := Lit("title")
  const RelAttr: Str := Lit("rel")
  const HrefAttr: Str := Lit("href")
  const DataPrefix: Str := Lit("d:")
  /** What joins a link title to the keys of an inlined entry. */
  const Separator: Str := Lit("__")

  const EdmGuid: Str := Lit("Edm.Guid")
  const EdmDateTime: Str := Lit("Edm.DateTime")
  const EdmBoolean: Str := Lit("Edm.Boolean")
  /** `Guid.Empty.ToString()` */
  const ZeroGuid: Str := Lit("00000000-0000-0000-0000-000000000000")
  /** The OData rendering of `DateTime.MinValue`. */
  const MinDate: Str := Lit("0001-01-01T00:00:00")

  /** The key of a property element: its name with every `d:` removed. */
  function FieldName(d: Element): Str {
    ReplaceAll(d.name, DataPrefix, [])
  }

  /** The value a property element contributes, or `None` when it is skipped:
      no text, or a typed null sentinel. Booleans become `"0"` and `"1"`. */
  function PropertyValue(d: Element): (r: Option<Str>)
    ensures r.Some? ==> r.value != []
  {
    var txt := InnerText(d);
    if txt == [] then None
    else if HasAttr(d, TypeAttr) then
      var t := Attr(d, TypeAttr);
      if t == EdmGuid && txt == ZeroGuid then None
      else if t == EdmDateTime && txt == MinDate then None
      else if t == EdmBoolean && txt == Lit("false") then Some(Lit("0"))
      else if t == EdmBoolean && txt == Lit("true") then Some(Lit("1"))
      else Some(txt)
    else Some(txt)
  }

  ghost predicate NonEmptyValues(m: Fields) {
    forall k | k in m :: m[k] != []
  }

  /** Property `i` of `ps` writes key `k`. */
  predicate Provides(ps: seq<Element>, i: int, k: Str) {
    0 <= i < |ps| && FieldName(ps[i]) == k && PropertyValue(ps[i]).Some?
  }

  /** `acc` after the loop over the first `n` properties of `ps`. */
  function PropsFields(ps: seq<Element>, n: nat, acc: Fields): (r: Fields)
    requires n <= |ps|
    ensures NonEmptyValues(acc) ==> NonEmptyValues(r)
    decreases n
  {
    if n == 0 then acc
    else
      var prev := PropsFields(ps, n - 1, acc);
      match PropertyValue(ps[n - 1])
      case None => prev
      case Some(v) => prev[FieldName(ps[n - 1]) := v]
  }

  /** The keys after the loop are the earlier keys and the names of the
      properties that have a value. */
  lemma {:induction false} PropsKeys(ps: seq<Element>, n: nat, acc: Fields, k: Str)
    requires n <= |ps|
    ensures k in PropsFields(ps, n, acc) <==> k in acc || exists i | 0 <= i < n :: Provides(ps, i, k)
    decreases n
  {
    if n > 0 {
      PropsKeys(ps, n - 1, acc, k);
      if Provides(ps, n - 1, k) {
        assert k in PropsFields(ps, n, acc);
      } else if k in PropsFields(ps, n, acc) && k !in acc {
        var i :| 0 <= i < n - 1 && Provides(ps, i, k);
      }
    }
  }

  /** The value under a key is the one the last property naming it wrote. */
  lemma {:induction false} PropsLastWriter(ps: seq<Element>, n: nat, acc: Fields, i: nat)
    requires n <= |ps| && i < n && Provides(ps, i, FieldName(ps[i]))
    requires forall j | i < j < n :: !Provides(ps, j, FieldName(ps[i]))
    ensures FieldName(ps[i]) in PropsFields(ps, n, acc)
    ensures PropsFields(ps, n, acc)[FieldName(ps[i])] == PropertyValue(ps[i]).value
    decreases n
  {
    var k := FieldName(ps[i]);
    PropsKeys(ps, n, acc, k);
    if i < n - 1 {
      PropsLastWriter(ps, n - 1, acc, i);
      assert !Provides(ps, n - 1, k);
      var prev := PropsFields(ps, n - 1, acc);
      assert k in prev;
      match PropertyValue(ps[n - 1])
      case None =>
      case Some(v) =>
        assert FieldName(ps[n - 1]) != k;
        assert PropsFields(ps, n, acc) == prev[FieldName(ps[n - 1]) := v];
    }
  }

  /** A key no property provides keeps its earlier value. */
  lemma {:induction false} PropsUntouched(ps: seq<Element>, n: nat, acc: Fields, k: Str)
    requires n <= |ps| && k in acc
    requires forall j | 0 <= j < n :: !Provides(ps, j, k)
    ensures k in PropsFields(ps, n, acc) && PropsFields(ps, n, acc)[k] == acc[k]
    decreases n
  {
    if n > 0 {
      PropsUntouched(ps, n - 1, acc, k);
      assert !Provides(ps, n - 1, k);
      PropsKeys(ps, n - 1, acc, k);
    }
  }

  /** When every property that writes `k` writes the same value `w`, and `k`
      is written at all, the loop leaves `w` under `k`. */
  lemma {:induction false} PropsUniformValue(ps: seq<Element>, n: nat, acc: Fields, k: Str, w: Str)
    requires n <= |ps|
    requires forall i | 0 <= i < n && Provides(ps, i, k) :: PropertyValue(ps[i]).value == w
    requires k in acc ==> acc[k] == w
    requires k in acc || exists i | 0 <= i < n :: Provides(ps, i, k)
    ensures k in PropsFields(ps, n, acc) && PropsFields(ps, n, acc)[k] == w
    decreases n
  {
    if n > 0 && !Provides(ps, n - 1, k) {
      if k !in acc {
        var i :| 0 <= i < n && Provides(ps, i, k);
        assert i < n - 1;
      }
      PropsUniformValue(ps, n - 1, acc, k, w);
    }
  }

  /** Distinct keys stay distinct under a common prefix. */
  lemma PrefixInjective(p: Str)
    ensures forall k1: Str, k2: Str | p + k1 == p + k2 :: k1 == k2
  {
    forall k1: Str, k2: Str | p + k1 == p + k2 ensures k1 == k2 {
      assert k1 == (p + k1)[|p|..];
    }
  }

  /** The fields of an inlined entry, under `title__key`. */
  function Prefixed(title: Str, m: Fields): (r: Fields)
    ensures forall k | k in m :: title + Separator + k in r && r[title + Separator + k] == m[k]
    ensures forall k' | k' in r :: StartsWith(k', title + Separator) && k'[|title + Separator|..] in m
  {
    PrefixInjective(title + Separator);
    map k | k in m :: title + Separator + k := m[k]
  }

  /** `GetEntryFields(entry)`: a `content` child contributes its
      `m:properties` (and raises `NullReferenceException` without them); a
      `link` child with an `m:inline` child contributes the fields of each
      inlined `entry` under the link's title. Later writes win. */
  function EntryFields(e: Element): (r: Result<Fields, Error>)
    ensures r.Err? ==> r.error == NullReference
    ensures r.Ok? ==> NonEmptyValues(r.value)
    decreases e, 3, 0
  {
    ChildrenFields(e, |e.children|)
  }

  /** The loop over the first `n` children of `e`. */
  function ChildrenFields(e: Element, n: nat): (r: Result<Fields, Error>)
    requires n <= |e.children|
    ensures r.Err? ==> r.error == NullReference
    ensures r.Ok? ==> NonEmptyValues(r.value)
    decreases e, 2, n
  {
    if n == 0 then Ok(map[])
    else
      match ChildrenFields(e, n - 1)
      case Err(err) => Err(err)
      case Ok(acc) => ChildStep(e.children[n - 1], acc)
  }

  /** One iteration of the loop over an entry's children. */
  function ChildStep(c: Element, acc: Fields): (r: Result<Fields, Error>)
    requires NonEmptyValues(acc)
    ensures r.Err? ==> r.error == NullReference
    ensures r.Ok? ==> NonEmptyValues(r.value)
    ensures c.name != ContentName && c.name != LinkName ==> r == Ok(acc)
    decreases c, 1, 0
  {
    if c.name == ContentName then
      match FirstChild(c, PropertiesName)
      case None => Err(NullReference)
      case Some(p) => Ok(PropsFields(p.children, |p.children|, acc))
    else if c.name == LinkName then
      match FirstChild(c, InlineName)
      case None => Ok(acc)
      case Some(inl) => InlineFields(inl, |inl.children|, Attr(c, TitleAttr), acc)
    else Ok(acc)
  }

  /** The loop over the first `n` children of an `m:inline` element. */
  function InlineFields(inl: Element, n: nat, title: Str, acc: Fields): (r: Result<Fields, Error>)
    requires n <= |inl.children| && NonEmptyValues(acc)
    ensures r.Err? ==> r.error == NullReference
    ensures r.Ok? ==> NonEmptyValues(r.value)
    ensures r.Ok? ==> forall k | k in acc && !StartsWith(k, title + Separator) :: k in r.value && r.value[k] == acc[k]
    decreases inl, 0, n
  {
    if n == 0 then Ok(acc)
    else
      match InlineFields(inl, n - 1, title, acc)
      case Err(err) => Err(err)
      case Ok(prev) =>
        var x := inl.children[n - 1];
        if x.name != EntryName then Ok(prev)
        else
          match EntryFields(x)
          case Err(err) => Err(err)
          case Ok(m) =>
            var r := prev + Prefixed(title, m);
            Ok(r)
  }

  /** The key of a property element named `d:k` is `k`, when `k` has no colon. */
  lemma FieldNameOfData(k: Str, d: Element)
    requires d.name == DataPrefix + k && Unit(':') !in k
    ensures FieldName(d) == k
  {
    assert NoOccurrence(k, DataPrefix) by {
      forall i ensures !OccursAt(k, DataPrefix, i) {
        if 0 <= i && i + 2 <= |k| {
          assert k[i..i + 2][1] == k[i + 1] != DataPrefix[1];
        }
      }
    }
    ReplaceAbsent(k, DataPrefix, []);
    assert d.name[..2] == DataPrefix && d.name[2..] == k;
  }

  /** The sentinels are suppressed and booleans normalised. */
  lemma PropertyValueCases(d: Element)
    ensures InnerText(d) == [] ==> PropertyValue(d) == None
    ensures Attr(d, TypeAttr) == EdmGuid && InnerText(d) == ZeroGuid ==> PropertyValue(d) == None
    ensures Attr(d, TypeAttr) == EdmDateTime && InnerText(d) == MinDate ==> PropertyValue(d) == None
    ensures Attr(d, TypeAttr) == EdmBoolean && InnerText(d) == Lit("true") ==> PropertyValue(d) == Some(Lit("1"))
    ensures Attr(d, TypeAttr) == EdmBoolean && InnerText(d) == Lit("false") ==> PropertyValue(d) == Some(Lit("0"))
    ensures !HasAttr(d, TypeAttr) && InnerText(d) != [] ==> PropertyValue(d) == Some(InnerText(d))
  {
    assert EdmGuid != [] && EdmDateTime != [] && EdmBoolean != [];
  }

  /** An inline link holding a single entry adds that entry's fields under
      `title__key` and keeps every other field. */
  lemma InlineSingleEntry(c: Element, acc: Fields, nested: Element, m: Fields)
    requires NonEmptyValues(acc)
    requires c.name == LinkName
    requires |c.children| > 0 && c.children[0].name == InlineName && c.children[0].children == [nested]
    requires nested.name == EntryName && EntryFields(nested) == Ok(m)
    ensures ChildStep(c, acc) == Ok(acc + Prefixed(Attr(c, TitleAttr), m))
  {
    var inl := c.children[0];
    var title := Attr(c, TitleAttr);
    assert FirstChild(c, InlineName) == Some(inl);
    assert LinkName != ContentName;
    assert InlineFields(inl, 0, title, acc) == Ok(acc);
    assert inl.children[0] == nested;
    assert InlineFields(inl, 1, title, acc) == Ok(acc + Prefixed(title, m));
  }

  /** `IsDataLink(c)`: the test `GetDataLink` applies to each child. */
  predicate IsDataLink(c: Element) {
    c.name == LinkName
    && HasAttr(c, TitleAttr) && LowerAscii(Attr(c, TitleAttr)) == Lit("data")
    && HasAttr(c, RelAttr) && EndsWith(LowerAscii(Attr(c, RelAttr)), Lit("edit-media/data"))
    && HasAttr(c, HrefAttr)
  }

  function DataLinkIndex(cs: seq<Element>): (r: Option<nat>)
    ensures r.Some? ==> r.value < |cs| && IsDataLink(cs[r.value])
    ensures r.Some? ==> forall j | 0 <= j < r.value :: !IsDataLink(cs[j])
    ensures r.None? <==> forall i | 0 <= i < |cs| :: !IsDataLink(cs[i])
    decreases |cs|
  {
    if cs == [] then None
    else if IsDataLink(cs[0]) then Some(0)
    else match DataLinkIndex(cs[1..])
      case None => None
      case Some(i) => Some(i + 1)
  }

  /** `GetDataLink(entry)`: the `href` of the first child link titled `data`
      whose relation ends in `edit-media/data`, or the empty string. */
  function GetDataLink(e: Element): Str {
    match DataLinkIndex(e.children)
    case None => []
    case Some(i) => Attr(e.children[i], HrefAttr)
  }

  /** An entry without data link has the empty string as media link. */
  lemma NoDataLink(e: Element)
    requires forall i | 0 <= i < |e.children| :: !IsDataLink(e.children[i])
    ensures GetDataLink(e) == []
  {
    assert DataLinkIndex(e.children).None?;
  }

  /** The media link is the `href` of the first data link, whatever follows it. */
  lemma FirstDataLink(e: Element, i: nat)
    requires i < |e.children| && IsDataLink(e.children[i])
    requires forall j | 0 <= j < i :: !IsDataLink(e.children[j])
    ensures GetDataLink(e) == Attr(e.children[i], HrefAttr)
  {
    assert DataLinkIndex(e.children).Some?;
  }

  /** The loop fails once it meets a `content` child without `m:properties`. */
  lemma {:induction false} ChildrenFieldsFail(e: Element, n: nat, i: nat)
    requires i < n <= |e.children|
    requires e.children[i].name == ContentName && FirstChild(e.children[i], PropertiesName).None?
    ensures ChildrenFields(e, n) == Err(NullReference)
    decreases n
  {
    if i < n - 1 {
      ChildrenFieldsFail(e, n - 1, i);
    }
  }

  /** An entry with a `content` child lacking `m:properties` raises a null
      reference, whatever its other children hold. */
  lemma MissingPropertiesFails(e: Element, i: nat)
    requires i < |e.children| && e.children[i].name == ContentName && FirstChild(e.children[i], PropertiesName).None?
    ensures EntryFields(e) == Err(NullReference)
  {
    ChildrenFieldsFail(e, |e.children|, i);
  }

  /** Children that are neither `content` nor `link` contribute nothing. */
  lemma {:induction false} OtherChildrenEmpty(e: Element, n: nat)
    requires n <= |e.children|
    requires forall i | 0 <= i < n :: e.children[i].name != ContentName && e.children[i].name != LinkName
    ensures ChildrenFields(e, n) == Ok(map[])
    decreases n
  {
    if n > 0 {
      OtherChildrenEmpty(e, n - 1);
    }
  }

  /** An entry whose one `content` child holds `m:properties` reads as the
      properties' fields. */
  lemma ContentOnlyFields(e: Element, p: Element)
    requires |e.children| == 1 && e.children[0].name == ContentName
    requires FirstChild(e.children[0], PropertiesName) == Some(p)
    ensures EntryFields(e) == Ok(PropsFields(p.children, |p.children|, map[]))
  {
    assert ChildrenFields(e, 0) == Ok(map[]);
    assert ChildStep(e.children[0], map[]) == Ok(PropsFields(p.children, |p.children|, map[]));
    assert ChildrenFields(e, 1) == ChildStep(e.children[0], map[]);
  }
}
