/** The Atom entry `AddItem` and `UpdateItem` send: one `d:` property element
    per field, inside `entry/content/m:properties`. */
module Payload {
  import opened Wrappers
  import opened Text
  import opened XmlTree
  import opened Values
  import XmlChars
  import XmlNames
  import EntryMapper

  const NullAttr: Str := Lit("m:null")
  const TrueText: Str := Lit("true")

  /** The text a non-null value is sent as: its rendering, sanitised. */
  function Wire(v: Value): Str
    requires v != Null
  {
    XmlChars.RemoveInvalidXMLChars(Some(Render(v)))
  }

  /** The property element of a non-null field. */
  function ValueElement(k: Str, v: Value): Element
    requires v != Null
  {
    Element(EntryMapper.DataPrefix + k, map[], Wire(v), [])
  }

  /** The empty property element marking a field as null on update. */
  function NullElement(k: Str): Element {
    Element(EntryMapper.DataPrefix + k, map[NullAttr := TrueText], [], [])
  }

  /** The order in which the dictionary enumerates its keys. */
  predicate Enumerates(keys: seq<Str>, data: Data) {
    (forall i | 0 <= i < |keys| :: keys[i] in data) && (forall k | k in data :: k in keys)
  }

  /** The update payload's element for one field. */
  function FieldElement(k: Str, v: Value): Element {
    if v == Null then NullElement(k) else ValueElement(k, v)
  }

  /** The keys of the non-null fields, in enumeration order. */
  function NonNullKeys(keys: seq<Str>, data: Data): (r: seq<Str>)
    requires forall i | 0 <= i < |keys| :: keys[i] in data
    ensures forall i | 0 <= i < |r| :: r[i] in data && data[r[i]] != Null
    ensures forall k :: k in r <==> k in keys && data[k] != Null
    decreases |keys|
  {
    if keys == [] then []
    else
      var init := keys[..|keys| - 1];
      var k := keys[|keys| - 1];
      assert forall x :: x in keys <==> x in init || x == k;
      NonNullKeys(init, data) + (if data[k] == Null then [] else [k])
  }

  /** The create payload's properties, for the dictionary enumerated in the
      order `keys`: one element per non-null field, in that order; null
      fields are omitted. */
  function CreateProperties(keys: seq<Str>, data: Data): (r: seq<Element>)
    requires forall i | 0 <= i < |keys| :: keys[i] in data
    ensures var nk := NonNullKeys(keys, data);
      |r| == |nk| && forall i | 0 <= i < |r| :: data[nk[i]] != Null && r[i] == ValueElement(nk[i], data[nk[i]])
    ensures forall i | 0 <= i < |r| :: r[i].attrs == map[] && r[i].children == []
    decreases |keys|
  {
    if keys == [] then []
    else
      var k := keys[|keys| - 1];
      CreateProperties(keys[..|keys| - 1], data) + (if data[k] == Null then [] else [ValueElement(k, data[k])])
  }

  /** The update payload's properties: null fields are sent as `m:null`. */
  function UpdateProperties(keys: seq<Str>, data: Data): (r: seq<Element>)
    requires forall i | 0 <= i < |keys| :: keys[i] in data
    ensures |r| == |keys|
    ensures forall i | 0 <= i < |r| :: r[i].name == EntryMapper.DataPrefix + keys[i]
    ensures forall i | 0 <= i < |r| :: data[keys[i]] == Null <==> NullAttr in r[i].attrs
    ensures forall i | 0 <= i < |r| :: data[keys[i]] == Null ==>
      r[i].attrs == map[NullAttr := TrueText] && r[i].text == [] && r[i].children == []
    ensures forall i | 0 <= i < |r| :: data[keys[i]] != Null ==> r[i] == ValueElement(keys[i], data[keys[i]])
  {
    seq(|keys|, i requires 0 <= i < |keys| => FieldElement(keys[i], data[keys[i]]))
  }

  /** `entry/content[@type='application/xml']/m:properties` around the properties. */
  function EntryDocument(props: seq<Element>): (r: Element)
    ensures r.name == EntryMapper.EntryName
  {
    Element(EntryMapper.EntryName, map[], [], [
      Element(EntryMapper.ContentName, map[Lit("type") := Lit("application/xml")], [], [
        Element(EntryMapper.PropertiesName, map[], [], props)])])
  }

  /** The fields a reader of a payload sees: the non-null fields whose
      sanitised text is not empty, as that text. */
  function Readable(data: Data): (r: map<Str, Str>)
    ensures forall k | k in r :: k in data && data[k] != Null && r[k] == Wire(data[k]) && r[k] != []
  {
    map k | k in data && data[k] != Null && Wire(data[k]) != [] :: Wire(data[k])
  }

  /** Keys an entry can carry as `d:` element names. */
  predicate PlainKeys(keys: seq<Str>) {
    forall i | 0 <= i < |keys| :: Unit(':') !in keys[i]
  }

  /** The create payload names an element after each non-null field's key. */
  predicate CreateNamesValid(data: Data) {
    forall k | k in data && data[k] != Null :: XmlNames.IsNCName(k)
  }

  /** The update payload names an element after every key, null or not. */
  predicate UpdateNamesValid(data: Data) {
    forall k | k in data :: XmlNames.IsNCName(k)
  }

  /** Keys the update payload accepts carry no colon. */
  lemma ValidNamesArePlain(keys: seq<Str>, data: Data)
    requires Enumerates(keys, data) && UpdateNamesValid(data)
    ensures PlainKeys(keys)
  {
    forall i | 0 <= i < |keys| ensures Unit(':') !in keys[i] {
      XmlNames.NCNameExcludes(keys[i]);
    }
  }

  /** Every key the update payload accepts is accepted by the create payload,
      and a temporary `!` key with a non-null value is refused by both. */
  lemma NamesValidOrder(data: Data, k: Str)
    ensures UpdateNamesValid(data) ==> CreateNamesValid(data)
    ensures k in data && |k| > 0 && k[0] == Unit('!') && data[k] != Null ==> !CreateNamesValid(data) && !UpdateNamesValid(data)
  {
    if k in data && |k| > 0 && k[0] == Unit('!') {
      XmlNames.TempKeyIsNotName(k);
    }
  }

  lemma {:induction false} PropsPrefix(a: seq<Element>, b: seq<Element>, n: nat, acc: map<Str, Str>)
    requires n <= |a|
    ensures EntryMapper.PropsFields(a + b, n, acc) == EntryMapper.PropsFields(a, n, acc)
    decreases n
  {
    if n > 0 {
      PropsPrefix(a, b, n - 1, acc);
      assert (a + b)[n - 1] == a[n - 1];
    }
  }

  /** What the mapper reads from one property element the builder writes. */
  lemma ReadFieldElement(k: Str, v: Value)
    requires Unit(':') !in k
    ensures EntryMapper.FieldName(FieldElement(k, v)) == k
    ensures EntryMapper.PropertyValue(FieldElement(k, v)) == if v == Null || Wire(v) == [] then None else Some(Wire(v))
  {
    var x := FieldElement(k, v);
    EntryMapper.FieldNameOfData(k, x);
    assert ChildrenText(x, 0) == [];
    assert InnerText(x) == x.text;
    assert !HasAttr(x, EntryMapper.TypeAttr) || x.text == [];
  }

  /** One more property element read by the mapper's loop. */
  lemma PropsAppend(a: seq<Element>, x: Element, acc: map<Str, Str>)
    ensures EntryMapper.PropsFields(a + [x], |a| + 1, acc)
         == match EntryMapper.PropertyValue(x)
            case None => EntryMapper.PropsFields(a, |a|, acc)
            case Some(v) => EntryMapper.PropsFields(a, |a|, acc)[EntryMapper.FieldName(x) := v]
  {
    PropsPrefix(a, [x], |a|, acc);
    assert (a + [x])[|a|] == x;
  }

  lemma UpdateSnoc(keys: seq<Str>, data: Data)
    requires |keys| > 0 && forall i | 0 <= i < |keys| :: keys[i] in data
    ensures UpdateProperties(keys, data)
         == UpdateProperties(keys[..|keys| - 1], data) + [FieldElement(keys[|keys| - 1], data[keys[|keys| - 1]])]
  {
  }

  /** Leaving out a null field's element changes nothing the mapper reads. */
  lemma {:induction false} CreateReadsAsUpdate(keys: seq<Str>, data: Data)
    requires forall i | 0 <= i < |keys| :: keys[i] in data
    requires PlainKeys(keys)
    ensures var c := CreateProperties(keys, data);
      var u := UpdateProperties(keys, data);
      EntryMapper.PropsFields(c, |c|, map[]) == EntryMapper.PropsFields(u, |u|, map[])
    decreases |keys|
  {
    if keys != [] {
      var init := keys[..|keys| - 1];
      var k := keys[|keys| - 1];
      CreateReadsAsUpdate(init, data);
      var c0 := CreateProperties(init, data);
      var u0 := UpdateProperties(init, data);
      var x := FieldElement(k, data[k]);
      UpdateSnoc(keys, data);
      PropsAppend(u0, x, map[]);
      ReadFieldElement(k, data[k]);
      if data[k] == Null {
        assert CreateProperties(keys, data) == c0;
      } else {
        assert CreateProperties(keys, data) == c0 + [x];
        PropsAppend(c0, x, map[]);
      }
    }
  }

  /** Reading the update payload's properties back gives the readable fields. */
  lemma UpdateReadBack(keys: seq<Str>, data: Data)
    requires Enumerates(keys, data) && PlainKeys(keys)
    ensures var u := UpdateProperties(keys, data);
      EntryMapper.PropsFields(u, |u|, map[]) == Readable(data)
  {
    var u := UpdateProperties(keys, data);
    var got := EntryMapper.PropsFields(u, |u|, map[]);
    var want := Readable(data);
    forall k ensures (k in got <==> k in want) && (k in want ==> got[k] == want[k]) {
      UpdateReadsKey(keys, data, k);
      if k in want {
        UpdateReadsValue(keys, data, k);
      }
    }
    assert got == want;
  }

  /** The `i`-th update element provides its own key, when the value's text
      is not empty, and no other key. */
  lemma UpdateProvides(keys: seq<Str>, data: Data, i: nat, k: Str)
    requires Enumerates(keys, data) && PlainKeys(keys) && i < |keys|
    ensures var u := UpdateProperties(keys, data);
      EntryMapper.Provides(u, i, k) <==> k == keys[i] && data[k] != Null && Wire(data[k]) != []
    ensures var u := UpdateProperties(keys, data);
      EntryMapper.Provides(u, i, k) ==> EntryMapper.PropertyValue(u[i]).value == Wire(data[k])
  {
    ReadFieldElement(keys[i], data[keys[i]]);
  }

  /** A key is read back from the update payload exactly when it is readable. */
  lemma UpdateReadsKey(keys: seq<Str>, data: Data, k: Str)
    requires Enumerates(keys, data) && PlainKeys(keys)
    ensures var u := UpdateProperties(keys, data);
      k in EntryMapper.PropsFields(u, |u|, map[]) <==> k in Readable(data)
  {
    var u := UpdateProperties(keys, data);
    EntryMapper.PropsKeys(u, |u|, map[], k);
    if k in Readable(data) {
      var i :| 0 <= i < |keys| && keys[i] == k;
      UpdateProvides(keys, data, i, k);
    }
    if exists i | 0 <= i < |u| :: EntryMapper.Provides(u, i, k) {
      var i :| 0 <= i < |u| && EntryMapper.Provides(u, i, k);
      UpdateProvides(keys, data, i, k);
    }
  }

  /** A readable key is read back with its value's text. */
  lemma UpdateReadsValue(keys: seq<Str>, data: Data, k: Str)
    requires Enumerates(keys, data) && PlainKeys(keys) && k in Readable(data)
    ensures var u := UpdateProperties(keys, data);
      k in EntryMapper.PropsFields(u, |u|, map[]) && EntryMapper.PropsFields(u, |u|, map[])[k] == Wire(data[k])
  {
    var u := UpdateProperties(keys, data);
    var i :| 0 <= i < |keys| && keys[i] == k;
    forall j | 0 <= j < |u| && EntryMapper.Provides(u, j, k)
      ensures EntryMapper.PropertyValue(u[j]).value == Wire(data[k])
    {
      UpdateProvides(keys, data, j, k);
    }
    UpdateProvides(keys, data, i, k);
    EntryMapper.PropsUniformValue(u, |u|, map[], k, Wire(data[k]));
  }

  /** Reading a payload document back yields its properties' fields. */
  lemma ReadDocument(props: seq<Element>)
    ensures EntryMapper.EntryFields(EntryDocument(props)) == Ok(EntryMapper.PropsFields(props, |props|, map[]))
  {
    var doc := EntryDocument(props);
    var content := doc.children[0];
    var properties := content.children[0];
    assert FirstChild(content, EntryMapper.PropertiesName) == Some(properties);
    assert EntryMapper.ChildStep(content, map[]) == Ok(EntryMapper.PropsFields(props, |props|, map[]));
    assert EntryMapper.ChildrenFields(doc, 0) == Ok(map[]);
    assert EntryMapper.ChildrenFields(doc, 1) == EntryMapper.ChildStep(content, map[]);
  }

  /** The update payload round-trips: reading it back as an entry gives
      exactly the non-null fields, each as its sanitised text; a null
      field's `m:null` element carries no value, and a field whose text
      sanitises to nothing reads back as absent. */
  lemma UpdateRoundTrip(keys: seq<Str>, data: Data)
    requires Enumerates(keys, data) && PlainKeys(keys)
    ensures EntryMapper.EntryFields(EntryDocument(UpdateProperties(keys, data))) == Ok(Readable(data))
  {
    ReadDocument(UpdateProperties(keys, data));
    UpdateReadBack(keys, data);
  }

  /** The create payload reads back the same way. */
  lemma CreateRoundTrip(keys: seq<Str>, data: Data)
    requires Enumerates(keys, data) && PlainKeys(keys)
    ensures EntryMapper.EntryFields(EntryDocument(CreateProperties(keys, data))) == Ok(Readable(data))
  {
    ReadDocument(CreateProperties(keys, data));
    CreateReadsAsUpdate(keys, data);
    UpdateReadBack(keys, data);
  }

  /** Every value a payload carries is sanitised: its text is well-formed for XML. */
  lemma PayloadTextWellFormed(k: Str, v: Value)
    requires v != Null
    ensures XmlChars.WellFormed(FieldElement(k, v).text)
  {
    XmlChars.ScrubWellFormed(Render(v));
  }
}
