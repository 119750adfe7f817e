/** The operations of `ODObject` that talk to the service: find, create or
    update, delete, upload a binary, remove a link and load linked records.
    Each returns what the object holds afterwards, the requests it sent and
    what the call returns or raises; the object keeps the changes made before
    a request fails, as the mutable original does. */
module Lifecycle {
  import opened Wrappers
  import opened Text
  import opened Faults
  import opened XmlTree
  import opened Values
  import Numbers
  import EntryMapper
  import Payload
  import Query
  import Client
  import opened Records

  /** The object after an operation, the requests sent in order, and the result. */
  datatype Effect<T> = Effect(rec: Record, sent: seq<Client.Request>, result: Result<T, Error>)

  const UpdateOp: Str := Lit("update")
  const DeleteOp: Str := Lit("delete")
  const UploadOp: Str := Lit("uploadbinary")
  const DeleteLinkOp: Str := Lit("deletelink")

  const SizeKey: Str := Lit("Size")
  const TypeIdKey: Str := Lit("TypeId")
  const HashKey: Str := Lit("Hash")
  /** `CommonIds.fileTypeFile`, lower-cased. */
  const FileTypeFile: Str := Lit("529bc2f8-0ee0-df11-971b-001d60e938c6")

  /** The guard every write shares: a read-only object raises the security
      exception naming the operation, and nothing is sent or changed. */
  function Refused<T>(r: Record, op: Str): (e: Effect<T>)
    ensures e.rec == r && e.sent == [] && e.result == Err(Security(op))
  {
    Effect(r, [], Err(Security(op)))
  }

  // ---------------------------------------------------------------------
  // Update

  /** The field map `Update` leaves and sends: dates moved off midnight, then
      `ModifiedOn` set to the time of the call. */
  function Stamped(data: Data, stamp: Str): (d: Data)
    ensures d.Keys == data.Keys + {ModifiedOnKey}
    ensures d[ModifiedOnKey] == StrVal(stamp)
    ensures forall k | k in data && k != ModifiedOnKey :: d[k] == FixValue(data[k])
  {
    FixDateBug(data)[ModifiedOnKey := StrVal(stamp)]
  }

  /** The payload `Update` builds for an object with id `guid` names its
      elements after the keys: those of the non-null fields on create, all of
      them on update. */
  predicate Sendable(guid: Str, data: Data) {
    if guid == [] then Payload.CreateNamesValid(data) else Payload.UpdateNamesValid(data)
  }

  /** `Update(odb)`: a new object (empty id) is created with `AddItem`, whose
      result is the `Location` header; an existing one is replaced with
      `UpdateItem`, whose result is `ok`. The object is stamped before the
      request, so it keeps the stamp when the request fails, and also when a
      key is not an XML name and nothing is sent. `Update` does not learn the
      id of an object it creates. */
  function Update(svc: Client.Service, server: Client.Server, r: Record, stamp: Str): (e: Effect<Option<Str>>)
    ensures r.readOnly ==> e == Refused(r, UpdateOp)
    ensures !r.readOnly ==> e.rec == r.(data := Stamped(r.data, stamp))
    ensures !r.readOnly && !Sendable(r.guid, e.rec.data) ==> e.sent == [] && e.result == Err(InvalidName)
    ensures !r.readOnly && Sendable(r.guid, e.rec.data) && r.guid == [] ==>
      e.sent == [Client.Post(Client.CreateUrl(svc, r.collection), e.rec.data)]
    ensures !r.readOnly && Sendable(r.guid, e.rec.data) && r.guid != [] ==>
      e.sent == [Client.Put(Client.ItemUrl(svc, r.collection, r.guid) + Lit("/"), e.rec.data)]
    ensures !r.readOnly && Sendable(r.guid, e.rec.data) ==> |e.sent| == 1 && (e.result.Err? <==> server(e.sent[0]).Failed?)
    ensures !r.readOnly && Sendable(r.guid, e.rec.data) && e.result.Err? ==> e.result.error == Web(e.sent[0].url)
    ensures !r.readOnly && r.guid == [] && e.result.Ok? ==>
      server(e.sent[0]).Done? && e.result.value == if server(e.sent[0]).status == Client.Created then server(e.sent[0]).location else Some(Client.Unknown)
    ensures !r.readOnly && r.guid != [] && e.result.Ok? ==> e.result.value == Some(Client.OkText)
  {
    if r.readOnly then Refused(r, UpdateOp)
    else
      var data := Stamped(r.data, stamp);
      if r.guid == [] then
        var c := Client.AddItem(svc, server, r.collection, data);
        Effect(r.(data := data), c.sent, c.result)
      else
        var c := Client.UpdateItem(svc, server, r.collection, r.guid, data);
        match c.result
        case Err(err) => Effect(r.(data := data), c.sent, Err(err))
        case Ok(v) => Effect(r.(data := data), c.sent, Ok(Some(v)))
  }

  /** Stamping twice is stamping once with the later time: a date already
      moved to noon stays there. */
  lemma StampedTwice(data: Data, first: Str, second: Str)
    ensures Stamped(Stamped(data, first), second) == Stamped(data, second)
  {
    forall k | k in data && k != ModifiedOnKey
      ensures FixValue(FixValue(data[k])) == FixValue(data[k])
    {
      FixValueFixed(data[k]);
    }
  }

  /** Updating twice is one update at the later time, request and result
      included: since `Update` does not record the id the service assigned,
      an object created by the first call is posted again by the second. */
  lemma UpdateTwice(svc: Client.Service, server: Client.Server, r: Record, first: Str, second: Str)
    ensures Update(svc, server, Update(svc, server, r, first).rec, second) == Update(svc, server, r, second)
  {
    StampedTwice(r.data, first, second);
  }

  /** An object holding a temporary `!` field cannot be saved: `Update`
      stamps it, then raises on the field's name without sending anything. */
  lemma TempFieldBlocksUpdate(svc: Client.Service, server: Client.Server, r: Record, stamp: Str, k: Str)
    requires !r.readOnly && k in r.data && |k| > 0 && k[0] == Unit('!') && r.data[k] != Null
    ensures Update(svc, server, r, stamp) == Effect(r.(data := Stamped(r.data, stamp)), [], Err(InvalidName))
  {
    var d := Stamped(r.data, stamp);
    assert k != ModifiedOnKey;
    assert d[k] == FixValue(r.data[k]) != Null;
    Payload.NamesValidOrder(d, k);
  }

  // ---------------------------------------------------------------------
  // Delete

  /** `Delete(odb)`: nothing to do for an object that was never created;
      otherwise `DeleteItem`, after which the object forgets its id and its
      `Id` field is `null`. A failed request leaves the object as it was. */
  function Delete(svc: Client.Service, server: Client.Server, r: Record): (e: Effect<()>)
    ensures r.readOnly ==> e == Refused(r, DeleteOp)
    ensures !r.readOnly && r.guid == [] ==> e == Effect(r, [], Ok(()))
    ensures !r.readOnly && r.guid != [] ==> e.sent == [Client.Delete(Client.ItemUrl(svc, r.collection, r.guid) + Lit("/"))]
    ensures !r.readOnly && r.guid != [] ==> (e.result.Ok? <==> !server(e.sent[0]).Failed?)
    ensures !r.readOnly && e.result.Err? ==> |e.sent| == 1 && e.result.error == Web(e.sent[0].url)
    ensures e.result.Err? ==> e.rec == r
    ensures e.result.Ok? && r.guid != [] ==> e.rec == r.(guid := [], data := r.data[IdKey := Null])
  {
    if r.readOnly then Refused(r, DeleteOp)
    else if r.guid == [] then Effect(r, [], Ok(()))
    else
      var c := Client.DeleteItem(svc, server, r.collection, r.guid);
      match c.result
      case Err(err) => Effect(r, c.sent, Err(err))
      case Ok(_) => Effect(Set(r, IdKey, Null).(guid := []), c.sent, Ok(()))
  }

  /** After a successful delete the object no longer exists, every other
      field reads as before, a second delete sends nothing, and the next
      update creates the object anew. */
  lemma DeleteForgets(svc: Client.Service, server: Client.Server, r: Record, k: Str, stamp: Str)
    requires !r.readOnly && r.guid != [] && Delete(svc, server, r).result.Ok?
    ensures var d := Delete(svc, server, r).rec;
      !Exists(d) && Get(d, IdKey) == Null
      && (k != IdKey ==> Get(d, k) == Get(r, k))
      && Delete(svc, server, d) == Effect(d, [], Ok(()))
      && Update(svc, server, d, stamp).sent == Client.AddItem(svc, server, d.collection, Stamped(d.data, stamp)).sent
  {
  }

  // ---------------------------------------------------------------------
  // DeleteLink

  /** The field holding the link to `collectionTo`. */
  function LinkField(collectionTo: Str): (k: Str)
    ensures k == collectionTo + IdKey
    ensures StartsWith(k, collectionTo) && EndsWith(k, IdKey)
  {
    var k := collectionTo + IdKey;
    assert k[..|collectionTo|] == collectionTo && k[|k| - |IdKey|..] == IdKey;
    k
  }

  /** `DeleteLink(odb, CollectionTo)`: remove the `$links` association, then
      clear the link field when the object has one. */
  function DeleteLink(svc: Client.Service, server: Client.Server, r: Record, collectionTo: Str): (e: Effect<()>)
    ensures r.readOnly ==> e == Refused(r, DeleteLinkOp)
    ensures !r.readOnly ==> e.sent == [Client.Delete(Client.ItemUrl(svc, r.collection, r.guid) + Lit("/$links/") + collectionTo)]
    ensures !r.readOnly ==> (e.result.Ok? <==> !server(e.sent[0]).Failed?)
    ensures !r.readOnly && e.result.Err? ==> e.result.error == Web(e.sent[0].url)
    ensures e.result.Err? ==> e.rec == r
    ensures e.rec == r.(data := e.rec.data) && e.rec.data.Keys == r.data.Keys
    ensures e.result.Ok? ==> forall k | k in r.data ::
      e.rec.data[k] == if k == LinkField(collectionTo) then Null else r.data[k]
  {
    if r.readOnly then Refused(r, DeleteLinkOp)
    else
      var c := Client.DeleteLink(svc, server, r.collection, r.guid, collectionTo);
      match c.result
      case Err(err) => Effect(r, c.sent, Err(err))
      case Ok(_) =>
        var k := LinkField(collectionTo);
        Effect(if k in r.data then Set(r, k, Null) else r, c.sent, Ok(()))
  }

  // ---------------------------------------------------------------------
  // UploadBinary

  /** The fields `UploadBinary` sets before saving: size and file type, and
      the hash the upload returned. */
  function Described(data: Data, size: int, hash: Str, saveTypeAndSize: bool, saveHash: bool): (d: Data)
    ensures d.Keys == data.Keys + (if saveTypeAndSize then {SizeKey, TypeIdKey} else {}) + (if saveHash then {HashKey} else {})
    ensures saveHash ==> d[HashKey] == StrVal(hash)
    ensures saveTypeAndSize ==> d[SizeKey] == IntVal(size) && d[TypeIdKey] == StrVal(FileTypeFile)
    ensures forall k | k in data && k !in {SizeKey, TypeIdKey, HashKey} :: d[k] == data[k]
  {
    assert SizeKey[0] != TypeIdKey[0] && SizeKey[0] != HashKey[0] && TypeIdKey[0] != HashKey[0];
    var d := if saveTypeAndSize then data[SizeKey := IntVal(size)][TypeIdKey := StrVal(FileTypeFile)] else data;
    if saveHash then d[HashKey := StrVal(hash)] else d
  }

  /** The PUT of the bytes to the object's `Data`. */
  function UploadRequest(svc: Client.Service, r: Record, bytes: seq<Numbers.byte>): Client.Request {
    Client.PutBinary(Client.ItemUrl(svc, r.collection, r.guid) + Lit("/Data"), bytes)
  }

  /** The save step of `UploadBinary`: `Update` of the described object,
      whose failure is raised and whose success gives `true`. */
  function SaveUpload(svc: Client.Service, server: Client.Server, r: Record, size: int, hash: Str,
                      saveTypeAndSize: bool, saveHash: bool, stamp: Str): (e: Effect<bool>)
    ensures var u := Update(svc, server, r.(data := Described(r.data, size, hash, saveTypeAndSize, saveHash)), stamp);
      e.rec == u.rec && e.sent == u.sent && (e.result.Err? <==> u.result.Err?)
      && (e.result.Err? ==> e.result.error == u.result.error) && (e.result.Ok? ==> e.result.value)
  {
    var u := Update(svc, server, r.(data := Described(r.data, size, hash, saveTypeAndSize, saveHash)), stamp);
    Effect(u.rec, u.sent, if u.result.Err? then Err(u.result.error) else Ok(true))
  }

  /** `UploadBinary(odb, bytes, saveFiletypeAndSize, saveSHA256Hash)`: PUT
      the bytes; when either flag is set, record the size, type and hash and
      save the object with `Update`, whose failure is raised. The upload
      never answers with an empty string, so the call never returns `false`. */
  function UploadBinary(svc: Client.Service, server: Client.Server, sha: Client.Hasher, r: Record,
                        bytes: seq<Numbers.byte>, saveTypeAndSize: bool, saveHash: bool, stamp: Str): (e: Effect<bool>)
    ensures r.readOnly ==> e == Refused(r, UploadOp)
    ensures !r.readOnly ==> |e.sent| >= 1 && e.sent[0] == UploadRequest(svc, r, bytes)
    ensures !r.readOnly && server(UploadRequest(svc, r, bytes)).Failed? ==>
      e.rec == r && e.result == Err(Web(UploadRequest(svc, r, bytes).url)) && |e.sent| == 1
    ensures !r.readOnly && !server(UploadRequest(svc, r, bytes)).Failed? && (saveTypeAndSize || saveHash) ==>
      var hash := if saveHash then Numbers.HexUpper(sha(bytes)) else Client.Uploaded;
      var u := Update(svc, server, r.(data := Described(r.data, |bytes|, hash, saveTypeAndSize, saveHash)), stamp);
      e.rec == u.rec && e.sent == [UploadRequest(svc, r, bytes)] + u.sent && (e.result.Err? <==> u.result.Err?)
      && (e.result.Err? ==> e.result.error == u.result.error)
    ensures !r.readOnly && !server(UploadRequest(svc, r, bytes)).Failed? && !(saveTypeAndSize || saveHash) ==> |e.sent| == 1
    ensures !r.readOnly && !server(UploadRequest(svc, r, bytes)).Failed? && (saveTypeAndSize || saveHash) ==>
      |e.sent| == if Sendable(r.guid, e.rec.data) then 2 else 1
    ensures !saveTypeAndSize && !saveHash && e.result.Ok? ==> e.rec == r
    ensures e.result.Ok? ==> e.result.value
  {
    if r.readOnly then Refused(r, UploadOp)
    else
      var c := Client.UploadBinary(svc, server, sha, r.collection, r.guid, bytes, saveHash);
      assert c.sent == [UploadRequest(svc, r, bytes)];
      if c.result.Err? then Effect(r, c.sent, Err(c.result.error))
      else if c.result.value == [] then Effect(r, c.sent, Ok(false))
      else if saveTypeAndSize || saveHash then
        var u := SaveUpload(svc, server, r, |bytes|, c.result.value, saveTypeAndSize, saveHash, stamp);
        Effect(u.rec, c.sent + u.sent, u.result)
      else Effect(r, c.sent, Ok(true))
  }

  /** A text ends in a midnight time of day only if it has a `T` nine units
      from its end or a `Z` at its end. */
  lemma NotMidnight(s: Str)
    requires |s| > 0 && s[|s| - 1] != MidnightUtc[17]
    requires |s| >= 9 ==> s[|s| - 9] != Midnight[0]
    ensures !AtMidnight(StrVal(s))
  {
    if |s| >= 9 {
      assert s[|s| - 9..][0] == s[|s| - 9];
    }
    if |s| >= 18 {
      assert s[|s| - 18..][17] == s[|s| - 1];
    }
  }

  /** Hexadecimal and decimal digits are neither `T` nor `Z`. */
  lemma DigitsNotMidnight(s: Str)
    requires |s| > 0
    requires forall i | 0 <= i < |s| :: 0 <= Numbers.HexValue(s[i]) < 16
    ensures !AtMidnight(StrVal(s))
  {
    assert 0 <= Numbers.HexValue(s[|s| - 1]) < 16;
    if |s| >= 9 {
      assert 0 <= Numbers.HexValue(s[|s| - 9]) < 16;
    }
    NotMidnight(s);
  }

  /** Saving after an upload keeps the fields it describes: none of them is
      at midnight, so the date fix leaves them alone. */
  lemma DescribedSurvivesStamp(data: Data, size: nat, hash: Str, saveTypeAndSize: bool, saveHash: bool, stamp: Str)
    requires saveHash ==> |hash| > 0 && forall i | 0 <= i < |hash| :: 0 <= Numbers.HexValue(hash[i]) < 16
    ensures var d := Stamped(Described(data, size, hash, saveTypeAndSize, saveHash), stamp);
      (saveHash ==> HashKey in d && d[HashKey] == StrVal(hash))
      && (saveTypeAndSize ==> SizeKey in d && d[SizeKey] == IntVal(size))
      && (saveTypeAndSize ==> TypeIdKey in d && d[TypeIdKey] == StrVal(FileTypeFile))
  {
    assert ModifiedOnKey[0] != HashKey[0] && ModifiedOnKey[0] != SizeKey[0] && ModifiedOnKey[0] != TypeIdKey[0];
    if saveHash {
      DigitsNotMidnight(hash);
    }
    if saveTypeAndSize {
      var digits := Numbers.NatToDecimal(size);
      assert Render(IntVal(size)) == digits;
      forall i | 0 <= i < |digits| ensures 0 <= Numbers.HexValue(digits[i]) < 16 {
        assert Numbers.IsDigit(digits[i]);
      }
      DigitsNotMidnight(digits);
      NotMidnight(FileTypeFile);
    }
  }

  /** A successful upload leaves the object with what it stored: the hash
      field spells the SHA-256 of the bytes in hexadecimal, the size field is
      the number of bytes, and the type is the file type. */
  lemma UploadRecords(svc: Client.Service, server: Client.Server, sha: Client.Hasher, r: Record,
                      bytes: seq<Numbers.byte>, saveTypeAndSize: bool, saveHash: bool, stamp: Str)
    requires UploadBinary(svc, server, sha, r, bytes, saveTypeAndSize, saveHash, stamp).result.Ok?
    ensures var d := UploadBinary(svc, server, sha, r, bytes, saveTypeAndSize, saveHash, stamp).rec.data;
      (saveHash ==> HashKey in d && d[HashKey].StrVal? && Numbers.HexDecode(d[HashKey].s) == Some(sha(bytes)))
      && (saveTypeAndSize ==> SizeKey in d && d[SizeKey] == IntVal(|bytes|))
      && (saveTypeAndSize ==> TypeIdKey in d && d[TypeIdKey] == StrVal(FileTypeFile))
  {
    if saveTypeAndSize || saveHash {
      var hash := Client.UploadBinary(svc, server, sha, r.collection, r.guid, bytes, saveHash).result.value;
      if saveHash {
        assert hash == Numbers.HexUpper(sha(bytes));
      }
      DescribedSurvivesStamp(r.data, |bytes|, hash, saveTypeAndSize, saveHash, stamp);
    }
  }

  // ---------------------------------------------------------------------
  // Guards

  /** A read-only object refuses every write: each raises the security
      exception naming it, sends nothing, and changes nothing. */
  lemma ReadOnlyRefusesWrites(svc: Client.Service, server: Client.Server, sha: Client.Hasher, r: Record,
                              collectionTo: Str, bytes: seq<Numbers.byte>, saveTypeAndSize: bool, saveHash: bool, stamp: Str)
    requires r.readOnly
    ensures Update(svc, server, r, stamp) == Refused(r, UpdateOp)
    ensures Delete(svc, server, r) == Refused(r, DeleteOp)
    ensures DeleteLink(svc, server, r, collectionTo) == Refused(r, DeleteLinkOp)
    ensures UploadBinary(svc, server, sha, r, bytes, saveTypeAndSize, saveHash, stamp) == Refused(r, UploadOp)
  {
  }

  // ---------------------------------------------------------------------
  // Find

  /** The item's address below the service, as the not-found message names it. */
  function ItemPath(collection: Str, guid: Str): Str {
    collection + Lit("Collection(guid'") + guid + Lit("')")
  }

  /** The find constructor `ODObject(odb, Collection, Guid)`: the page at the
      item's URL must hold exactly one item with at least one field;
      otherwise the object is not found. The object is writable. */
  function Find(svc: Client.Service, fetch: Client.Fetch, collection: Str, guid: Str): (r: Result<Record, Error>)
    ensures var page := Client.GetPage(svc, fetch, Client.ItemUrl(svc, collection, guid));
      r.Ok? <==> (page.Ok? && |page.value| == 1 && page.value[0].Some?
        && EntryMapper.EntryFields(page.value[0].value).Ok? && |EntryMapper.EntryFields(page.value[0].value).value| > 0)
    ensures var page := Client.GetPage(svc, fetch, Client.ItemUrl(svc, collection, guid));
      r.Ok? ==> (page.Ok? && |page.value| == 1 && page.value[0].Some?
        && EntryMapper.EntryFields(page.value[0].value).Ok?
        && r.value.data == FromStrings(EntryMapper.EntryFields(page.value[0].value).value)
        && r.value.binaryLink == EntryMapper.GetDataLink(page.value[0].value))
    ensures r.Ok? ==> r.value.guid == guid && r.value.collection == collection && |r.value.data| > 0
    ensures r.Ok? ==> !r.value.readOnly && r.value.many == map[]
    ensures r.Err? && r.error.NotFound? ==> r.error.path == ItemPath(collection, guid)
    ensures Client.GetPage(svc, fetch, Client.ItemUrl(svc, collection, guid)).Err? ==> r.Err?
    ensures var page := Client.GetPage(svc, fetch, Client.ItemUrl(svc, collection, guid));
      page.Err? ==> r == Err(page.error)
    ensures var page := Client.GetPage(svc, fetch, Client.ItemUrl(svc, collection, guid));
      page.Ok? && |page.value| != 1 ==> r == Err(NotFound(ItemPath(collection, guid)))
    ensures var page := Client.GetPage(svc, fetch, Client.ItemUrl(svc, collection, guid));
      page.Ok? && |page.value| == 1 && page.value[0].None? ==> r == Err(NullReference)
    ensures var page := Client.GetPage(svc, fetch, Client.ItemUrl(svc, collection, guid));
      page.Ok? && |page.value| == 1 && page.value[0].Some? && EntryMapper.EntryFields(page.value[0].value).Err? ==>
        r == Err(EntryMapper.EntryFields(page.value[0].value).error)
    ensures var page := Client.GetPage(svc, fetch, Client.ItemUrl(svc, collection, guid));
      page.Ok? && |page.value| == 1 && page.value[0].Some? && EntryMapper.EntryFields(page.value[0].value) == Ok(map[]) ==>
        r == Err(NotFound(ItemPath(collection, guid)))
  {
    var items :- Client.GetPage(svc, fetch, Client.ItemUrl(svc, collection, guid));
    if |items| != 1 then Err(NotFound(ItemPath(collection, guid)))
    else match items[0]
      case None => Err(NullReference)
      case Some(e) =>
        var fields :- EntryMapper.EntryFields(e);
        if |fields| == 0 then Err(NotFound(ItemPath(collection, guid)))
        else Ok(Record(guid, collection, FromStrings(fields), EntryMapper.GetDataLink(e), false, map[]))
  }

  /** Property elements are leaves whose names carry the `d:` prefix. */
  predicate DataLeaves(ps: seq<Element>) {
    forall i | 0 <= i < |ps| :: ps[i].children == [] && StartsWith(ps[i].name, EntryMapper.DataPrefix)
  }

  lemma {:induction false} LeavesCount(e: Element, name: Str, n: nat)
    requires n <= |e.children| && DataLeaves(e.children)
    requires |name| > 0 && name[0] != Unit('d')
    ensures CountNamedIn(e, name, n) == 0
    decreases n
  {
    if n > 0 {
      LeavesCount(e, name, n - 1);
      var c := e.children[n - 1];
      assert c.name[0] == Unit('d');
      assert CountNamedIn(c, name, 0) == 0;
    }
  }

  /** The entry a write sends holds no feed and exactly one entry. */
  lemma EntryDocumentCounts(props: seq<Element>)
    requires DataLeaves(props)
    ensures CountNamed(Payload.EntryDocument(props), Client.FeedName) == 0
    ensures CountNamed(Payload.EntryDocument(props), EntryMapper.EntryName) == 1
  {
    var doc := Payload.EntryDocument(props);
    var content := doc.children[0];
    var properties := content.children[0];
    LeavesCount(properties, Client.FeedName, |props|);
    LeavesCount(properties, EntryMapper.EntryName, |props|);
    assert CountNamedIn(content, Client.FeedName, 1) == CountNamed(properties, Client.FeedName);
    assert CountNamedIn(content, EntryMapper.EntryName, 1) == CountNamed(properties, EntryMapper.EntryName);
    assert CountNamedIn(doc, Client.FeedName, 1) == CountNamed(content, Client.FeedName);
    assert CountNamedIn(doc, EntryMapper.EntryName, 1) == CountNamed(content, EntryMapper.EntryName);
  }

  lemma {:induction false} CreateLeaves(keys: seq<Str>, data: Data)
    requires forall i | 0 <= i < |keys| :: keys[i] in data
    ensures DataLeaves(Payload.CreateProperties(keys, data))
    decreases |keys|
  {
    if keys != [] {
      CreateLeaves(keys[..|keys| - 1], data);
      var k := keys[|keys| - 1];
      assert StartsWith(EntryMapper.DataPrefix + k, EntryMapper.DataPrefix);
    }
  }

  lemma BodyCounts(req: Client.Request, keys: seq<Str>)
    requires req.Post? || req.Put?
    requires forall i | 0 <= i < |keys| :: keys[i] in req.fields
    ensures CountNamed(Client.Body(req, keys), Client.FeedName) == 0
    ensures CountNamed(Client.Body(req, keys), EntryMapper.EntryName) == 1
  {
    if req.Post? {
      CreateLeaves(keys, req.fields);
      EntryDocumentCounts(Payload.CreateProperties(keys, req.fields));
    } else {
      var u := Payload.UpdateProperties(keys, req.fields);
      forall i | 0 <= i < |u| ensures u[i].children == [] && StartsWith(u[i].name, EntryMapper.DataPrefix) {
        assert StartsWith(EntryMapper.DataPrefix + keys[i], EntryMapper.DataPrefix);
      }
      EntryDocumentCounts(u);
    }
  }

  /** Finding an item the service serves as an entry the client wrote gives
      back the written fields: the non-null ones, as their sanitised text. */
  lemma FindReadsWritten(svc: Client.Service, fetch: Client.Fetch, collection: Str, guid: Str,
                         req: Client.Request, keys: seq<Str>)
    requires req.Post? || req.Put?
    requires Payload.Enumerates(keys, req.fields) && Payload.PlainKeys(keys)
    requires Payload.Readable(req.fields) != map[]
    requires fetch(Query.HttpsFix(svc.useHttps, Client.ItemUrl(svc, collection, guid))) == Client.Document(Client.Body(req, keys))
    ensures Find(svc, fetch, collection, guid).Ok?
    ensures Find(svc, fetch, collection, guid).value.data == FromStrings(Payload.Readable(req.fields))
  {
    var body := Client.Body(req, keys);
    BodyCounts(req, keys);
    Client.BodyReadsBack(req, keys);
    assert Client.PageItems(body) == Ok([Some(body)]);
  }

  // ---------------------------------------------------------------------
  // LoadMany

  /** The filter `LoadMany` sends: `joinField eq guid'<id>'`. */
  function JoinQuery(joinField: Str, guid: Str): (r: Str)
    ensures |r| == |joinField| + 9 + |guid| + 1
    ensures StartsWith(r, joinField + Lit(" eq guid'")) && r[|r| - 1] == Unit('\'')
    ensures r[|joinField| + 9..|r| - 1] == guid
  {
    var p := joinField + Lit(" eq guid'");
    var r := p + guid + Lit("'");
    assert r[..|p|] == p && r[|p|..|r| - 1] == guid;
    r
  }

  /** The records `LoadMany` builds from the first `n` loaded entries: the
      entries' fields and ids, without media link, writable. */
  function Linked(collection: Str, entries: seq<Element>, n: nat): (r: Result<seq<Record>, Error>)
    requires n <= |entries|
    ensures r.Ok? ==> |r.value| <= n
    ensures r.Ok? ==> forall i | 0 <= i < |r.value| ::
      Exists(r.value[i]) && !r.value[i].readOnly && r.value[i].collection == collection && r.value[i].binaryLink == []
    ensures r.Ok? && (forall i | 0 <= i < n :: entries[i].name == EntryMapper.EntryName) ==> |r.value| == n
    ensures r.Err? ==> r.error == NullReference
    decreases n
  {
    if n == 0 then Ok([])
    else
      var prior :- Linked(collection, entries, n - 1);
      var e := entries[n - 1];
      if e.name != EntryMapper.EntryName then Ok(prior)
      else
        var o :- Client.ObjectFromEntry(collection, e, false);
        Ok(prior + [o.(binaryLink := [])])
  }

  /** On entries only, `LoadMany` succeeds exactly when every entry reads as
      an object, and then holds those objects in order, without media link. */
  predicate LinkedReads(collection: Str, entries: seq<Element>, n: nat)
    requires n <= |entries|
    requires forall i | 0 <= i < n :: entries[i].name == EntryMapper.EntryName
  {
    var a := Linked(collection, entries, n);
    (a.Ok? <==> forall i | 0 <= i < n :: Client.ObjectFromEntry(collection, entries[i], false).Ok?)
    && (a.Ok? ==> forall i | 0 <= i < n ::
      Client.ObjectFromEntry(collection, entries[i], false).Ok?
      && a.value[i] == Client.ObjectFromEntry(collection, entries[i], false).value.(binaryLink := []))
  }

  lemma LinkedEntries(collection: Str, entries: seq<Element>, n: nat)
    requires n <= |entries|
    requires forall i | 0 <= i < n :: entries[i].name == EntryMapper.EntryName
    ensures LinkedReads(collection, entries, n)
  {
    var items := Client.Lift(entries);
    LinkedAsRecordsOf(collection, entries, n);
    Client.RecordsOfEntries(collection, items, n, false);
    assert items[..n] == Client.Lift(entries[..n]);
    Client.EntriesOfLift(entries[..n]);
    var a := Linked(collection, entries, n);
    var b := Client.RecordsOf(collection, items, n, false);
    assert forall i | 0 <= i < n :: items[i].Some?;
    if a.Ok? {
      forall i | 0 <= i < n
        ensures Client.ObjectFromEntry(collection, entries[i], false).Ok?
        ensures a.value[i] == Client.ObjectFromEntry(collection, entries[i], false).value.(binaryLink := [])
      {
        assert entries[..n][i] == entries[i];
        assert Ok(b.value[i]) == Client.ObjectFromEntry(collection, entries[i], false);
      }
    }
  }

  /** The records without their media links. */
  function Unlinked(rs: seq<Record>): (u: seq<Record>)
    ensures |u| == |rs| && forall i | 0 <= i < |rs| :: u[i] == rs[i].(binaryLink := [])
  {
    seq(|rs|, i requires 0 <= i < |rs| => rs[i].(binaryLink := []))
  }

  lemma UnlinkedSnoc(rs: seq<Record>, o: Record)
    ensures Unlinked(rs + [o]) == Unlinked(rs) + [o.(binaryLink := [])]
  {
  }

  /** `LoadMany` reads entries as the query operations do, except that it
      drops the media link. */
  lemma {:induction false} LinkedAsRecordsOf(collection: Str, entries: seq<Element>, n: nat)
    requires n <= |entries|
    ensures var a := Linked(collection, entries, n);
      var b := Client.RecordsOf(collection, Client.Lift(entries), n, false);
      a.Ok? == b.Ok? && (a.Ok? ==> a.value == Unlinked(b.value))
    decreases n
  {
    var items := Client.Lift(entries);
    var a := Linked(collection, entries, n);
    var b := Client.RecordsOf(collection, items, n, false);
    if n == 0 {
      assert a == Ok([]) && b == Ok([]);
    } else {
      LinkedAsRecordsOf(collection, entries, n - 1);
      var a0 := Linked(collection, entries, n - 1);
      var b0 := Client.RecordsOf(collection, items, n - 1, false);
      assert a0.Ok? == b0.Ok? && (a0.Ok? ==> a0.value == Unlinked(b0.value));
      var e := entries[n - 1];
      assert items[n - 1] == Some(e);
      if a0.Err? {
        assert a.Err? && b.Err?;
      } else if e.name != EntryMapper.EntryName {
        assert a == a0 && b == b0;
        assert a.Ok? ==> a.value == Unlinked(b.value);
      } else {
        var o := Client.ObjectFromEntry(collection, e, false);
        if o.Err? {
          assert a.Err? && b.Err?;
        } else {
          UnlinkedSnoc(b0.value, o.value);
          assert a == Ok(a0.value + [o.value.(binaryLink := [])]);
          assert b == Ok(b0.value + [o.value]);
          assert a.value == Unlinked(b0.value) + [o.value.(binaryLink := [])] == Unlinked(b.value);
        }
      }
    }
  }

  /** What `LoadMany` loads: the records linked to `r` through `joinField`,
      from at most ten pages of `collection`. */
  function Loaded(svc: Client.Service, fetch: Client.Fetch, r: Record, collection: Str, joinField: Str)
    : (l: Result<seq<Record>, Error>)
    ensures var c := Client.Pages(svc, fetch, Query.AllPagesUrl(svc.serviceUrl, collection, [], JoinQuery(joinField, r.guid)), 10);
      (c.failure.Some? ==> l == Err(c.failure.value))
      && (l.Ok? ==> c.failure.None? && |l.value| == |c.entries|)
    ensures var c := Client.Pages(svc, fetch, Query.AllPagesUrl(svc.serviceUrl, collection, [], JoinQuery(joinField, r.guid)), 10);
      c.failure.None? ==> (l.Ok? <==> forall i | 0 <= i < |c.entries| :: Client.ObjectFromEntry(collection, c.entries[i], false).Ok?)
    ensures var c := Client.Pages(svc, fetch, Query.AllPagesUrl(svc.serviceUrl, collection, [], JoinQuery(joinField, r.guid)), 10);
      l.Ok? ==> forall i | 0 <= i < |c.entries| ::
        Client.ObjectFromEntry(collection, c.entries[i], false).Ok?
        && l.value[i] == Client.ObjectFromEntry(collection, c.entries[i], false).value.(binaryLink := [])
  {
    var c := Client.Pages(svc, fetch, Query.AllPagesUrl(svc.serviceUrl, collection, [], JoinQuery(joinField, r.guid)), 10);
    match Client.Outcome(c)
    case Err(err) => Err(err)
    case Ok(es) =>
      LinkedEntries(collection, es, |es|);
      Linked(collection, es, |es|)
  }

  /** `LoadMany(odbase, Collection, joinField)`: replace the `Many` entry of
      `collection` with the linked records, or drop it when there are none.
      Nothing else changes, and a failure changes nothing. */
  method LoadMany(svc: Client.Service, fetch: Client.Fetch, r: Record, collection: Str, joinField: Str)
    returns (r': Record, res: Result<(), Error>)
    ensures res.Err? <==> Loaded(svc, fetch, r, collection, joinField).Err?
    ensures res.Err? ==> r' == r && res.error == Loaded(svc, fetch, r, collection, joinField).error
    ensures res.Ok? ==> r' == r.(many := CacheMany(r.many, collection, Loaded(svc, fetch, r, collection, joinField).value))
  {
    var entries, _ := Client.GetAllPages(svc, fetch, collection, JoinQuery(joinField, r.guid), [], 10);
    if entries.Err? {
      return r, Err(entries.error);
    }
    var loaded := Linked(collection, entries.value, |entries.value|);
    if loaded.Err? {
      return r, Err(loaded.error);
    }
    return r.(many := CacheMany(r.many, collection, loaded.value)), Ok(());
  }

  /** `LoadMany(odbase, Collection)`: the join field is `<own collection>/Id`. */
  method LoadManyDefault(svc: Client.Service, fetch: Client.Fetch, r: Record, collection: Str)
    returns (r': Record, res: Result<(), Error>)
    ensures var l := Loaded(svc, fetch, r, collection, r.collection + Lit("/Id"));
      (res.Err? <==> l.Err?) && (res.Err? ==> r' == r) && (res.Ok? ==> r' == r.(many := CacheMany(r.many, collection, l.value)))
  {
    r', res := LoadMany(svc, fetch, r, collection, r.collection + Lit("/Id"));
  }
}
