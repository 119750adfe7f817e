# BPMOData client core in Dafny

This project models the data-shaping core of BPMOData, a C# client for the
OData/Atom service of bpm'online. The client reads and writes records
(`ODObject`) through a service object (`ODBase`). Its logic between the HTTP
calls is modelled as pure functions over immutable values:

- the session cache;
- the XML text sanitisers;
- the mapping from an Atom `entry` to a field dictionary;
- URL and query construction;
- the pagination loop;
- the payload builder for writes;
- the record life cycle: find, create or update, delete, upload a binary, remove a link, load linked records, merge.

The network becomes oracles. `Client.Fetch` maps a URL to what a GET returns. `Client.Server` maps a write request to the reply. SHA-256 is `Client.Hasher`. The clock is a parameter.

Modules, in dependency order:

| module | file | what it holds |
|---|---|---|
| `Wrappers` | wrappers.dfy | `Option` and `Result` |
| `Text` | text.dfy | strings as UTF-16 code units (`Str`), ordinal `Replace`, `Split`, `Join` |
| `Numbers` | numbers.dfy | `Int32.TryParse`, decimal rendering, upper-case hex |
| `Faults` | faults.dfy | the exceptions the client raises, as an `Error` datatype, including the refusal of an invalid element name (an `XmlException`, or an argument exception for an empty key) and the `InvalidCastException` of a non-element feed child |
| `Values` | values.dfy | the field values (`null`, strings, integers, booleans) and their rendering |
| `XmlTree` | xml_tree.dfy | the element tree and `InnerText`, `GetAttribute`, first child by name |
| `XmlNames` | xml_names.dfy | the local-name check `XName` applies (`XmlConvert.VerifyNCName`) |
| `XmlChars` | xml_chars.dfy | `RemoveInvalidXMLChars`, `XMLQuotes`, `Dequote` |
| `SessionCache` | session_cache.dfy | `ODBaseCache` |
| `EntryMapper` | entry_mapper.dfy | `GetEntryFields`, `GetDataLink` |
| `Payload` | payload.dfy | the Atom entry that `AddItem` and `UpdateItem` send |
| `Query` | query.dfy | `$select`, `$expand`, `$filter` and the https rewrite |
| `Records` | records.dfy | the `ODObject` state and its local operations |
| `Client` | client.dfy | `GetPage`, `GetAllPages`, the query methods and the write calls |
| `Lifecycle` | lifecycle.dfy | the `ODObject` operations that talk to the service |

Strings are sequences of 16-bit code units, not Dafny `char`. `RemoveInvalidXMLChars` is about unpaired surrogates, and a Dafny `char` cannot hold one.

A .NET `Dictionary` enumerates its keys in an order that the program does not control. Operations that loop over a dictionary therefore take that order as a `keys` parameter. Each such operation states its result for every order.

Where the code and its documentation differ, the model follows the code:

- `GetAllPages` compares each next link with the URL the previous link set, because the loop variable changes inside the loop over a page's items. A cycle A → B → A is fetched again until the iteration bound (`Client.TwoPageCycle`). A page A whose next links are B and then A is also fetched again (`Client.BackLinkRefetch`).
- The `$select` list gets `Id,` in front unless it already starts with `Id,`. So `Name,Id` becomes `Id,Name,Id`. `Query.SelectFields` states exactly this.
- `ODObject.Update` does not store the id that a create returns. A second `Update` of a new object posts it again. `Lifecycle.UpdateTwice` states this.
- `ODObject.UploadBinary` returns `false` only when the upload returned an empty string. `ODBase.UploadBinary` never returns an empty string: it returns the hash, or a fixed text. So the `false` branch is unreachable, and `Lifecycle.UploadBinary` proves that a successful result is `true`.
- The find constructor raises a plain `Exception` when the item is missing. It is modelled as `NotFound` with the item path the message names.

## Model

| member | source | states |
|---|---|---|
| SessionCache.Get | ODBase.cs:21-28 | a jar is returned exactly when the key is cached |
| SessionCache.Set | ODBase.cs:67-74 | the key then maps to the new jar with the given stamp; every other key reads as before |
| SessionCache.Drop | ODBase.cs:30-36 | the key then reads as absent; every other key keeps its entry |
| SessionCache.Amount | ODBase.cs:43-54 | a span component is an Int32, and zero unless the span ends in that unit letter |
| SessionCache.GetFresh | ODBase.cs:38-65 | a missing key gives null. An in-range span gives the jar iff it was stamped strictly after now minus the span. A span or cut-off outside the TimeSpan/DateTime range raises out-of-range, and nothing else does |
| SessionCache.UnknownSuffixIsZero | ODBase.cs:43-54 | a span not ending in m, h or d is zero |
| SessionCache.UnparsableIsZero | ODBase.cs:43-54 | a span whose number does not parse as an Int32 is zero |
| SessionCache.MinutesSpan | ODBase.cs:43-56 | "<n>m" spans exactly 60·n seconds |
| SessionCache.FreshAfterSet | ODBase.cs:38-74 | a jar just stored is found by any positive span |
| SessionCache.LongerSpanKeepsHits | ODBase.cs:56-61 | a jar found with a shorter span is also found with a longer one |
| Numbers.ParseInt32 | ODBase.cs:43-54 | a parsed number is within the Int32 range |
| Numbers.ParseOrZero | ODBase.cs:43-54 | the value is an Int32, and zero when parsing fails |
| Numbers.DecimalRoundTrip | ODBase.cs:43-54 | every Int32 written in decimal parses back to itself |
| Numbers.DigitsOfNat | ODBase.cs:43-54 | the decimal digits of n spell n |
| Numbers.HexUpper | ODBase.cs:876-887 | the hash text has two hex digits per byte |
| Numbers.HexRoundTrip | ODBase.cs:876-887 | decoding the hash text gives back the digest bytes |
| Values.FromStrings | ODBase.cs:1039-1047 | the record data has the mapper's keys, each with its text as a string value |
| XmlTree.FirstChild | ODBase.cs:726 | the first child element with the name, or none exactly when no child has it |
| XmlNames.ParseNCName | ODBase.cs:638 | the longest prefix that is a name without colon: zero iff the first unit cannot start a name, and the unit after it cannot continue one |
| XmlNames.VerifyNCName | ODBase.cs:638 | a key is accepted as an element's local name iff it is a name without colon |
| XmlNames.NCNameExcludes | ODBase.cs:907 | an accepted name holds no colon, space or `!`, and does not start with a digit, `-` or `.` |
| XmlNames.TempKeyIsNotName | ODBase.cs:638 | a key starting with `!` is refused |
| XmlChars.RemoveInvalidXMLChars | ODBase.cs:154-158 | null gives the empty string; otherwise the scrubbed text |
| XmlChars.ScrubPrefixShape | ODBase.cs:146-158 | every unit of the scrubbed prefix is allowed; every low surrogate in it follows a high one; every high surrogate is followed by a low one, except possibly a final one, which then awaits the low unit s[n] |
| XmlChars.ShapeStep | ODBase.cs:146-158 | one more input unit, dropped or kept, keeps that shape |
| XmlChars.DropKeepsShape | ODBase.cs:146-158 | a dropped unit leaves the scrubbed prefix as it was, and its shape with it |
| XmlChars.KeepKeepsShape | ODBase.cs:146-158 | a kept low surrogate follows the high one kept before it; a kept high surrogate awaits a low one in the input |
| XmlChars.ScrubWellFormed | ODBase.cs:146-158 | the output has no control or non-character unit and no unpaired surrogate |
| XmlChars.ScrubUpToClean | ODBase.cs:146-158 | text that is already well-formed passes through unchanged |
| XmlChars.ScrubFixpoint | ODBase.cs:146-158 | the sanitiser leaves a text unchanged iff the text is well-formed |
| XmlChars.ScrubIdempotent | ODBase.cs:146-158 | sanitising twice equals sanitising once |
| XmlChars.PairSurvives | ODBase.cs:146-158 | a high surrogate followed by a low one is kept as a pair |
| XmlChars.XMLQuotes | ODBase.cs:616-626 | null maps to null and nothing else does |
| XmlChars.ChainIsEscape | ODBase.cs:616-626 | the chain of six replacements equals escaping each unit on its own, so `&` is escaped exactly once |
| XmlChars.XMLQuotesIsEscape | ODBase.cs:616-626 | `XMLQuotes` of a string is the unit-wise escape |
| XmlChars.XMLQuotesShape | ODBase.cs:616-626 | the output is no shorter and holds no `<`, `>`, `"`, CR or LF |
| XmlChars.EscapeRoundTrip | ODBase.cs:616-626 | without CR and LF, unescaping the entities gives back the input |
| XmlChars.DequoteRoundTrip | ODBase.cs:611-614 | halving doubled apostrophes undoes `Dequote`, whose output is longer by the number of apostrophes |
| XmlChars.Dequote | ODBase.cs:611-614 | halving the doubled apostrophes of the result gives the name back, and the result is longer by the number of apostrophes |
| EntryMapper.PropertyValue | ODBase.cs:729-750 | a property contributes only non-empty text |
| EntryMapper.PropertyValueCases | ODBase.cs:729-750 | empty text, the zero Guid and the minimum DateTime are skipped; booleans read "1"/"0"; an untyped value reads as its text |
| EntryMapper.PropsKeys | ODBase.cs:726-752 | a key is read iff some property element supplies it after the `d:` prefix is removed |
| EntryMapper.PropsLastWriter | ODBase.cs:726-752 | a key holds the value of the last element that supplies it |
| EntryMapper.PropsUntouched | ODBase.cs:726-752 | a key no element supplies keeps its earlier value |
| EntryMapper.PropsUniformValue | ODBase.cs:726-752 | when every element supplying a key agrees on the value, the key reads that value |
| EntryMapper.Prefixed | ODBase.cs:762-765 | an inline field is keyed by title + `__` + its key, and only such keys arise |
| EntryMapper.EntryFields | ODBase.cs:719-771 | the field map of an entry has no empty value; a missing `m:properties` raises a null reference |
| EntryMapper.ChildrenFieldsFail | ODBase.cs:722-725 | the loop over an entry's children raises a null reference once it has met a `content` child without `m:properties` |
| EntryMapper.MissingPropertiesFails | ODBase.cs:722-725 | an entry with a `content` child lacking `m:properties` raises a null reference |
| EntryMapper.OtherChildrenEmpty | ODBase.cs:719-771 | an entry with neither `content` nor `link` children has no fields |
| EntryMapper.ContentOnlyFields | ODBase.cs:722-752 | an entry whose only child is `content` has exactly the fields of its properties |
| EntryMapper.ChildStep | ODBase.cs:722-769 | only `content` and `link` children contribute fields |
| EntryMapper.InlineFields | ODBase.cs:754-768 | inlined entries only touch keys under their title prefix |
| EntryMapper.InlineSingleEntry | ODBase.cs:754-768 | a link inlining one entry adds that entry's fields under the link's title |
| EntryMapper.FieldNameOfData | ODBase.cs:728 | a `d:`-prefixed name without a colon yields the bare key |
| EntryMapper.DataLinkIndex | ODBase.cs:708-715 | the first child that is a media data link, or none exactly when no child is one |
| EntryMapper.NoDataLink | ODBase.cs:705-717 | an entry without a data link child has the empty media link |
| EntryMapper.FirstDataLink | ODBase.cs:705-717 | the media link is the href of the first data link child, whatever children follow it |
| Payload.CreateProperties | ODBase.cs:634-643 | one element per non-null field, in enumeration order, named by the key and holding the value's sanitised text; null fields are skipped |
| Payload.NonNullKeys | ODBase.cs:634-640 | the enumerated keys whose value is not null, each a key of the data, and every such key |
| Payload.ValidNamesArePlain | ODBase.cs:907-911 | keys the update payload accepts as element names hold no colon, so the reader gets each key back |
| Payload.NamesValidOrder | ODBase.cs:899-911 | keys valid for an update are valid for a create; a non-null `!` key is valid for neither |
| Payload.UpdateProperties | ODBase.cs:902-917 | one `d:` element per key in enumeration order; a null field is an empty element with `m:null="true"` and no other attribute; a non-null field is the element holding its sanitised text |
| Payload.EntryDocument | ODBase.cs:633-643 | the payload is an `entry` element |
| Payload.Readable | ODBase.cs:633-643 | a reader sees only non-null fields with non-empty sanitised text, as that text |
| Payload.CreateReadsAsUpdate | ODBase.cs:633-643 | leaving out the null fields changes nothing a reader of the payload sees |
| Payload.UpdateReadBack | ODBase.cs:902-919 | the update properties read back as the readable fields, in any enumeration order |
| Payload.UpdateProvides | ODBase.cs:902-919 | the element of key i supplies key i, iff its value is not null and its text is not empty, and no other key |
| Payload.UpdateReadsKey | ODBase.cs:902-919 | a key is read back from the update payload iff it is readable |
| Payload.UpdateReadsValue | ODBase.cs:902-919 | a readable key is read back with its value's text |
| Payload.ReadDocument | ODBase.cs:719-771 | reading the payload document yields its properties' fields |
| Payload.UpdateRoundTrip | ODBase.cs:899-919 | the mapper reads the update payload back as exactly the readable fields |
| Payload.CreateRoundTrip | ODBase.cs:630-643 | the mapper reads the create payload back as exactly the readable fields |
| Payload.PayloadTextWellFormed | ODBase.cs:633-643 | every value the payload carries is well-formed XML text |
| Query.SelectFields | ODBase.cs:1149-1152 | the list starts with `Id,`, and is the input when it already did, else `Id,` + input |
| Query.SelectFieldsIdempotent | ODBase.cs:1149-1152 | prefixing twice equals prefixing once |
| Query.Target | ODBase.cs:1158-1160 | the object path is the text before the field's last `/` |
| Query.DedupShape | ODBase.cs:1153-1172 | the path list has no duplicates and holds exactly the paths seen |
| Query.ExpandSeenIsDedup | ODBase.cs:1153-1172 | the loop records each distinct object path once, in first-seen order |
| Query.ExpandTextIsJoin | ODBase.cs:1153-1172 | the `$expand` text is the recorded paths joined by ", " |
| Query.NoSlashNoTargets | ODBase.cs:1153-1172 | tokens without `/` expand nothing |
| Query.ExpandListShape | ODBase.cs:1153-1172 | a field list without `/` gives no `$expand`; otherwise the distinct paths, deduplicated and joined |
| Query.QueryString | ODBase.cs:383 | the query part is empty iff there is neither a field list nor a filter |
| Query.QueryStringRoundTrip | ODBase.cs:383 | the `$select` and `$filter` parts can be read back from the URL |
| Query.AllPagesUrl | ODBase.cs:383 | the first page URL of a crawl starts with the collection URL |
| Query.AllPagesUrlReadsBack | ODBase.cs:383 | the first page URL reads back as its field list and filter when the fields hold no `&` |
| Query.AllLimitedQuery | ODBase.cs:1234-1237 | the query handed on starts with the caller's filter, and is that filter iff the Id-prefixed fields name no object path |
| Query.LimitedUrl | ODBase.cs:1174 | the page URL starts with the collection URL; its full form is stated by `Query.LimitedUrlIsQuery` and read back by `Query.LimitedUrlReadsBack` |
| Query.LimitedUrlIsQuery | ODBase.cs:1174 | the page URL is the collection URL, then `?$select=` with the Id-prefixed fields, then `&$filter=` with the filter or `1 eq 1`, then the `$skip` part and the `$expand` part |
| Query.LimitedUrlReadsBack | ODBase.cs:1147-1174 | a reader recovers the Id-prefixed `$select` list, the filter or `1 eq 1`, the skip count (0 when not positive, as no `$skip` is sent) and the `$expand` list of the field paths; there is no `$top` |
| Query.LimitedFilterReadsBack | ODBase.cs:1174 | the `$filter` value reads back as the filter, the skip count and the `$expand` list |
| Query.SkipExpandReadsBack | ODBase.cs:1174 | the `$skip` and `$expand` parts read back as the count, 0 when not positive, and the list |
| Query.SkipReadsBack | ODBase.cs:1174 | a positive count is sent as decimal digits that parse back to it |
| Query.NoSkipReadsBack | ODBase.cs:1174 | without `$skip` the count reads as 0 |
| Query.ExpandReadsBack | ODBase.cs:1174 | the `$expand` part, present only for a non-empty list, reads back as the list |
| Query.EqLiteral | ODBase.cs:1065-1068 | `true` and `false` stay bare; other values gain one apostrophe on each side |
| Query.EqLiteralRoundTrip | ODBase.cs:1065-1068 | stripping the quotes gives back the value |
| Query.UniqueFieldFilter | ODBase.cs:1053-1071 | in `contains` mode the value follows `substringof('` and the field closes the call; in any other mode the filter is the field, ` eq ` and a literal that unquotes to the value |
| Query.UniqueFieldUrl | ODBase.cs:1058-1068 | the URL is the collection URL with the filter as its only parameter |
| Query.HttpsFix | ODBase.cs:526-529 | on an https service, a URL starting with `http://` has every `http://` in it rewritten to `https://`; any other URL is unchanged |
| Query.HttpsFixIdempotent | ODBase.cs:526-529 | rewriting twice equals rewriting once |
| Records.Get | ODObject.cs:44-51 | a missing key reads as null; a present key reads its value |
| Records.Set | ODObject.cs:52-55 | the key set gains the key, and nothing else of the object changes |
| Records.SetThenGet | ODObject.cs:42-56 | a key reads what was last written to it; other keys are unaffected |
| Records.NewObject | ODObject.cs:281-289 | the new object is writable and in the given collection |
| Records.NewObjectShape | ODObject.cs:281-289 | a new object has exactly the keys CreatedOn and ModifiedOn, and does not exist |
| Records.CollectionLocalName | ODObject.cs:128-141 | the name ends in `Collection` or `CollectionVersion`, and is the collection or the collection + `Collection` |
| Records.CollectionLocalNameIdempotent | ODObject.cs:128-141 | applying it to its own result changes nothing |
| Records.FixValue | ODObject.cs:68-74 | a value not ending at midnight is unchanged |
| Records.FixDateBug | ODObject.cs:63-77 | the key set is unchanged; only midnight values change, to their text with `T00:00:00` replaced by `T12:00:00` |
| Records.FixValueFixed | ODObject.cs:63-77 | no value ends at midnight after the fix |
| Records.FixDateBugIdempotent | ODObject.cs:63-77 | fixing twice equals fixing once |
| Records.CleanTemp | ODObject.cs:185-202 | the two results are disjoint and their union is the input; temporary holds exactly the `!` keys |
| Records.Merged | ODObject.cs:413-443 | null values remove keys, other new values overwrite, and keys not in the new map are untouched |
| Records.MergeOne | ODObject.cs:426-437 | one merged key is removed or set and no other key changes |
| Records.MergeData | ODObject.cs:413-443 | the loop over the new map, in any enumeration order, computes the merge |
| Records.WithoutId | ODObject.cs:390-408 | the other object's fields without Id, all others kept |
| Records.MergeKeepsId | ODObject.cs:390-408 | merging another object never adds, removes or changes Id |
| Records.MergeWithRecord | ODObject.cs:390-408 | a read-only object raises the update security error unchanged; otherwise it merges the other's fields without Id |
| Records.MergeWith | ODObject.cs:413-443 | a read-only object raises the update security error unchanged; otherwise it merges the map |
| Records.CacheMany | ODObject.cs:170-178 | a non-empty result is cached under the collection, an empty one removes it, and other collections are untouched |
| Client.SetTimeout | ODBase.cs:131-144 | a positive value is set; any other is ignored; nothing else changes |
| Client.TimeoutStaysPositive | ODBase.cs:131-144 | the timeout stays positive whatever is assigned |
| Client.FeedItems | ODBase.cs:562-572 | every kept child is an entry or a link, and no more are kept than there are children |
| Client.FeedItemsMembers | ODBase.cs:562-572 | a child is kept iff it is an entry or a link |
| Client.FeedItemsConcat | ODBase.cs:562-572 | children are kept in document order: the items of two runs of children are those of the first, then those of the second |
| Client.PageItems | ODBase.cs:558-580 | a single feed yields exactly its entry and link children in document order, and raises a null reference when it is not the root or an invalid cast when it holds non-whitespace text; otherwise a single entry is the root's, a nested one yields null, and anything else nothing |
| Client.GetPage | ODBase.cs:524-608 | the https-fixed URL is fetched; an unreachable service raises a web error naming it; malformed XML yields no items |
| Client.PlainServiceFetchesAsGiven | ODBase.cs:526-529 | without https the URL is fetched as given |
| Client.ScanItems | ODBase.cs:390-405 | the scan raises a null reference iff some scanned item is null; otherwise its entries are the entry items, in order |
| Client.EntriesOf | ODBase.cs:392-395 | no more entries than items |
| Client.EntriesOfMembers | ODBase.cs:392-395 | an element is collected iff it is an `entry` item |
| Client.EntriesOfLift | ODBase.cs:392-395 | a list of entries collects to itself |
| Client.ScanFollow | ODBase.cs:396-404 | another page is due iff some next link differs from the current URL, and then the URL is such a link's href |
| Client.ScanSingleTarget | ODBase.cs:396-404 | when all next links name one target, the next URL is that target and differs from the current one |
| Client.PageScan | ODBase.cs:387-405 | a failed fetch propagates; a fetched page fails iff it has a null item; otherwise its entries are the page's entry items, in order |
| Client.Pages | ODBase.cs:378-410 | at most maxIterations pages are fetched, none if it is not positive, the first being the start URL; only entries are collected |
| Client.PagesStep | ODBase.cs:385-407 | the first turn fetches the start URL and either fails there or continues from the URL its scan names |
| Client.PagesCollect | ODBase.cs:385-407 | the crawl's entries are those of the pages it fetched, in fetch order and in document order within a page; when it fails, the last page fetched is the one that failed and contributes nothing |
| Client.PagesCollectFail | ODBase.cs:385-407 | a failing first page ends the crawl with nothing collected |
| Client.PagesCollectStep | ODBase.cs:385-407 | a successful first page's entries go before those of the rest of the crawl |
| Client.ExtendCollects | ODBase.cs:385-407 | putting one page's entries in front of a crawl keeps the entries equal to those of the fetched pages |
| Client.PagesChained | ODBase.cs:385-407 | each fetched page asked for the one fetched after it |
| Client.PagesFollowNext | ODBase.cs:385-407 | each fetched page after the first is named by a next link of its predecessor that differs from the predecessor's URL |
| Client.ScanLeads | ODBase.cs:396-404 | a page whose scan asks for more leads to the URL it names |
| Client.Outcome | ODBase.cs:378-410 | the loop fails iff some page failed, else returns the collected entries |
| Client.ScanPage | ODBase.cs:390-405 | the loop over one page's items computes the scan |
| Client.FetchPage | ODBase.cs:387-405 | one turn of the loop fetches and scans the page |
| Client.GetAllPages | ODBase.cs:378-410 | the method fetches exactly the reference crawl's pages and returns its failure or the entries of all fetched pages, page after page |
| Client.CrawlLoop | ODBase.cs:385-407 | the loop fetches exactly the reference crawl's pages and ends with its entries and failure |
| Client.TwoPageCycle | ODBase.cs:385-407 | pages A and B linking to each other are fetched A, B, A |
| Client.BackLinkRefetch | ODBase.cs:396-404 | on page A, next links B and then A lead back to A: each link is compared with the URL set by the link before it |
| Client.ObjectFromEntry | ODBase.cs:1039-1047 | the record holds the entry's fields, its media link and its Id as guid; an entry without Id raises a null reference |
| Client.FirstEntry | ODBase.cs:1074-1082 | a null item before any entry raises a null reference; no entry gives none; otherwise the first entry item |
| Client.GetFirstItemByUniqueField | ODBase.cs:1050-1083 | a failed fetch propagates; a null item before the first entry raises a null reference; no entry gives none; otherwise the writable record read from the first entry |
| Client.RecordsOf | ODBase.cs:1176-1182 | every built record exists, in the collection, with the given read-only flag; any failure is a null reference |
| Client.RecordsOfEntries | ODBase.cs:1176-1182 | building succeeds iff no item is null and every entry reads as an object; record i is the object read from entry i |
| Client.RecordsOfFailStep | ODBase.cs:1176-1182 | a null item or an unreadable entry fails the build |
| Client.RecordsOfSkipStep | ODBase.cs:1176-1182 | a non-entry item adds no record |
| Client.RecordsOfEntryStep | ODBase.cs:1176-1182 | a readable entry adds its object as the next record |
| Client.GetSomeLimitedItemsByQuery | ODBase.cs:1146-1184 | a failed fetch propagates; otherwise it succeeds iff no item is null and every entry reads, record i being the read-only object of entry i |
| Client.GetAllLimitedItemsByQuery | ODBase.cs:1205-1251 | the records of the crawl over the Id-prefixed, expanded query, all read-only |
| Client.IndexEntries | ODBase.cs:1262-1273 | every key of the dictionary is its record's value of the field |
| Client.IndexStep | ODBase.cs:1262-1273 | one more entry sets its own key and leaves every other key as it was |
| Client.IndexLastWins | ODBase.cs:1258-1275 | a key is present iff some entry has that field value, and maps to the last such entry's record |
| Client.GetDictionaryByUniqueField | ODBase.cs:1253-1275 | the dictionary of the crawl's entries keyed by the field, or the crawl's failure |
| Client.ItemUrl | ODBase.cs:777 | the item URL is the service URL and collection, `Collection(guid'`, the guid and `')`, and the guid can be cut back out of it |
| Client.ItemUrlInjective | ODBase.cs:777 | different guids give different item URLs |
| Client.CreateUrl | ODBase.cs:645 | the POST goes to the service URL, the collection and `Collection/` |
| Client.CreateUrlIsNoItemUrl | ODBase.cs:645 | the create URL is never the URL an update sends to |
| Client.BodyReadsBack | ODBase.cs:630-643 | the body of a write reads back as the readable fields |
| Client.WrittenRecordReadsBack | ODBase.cs:1039-1047 | a written body with an Id becomes a record holding the readable fields |
| Client.AddItem | ODBase.cs:630-703 | a non-null key that is not a name raises before any request; otherwise one POST of the data to the collection URL; failure raises a web error; 201 Created gives the Location header, any other reply "?" |
| Client.UpdateItem | ODBase.cs:899-971 | a key that is not a name raises before any request; otherwise one PUT to the item URL + `/`; failure raises a web error; success gives "ok" |
| Client.SentUpdateReadsBack | ODBase.cs:899-919 | the body of an update that was sent reads back as the readable fields of the data |
| Client.DeleteItem | ODBase.cs:775-806 | one DELETE of the item URL; failure raises a web error |
| Client.DeleteLink | ODBase.cs:808-838 | one DELETE of the item's `$links` URL; failure raises a web error |
| Client.UploadBinary | ODBase.cs:840-897 | one PUT of the bytes to the item's Data URL; success gives the 64-digit hash of the bytes, or the fixed text; never empty |
| Lifecycle.Stamped | ODObject.cs:298-299 | the date fix plus ModifiedOn: the keys gain ModifiedOn set to the stamp, other values are fixed |
| Lifecycle.Update | ODObject.cs:294-315 | read-only raises "update"; otherwise the record is stamped first and keeps the stamp whatever follows; a key that is not a name sends nothing and raises the name error; else one POST of the stamped data (no guid) or PUT to the item URL (guid), failing iff the server fails, with the web error of that request |
| Lifecycle.StampedTwice | ODObject.cs:298-299 | stamping twice equals stamping once with the later stamp |
| Lifecycle.UpdateTwice | ODObject.cs:294-315 | a second update gives the record, requests and result of one update at the later time, so a new object is posted again |
| Lifecycle.TempFieldBlocksUpdate | ODObject.cs:294-308 | an object holding a non-null `!` field is stamped, sends nothing and raises the name error |
| Lifecycle.Delete | ODObject.cs:321-336 | read-only raises "delete"; without guid nothing happens; else one DELETE, whose failure raises its web error and leaves the object; on success the guid is cleared and Id set to null |
| Lifecycle.DeleteForgets | ODObject.cs:321-336 | a deleted object does not exist, has null Id, keeps its other fields, ignores a second delete, and its next update sends what adding its stamped data sends |
| Lifecycle.LinkField | ODObject.cs:376-378 | the link field is the target collection followed by Id |
| Lifecycle.DeleteLink | ODObject.cs:371-388 | read-only raises "deletelink"; else one DELETE of the link, whose failure raises its web error; on success the link field, if present, becomes null; the key set never changes |
| Lifecycle.Described | ODObject.cs:345-355 | Size and TypeId, or Hash, are set as requested and other fields kept |
| Lifecycle.SaveUpload | ODObject.cs:345-357 | the save step after an upload is `Update` of the record with size, type and hash set as the flags ask: same record, same requests, the same error; success gives `true` |
| Lifecycle.UploadBinary | ODObject.cs:338-369 | read-only raises "uploadbinary"; else the bytes are sent first, and a failed upload raises its web error and changes nothing; saving metadata is exactly `Update` of the record described with size, type and hash: its record, requests and error; without metadata nothing more is sent; success returns true |
| Lifecycle.DescribedSurvivesStamp | ODObject.cs:345-356 | the following update's date fix keeps the hash, size and type written |
| Lifecycle.UploadRecords | ODObject.cs:338-369 | after an upload the record holds the hash of the bytes, their count and the file type, as requested |
| Lifecycle.ReadOnlyRefusesWrites | ODObject.cs:294-388 | on a read-only object every write raises the security error, sends nothing and changes nothing |
| Lifecycle.Find | ODObject.cs:207-227 | found iff the item page has exactly one item, an entry whose fields read and are not empty; the record holds those fields, the entry's media link, the guid and the collection, and is writable; a failed fetch passes on its error, a page without exactly one item or an entry without fields raises not-found, a null item a null reference, and a failing entry its own error |
| Lifecycle.FindReadsWritten | ODObject.cs:207-227 | finding an item the service returns as a written body gives the readable fields of the write |
| Lifecycle.Linked | ODObject.cs:160-168 | each linked record exists, is writable, has no media link, and there is one per entry |
| Lifecycle.LinkedEntries | ODObject.cs:160-168 | on entries, loading succeeds iff every entry reads as an object, and record i is entry i's object without media link |
| Lifecycle.LinkedAsRecordsOf | ODObject.cs:160-168 | the linked records are the query records without media link |
| Lifecycle.Loaded | ODObject.cs:156-180 | a failed crawl fails the load; otherwise it succeeds iff every crawled entry reads, record i being entry i's object without media link |
| Lifecycle.LoadMany | ODObject.cs:156-180 | a failed load raises and changes nothing; else only the collection's cache entry changes |
| Lifecycle.LoadManyDefault | ODObject.cs:148-152 | the join field defaults to the object's collection + "/Id" |
| Lifecycle.JoinQuery | ODObject.cs:158 | the filter is the join field, ` eq guid'`, the guid, which can be cut back out of it, and a closing quote |

## Left out

- HTTP, authentication and cookies are left out, as are `CheckAuth`, `TryLogin`, `GetCollections`, `GetCollectionSize`, `GetMetadata` and both `GetData` methods. They are I/O only. The write calls keep their requests and replies as oracles.
- `GetCollectionRelations` is left out because it is an empty stub.
- Loading XML documents is left out. A document that fails to load is `Malformed`, and `GetPage` returns no items for it, as the code does.
- The tree holds elements and text only; comments and processing instructions are not in it. Whitespace-only text is dropped, as `XmlDocument` does without `PreserveWhitespace`.
- The loops over an entry's children in `GetDataLink` and `GetEntryFields`, over `m:properties` and over `m:inline` (ODBase.cs:708, :722, :726 and :757) would raise `InvalidCastException` on a non-element child, as the feed loop does. The model does not: entries are read as their element children.
- ODWebException.cs is not part of this model. Web failures are the `Web(url)` error.
- SHA-256 is an oracle: the model does not compute the digest.
- `DateTime.Now` is a parameter. `ModifiedOn`'s round-trip text format is not modelled: the stamp is any string.
- The culture-dependent `DateTime.MinValue.ToString()` sentinel is left out. Only `0001-01-01T00:00:00` is recognised.
- Console output, `errorMessages`, `debugMessages` and the request counter are diagnostics only, so they are left out.
- The TLS certificate bypass is global process state, so it is left out.
- The `Data` property's runtime type switch needs reflection, so it is left out.
- `ToString`, `HasProperty` as a public member, and the `Properties` listing are left out: they are not part of the modelled behaviour.
- `GetAllItemsByQuery`, `GetSomeItems*`, `GetFirstItemByQuery` and the extra `GetSomeLimitedItems` overloads are left out. They are further wrappers over the same page fetch, and the pagination and record building they share are modelled.
- Culture-sensitive `EndsWith`, `StartsWith`, `ToLower` and `LastIndexOf` are modelled as ordinal, with ASCII-only lower-casing.
- Payloads carry their field map. The XML text produced by `XmlWriter` is not modelled. That text declares the namespaces without prefixes, so the service sees unprefixed names. `Client.Body` and `Payload` build the tree with the `d:` and `m:` prefixes the service uses when it serves an entry back. `Client.BodyReadsBack`, `Lifecycle.FindReadsWritten` and `Client.SentUpdateReadsBack` rely on the service serving the same fields back.
- XmlNames.IsStartUnit: non-ASCII units are classified by the name ranges of XML 1.0 fifth edition, while .NET uses its own tables. A surrogate pair (a character outside the Basic Multilingual Plane) is never a name unit, so such keys are refused.
- `InvalidName` does not name the offending key. Which key .NET reports depends on the dictionary's enumeration order.
- Faults.InvalidName: an empty key raises ArgumentNullException in .NET (ArgumentException on .NET 8), not XmlException; the model gives `InvalidName` for both. With an empty key and another invalid key, which of the two .NET raises depends on the dictionary's enumeration order, which the model does not fix.
- Client.RecordsOf: its own contract states the records' shape; `Client.RecordsOfEntries` states which records they are.
- Lifecycle.Linked: its own contract states the records' shape; `Lifecycle.LinkedEntries` states which records they are.
- EntryMapper.GetDataLink: its result is stated by `EntryMapper.NoDataLink` and `EntryMapper.FirstDataLink`, so it has no row of its own.
- Records.Exists: the `exists` property (ODObject.cs:34-40) is a definition, used in the contracts of `Records.NewObjectShape`, `Lifecycle.DeleteForgets`, `Client.ObjectFromEntry` and `Lifecycle.Linked`; it has no contract of its own.
- Query.LimitedUrlReadsBack: reads the URL back only when neither the fields nor the filter hold an `&` and the skip count is an Int32; otherwise the parts of the URL cannot be told apart.
- XmlTree.InnerText: an element's own text is kept as one string placed before its children's text, so text interleaved with child elements comes out in a different order than .NET's `InnerText` (`<d:X>a<y>b</y>c</d:X>` gives `acb`, not `abc`). Property elements of the service hold text only, where the two agree.
- Lifecycle.Find: the plain `Exception` for a missing item is modelled as `NotFound`.
