# BlobStore: a keyed store of conversation references

`BlobStore` keeps bot-framework conversation references under string keys in
an Azure blob container, one JSON blob per key. This project models it in
Dafny. There are two parts:

- **Blob names** (`BlobNames.dfy`). `GetBlobName` turns a key into a blob
  name. It rejects a null or empty key. Otherwise it splits the key on every
  invalid file-name character and joins the pieces with `"_"`. The model
  keeps that split/join form and proves it equal to a per-character
  replacement, `Sanitized`. The set of invalid characters differs by
  platform, so it is a parameter.
- **The store** (`Store.dfy`). Class `BlobStore` holds the container as a
  field `container: map<string, Content>` from blob names to blob text. A
  name missing from the map is the service's 404. Its methods `Get`, `Add`,
  `List` and `Remove` change or read that map the way the C# methods do. Each
  method is tied by its `ensures` to a function on container values
  (`GetResult`, `AddResult`, `Collect`, `RemoveResult`). The lemmas about
  those functions state the store's promises.

JSON is a `Codec`: two function values standing for
`JsonConvert.SerializeObject` and `DeserializeObject`. Deserialising gives
`Decoded(v)`, where `v` may be null (`None`), or `Malformed` (a
`JsonException`). Where a property needs the round trip, a lemma takes it as
the hypothesis `RoundTrips(codec)`. C# null is `None` throughout: for keys
(`Option<string>`) and for records (`Option<R>`, with `R` the record type).
Exceptions are `Failure` results: `ArgumentNull` from `GetBlobName`, and
`JsonError` from `Get`.

Three behaviours of the code that a reader might not expect, all modelled:
- `DeserializeObject` turns the JSON text `null` into a null record. `Get`
  then returns null for a blob that exists.
- `Add` without Overwrite tests `Get(key) == null`, not whether the blob
  exists. So a stored null does not block a later write (`StoredNullDoesNotGuard`).
- `List` adds such null records to its result.

## Model

| member | source | states |
|---|---|---|
| BlobNames.Split | BlobStore.cs:117 | `string.Split` with a non-empty separator array and no options: one more piece than there are separators, and no piece contains a separator; `JoinSplitIsReplaced` fixes where the pieces start and end |
| BlobNames.Join | BlobStore.cs:117 | `string.Join`: the joined length is the parts' total length plus one separator between each pair of neighbours, and the result starts with the first part; `JoinAppend` fixes the order and placement of the rest |
| BlobNames.JoinAppend | BlobStore.cs:117 | a single part joins to itself, and joining two non-empty runs of parts is joining each with one separator between them, so the parts appear in order with one separator between neighbours |
| BlobNames.JoinSplitIsReplaced | BlobStore.cs:117 | joining the split pieces with any one character puts it exactly where the separators were and keeps every other character, so, for a joining character that does not occur in the key, the pieces are the runs between separators |
| BlobNames.JoinSplitIsSanitized | BlobStore.cs:116-117 | joining the split pieces with "_" equals replacing each invalid character by '_' and keeping every other character, at the same length |
| BlobNames.GetBlobName | BlobStore.cs:109-120 | fails (ArgumentNullException) exactly when the key is null or empty; otherwise the name is the key with its invalid characters replaced by '_' |
| BlobNames.BlobNameIsValid | BlobStore.cs:116-117 | when '_' is itself valid, a blob name contains no invalid character |
| BlobNames.BlobNameIdempotent | BlobStore.cs:116-117 | sanitising a blob name again returns the same name |
| BlobNames.DistinctKeysCollide | BlobStore.cs:117 | two distinct keys, one with an invalid character where the other has '_', get the same blob name |
| Store.BlobStore.constructor | BlobStore.cs:14-18 | CreateIfNotExists: an existing container keeps its blobs, a missing one starts empty |
| Store.BlobStore.Get | BlobStore.cs:20-39 | the result is GetResult of the current container: ArgumentNull exactly for an invalid key, null when the blob name is absent (404), otherwise the decoded record, or JsonError for malformed JSON |
| Store.BlobStore.Add | BlobStore.cs:41-55 | the result and the new container are AddResult of the old container |
| Store.BlobStore.List | BlobStore.cs:57-88 | the records are Collect over all pages' names in enumeration order, the continuation token is always null, and the container is not modified |
| Store.BlobStore.Remove | BlobStore.cs:90-107 | the result and the new container are RemoveResult of the old container; the reference argument plays no part |
| Store.Entry | BlobStore.cs:66-79 | one listed name keeps at most one record: exactly one when the blob is present and decodes (a JSON null included), and that record is the decoded one; a 404 or a JsonException keeps nothing |
| Store.CollectAppend | BlobStore.cs:62-81 | the listing follows enumeration order: names listed later give records later |
| Store.CollectSkips | BlobStore.cs:66-79 | a listed name that has vanished (404) or holds malformed JSON adds nothing to the listing |
| Store.CollectMembers | BlobStore.cs:62-81 | a record is in the listing exactly when some listed name is in the container and its blob decodes to that record |
| Store.ListReturnsEveryDecodableBlob | BlobStore.cs:59-87 | when the pages cover the container, the listing has the record of every decodable blob and nothing else |
| Store.CollectCountsDecodable | BlobStore.cs:62-81 | when no name is listed twice, the listing has one record per listed name that is present and decodes |
| Store.ListCountsDecodableBlobs | BlobStore.cs:59-87 | when the pages list every blob exactly once, the listing has exactly as many records as the container has decodable blobs |
| Store.CollectMultiplicity | BlobStore.cs:62-81 | when no name is listed twice, each record occurs in the listing as often as there are listed blobs that decode to it |
| Store.ListMultiplicity | BlobStore.cs:59-87 | when the pages list every blob exactly once, each record occurs in the listing as often as the container has blobs decoding to it: exactly the decodable records, with their multiplicities |
| Store.InvalidKeyIsRejected | BlobStore.cs:109-114 | Get, Add and Remove all fail with ArgumentNull on a null or empty key, and the container is unchanged |
| Store.AddOverwriteWrites | BlobStore.cs:46-51 | with Overwrite true, Add writes the serialised record under the blob name, returns true, and leaves every other blob unchanged |
| Store.AddWithoutOverwriteGuards | BlobStore.cs:46-54 | with Overwrite false or unset, Add returns false exactly when Get finds a record, and then writes nothing; it writes and returns true exactly when Get answers null; if Get fails, Add fails with the same error and the container is unchanged |
| Store.AddFailureChangesNothing | BlobStore.cs:43-46 | a failing Add leaves the container unchanged |
| Store.GetAfterAdd | BlobStore.cs:26-51 | given the JSON round trip, a Get with the same raw key after a writing Add returns the written record |
| Store.SecondAddKeepsFirst | BlobStore.cs:46-54 | once a non-null record is stored, an Add without Overwrite returns false, keeps the container, and Get still returns the first record |
| Store.StoredNullDoesNotGuard | BlobStore.cs:30-51 | a stored null does not block a second Add without Overwrite, which returns true, and Get then returns the second record |
| Store.RemoveDeletesOneName | BlobStore.cs:94-106 | Remove returns true exactly when the blob name was present, deletes that name only, and keeps every other blob |
| Store.GetAfterRemove | BlobStore.cs:90-107 | after Remove, Get with the same key returns null |
| Store.RemoveAfterAdd | BlobStore.cs:94-105 | Remove right after a writing Add returns true, and a second Remove returns false |

## Left out

- The Azure SDK client (`BlobContainerClient`, downloads, uploads, deletes, blob listing). It is network I/O through a foreign library. The container is the map field instead.
- Newtonsoft JSON and the UTF-8 encoding of blob text. They are foreign code. They appear only as the `Codec` parameter, and the round trip is a hypothesis of the lemmas that need it.
- `Path.GetInvalidFileNameChars()`. Its contents depend on the platform, so the set is the `invalidChars` parameter.
- BlobNames.Split: its own contract gives only the pieces' number and that they hold no separator; their exact contents are stated by `JoinSplitIsReplaced`, and the joined result, which is all the source uses, by `JoinSplitIsSanitized`.
- Strings are sequences of Dafny `char`s, which are Unicode scalar values. C# strings are UTF-16 code units, so keys holding a lone surrogate cannot be represented, and "same length" counts scalar values. No invalid file-name character is a surrogate, so sanitisation is otherwise unaffected.
- BlobNames.Split: an empty separator set is taken to split nowhere. .NET's `Split` with an empty array instead splits on white space. `Path.GetInvalidFileNameChars()` is never empty, so the source cannot pass an empty set.
- Storage errors other than 404, which the source re-throws. They come from the service, not from this code.
- async/await and `CancellationToken`. Also the check-then-write race in `Add` without Overwrite: the model is sequential, so concurrency cannot be expressed.
- Real pagination. `List` takes the pages of names the service returns as its `pages` parameter. `pageSize` and `continuationToken` are accepted, but only the service interprets them.
- A null `options` argument to `Add`, which throws a NullReferenceException in the source. `AddOptions` is a value, so it cannot be null.
