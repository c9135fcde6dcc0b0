/**
  The keyed store of conversation references (class BlobStore).  The blob
  container is a map from blob names to their text; a missing name is the
  service's 404.  JSON is a codec given as a parameter: `serialize` is
  JsonConvert.SerializeObject and `deserialize` is DeserializeObject, which
  either yields a (possibly null) record or throws JsonException (Malformed).
*/
module Store {
  import opened Wrappers
  import opened BlobNames

  /** The text of a blob: the JSON document it holds. */
  type Content = string

  type Container = map<string, Content>

  /** What DeserializeObject makes of a text: a record, null, or JsonException. */
  datatype Decoded<R> = Decoded(value: Option<R>) | Malformed

  datatype Codec<!R> = Codec(serialize: Option<R> -> Content, deserialize: Content -> Decoded<R>)

  /** The JSON round trip the store relies on (null serialises to the literal null). */
  ghost predicate RoundTrips<R(!new)>(codec: Codec<R>)
  {
    forall x: Option<R> :: codec.deserialize(codec.serialize(x)) == Decoded(x)
  }

  /** The platform's invalid file-name characters and the JSON codec. */
  datatype Config<!R> = Config(invalidChars: set<char>, codec: Codec<R>)

  /** ArgumentNullException from GetBlobName, JsonException from Get. */
  datatype StoreError = ArgumentNull | JsonError

  /** ConversationReferenceStoreAddOptions; None is an unset `bool?`. */
  datatype AddOptions = AddOptions(overwrite: Option<bool>)

  datatype PagedData<R> = PagedData(data: seq<Option<R>>, continuationToken: Option<string>)

  predicate ValidKey(key: Option<string>)
  {
    key.Some? && key.value != ""
  }

  // ---------------------------------------------------------------------------
  // The operations on container values

  /** Get: null on 404, otherwise the decoded blob; malformed JSON throws. */
  function GetResult<R>(c: Container, cfg: Config<R>, key: Option<string>): Result<Option<R>, StoreError>
  {
    match GetBlobName(key, cfg.invalidChars)
    case None => Failure(ArgumentNull)
    case Some(name) =>
      if name !in c then Success(None)
      else match cfg.codec.deserialize(c[name])
        case Decoded(v) => Success(v)
        case Malformed => Failure(JsonError)
  }

  /** Add: its result and the container afterwards. */
  function AddResult<R>(c: Container, cfg: Config<R>, key: Option<string>, reference: Option<R>,
                        options: AddOptions): (Result<bool, StoreError>, Container)
  {
    match GetBlobName(key, cfg.invalidChars)
    case None => (Failure(ArgumentNull), c)
    case Some(name) =>
      var written := c[name := cfg.codec.serialize(reference)];
      if options.overwrite == Some(true) then (Success(true), written)
      else match GetResult(c, cfg, key)
        case Failure(e) => (Failure(e), c)
        case Success(None) => (Success(true), written)
        case Success(Some(_)) => (Success(false), c)
  }

  /** Remove: its result and the container afterwards. */
  function RemoveResult<R>(c: Container, cfg: Config<R>, key: Option<string>): (Result<bool, StoreError>, Container)
  {
    match GetBlobName(key, cfg.invalidChars)
    case None => (Failure(ArgumentNull), c)
    case Some(name) =>
      if name in c then (Success(true), c - {name}) else (Success(false), c)
  }

  /** What List keeps of one listed name: nothing on 404 or JsonException. */
  function Entry<R>(c: Container, codec: Codec<R>, name: string): (kept: seq<Option<R>>)
    ensures |kept| <= 1
    ensures |kept| == 1 <==> name in c && codec.deserialize(c[name]).Decoded?
    ensures forall x :: x in kept ==> codec.deserialize(c[name]) == Decoded(x)
  {
    if name !in c then []
    else match codec.deserialize(c[name])
      case Decoded(v) => [v]
      case Malformed => []
  }

  /** The records List gathers from the names it enumerates, in that order. */
  function Collect<R>(c: Container, codec: Codec<R>, names: seq<string>): seq<Option<R>>
  {
    if names == [] then []
    else Collect(c, codec, names[..|names| - 1]) + Entry(c, codec, names[|names| - 1])
  }

  /** The names of all pages, page after page. */
  function Flatten(pages: seq<seq<string>>): seq<string>
  {
    if pages == [] then [] else Flatten(pages[..|pages| - 1]) + pages[|pages| - 1]
  }

  // ---------------------------------------------------------------------------
  // The store object

  class BlobStore<R> {
    /** The blobs of the container, by name. */
    var container: Container
    const config: Config<R>

    /**
      The constructor's CreateIfNotExists: an existing container keeps its
      blobs (`existing` is Some), a missing one is created empty.
    */
    constructor (existing: Option<Container>, config: Config<R>)
      ensures this.config == config
      ensures container == if existing.Some? then existing.value else map[]
    {
      this.config := config;
      container := if existing.Some? then existing.value else map[];
    }

    method Get(key: Option<string>) returns (r: Result<Option<R>, StoreError>)
      ensures r == GetResult(container, config, key)
      ensures r == Failure(ArgumentNull) <==> !ValidKey(key)
      ensures ValidKey(key) && Sanitized(key.value, config.invalidChars) !in container ==> r == Success(None)
    {
      var blobName := GetBlobName(key, config.invalidChars);
      if blobName.None? {
        return Failure(ArgumentNull);
      }
      if blobName.value !in container {
        // the download answers 404
        return Success(None);
      }
      var decoded := config.codec.deserialize(container[blobName.value]);
      if decoded.Malformed? {
        return Failure(JsonError);
      }
      return Success(decoded.value);
    }

    method Add(key: Option<string>, reference: Option<R>, options: AddOptions) returns (r: Result<bool, StoreError>)
      modifies this
      ensures (r, container) == AddResult(old(container), config, key, reference, options)
    {
      var blobName := GetBlobName(key, config.invalidChars);
      if blobName.None? {
        return Failure(ArgumentNull);
      }
      // `options.Overwrite ?? false`, and only otherwise the call to Get
      var write := options.overwrite == Some(true);
      if !write {
        var existing := Get(key);
        if existing.Failure? {
          return Failure(existing.error);
        }
        write := existing.value.None?;
      }
      if write {
        container := container[blobName.value := config.codec.serialize(reference)];
        return Success(true);
      }
      return Success(false);
    }

    /**
      List enumerates the names the container returns page by page
      (`pages`, which the service computes from `continuationToken` and
      `pageSize`), downloads each, and keeps every record that decodes.
    */
    method List(pageSize: Option<int>, continuationToken: Option<string>, pages: seq<seq<string>>)
      returns (r: PagedData<R>)
      ensures r.data == Collect(container, config.codec, Flatten(pages))
      ensures r.continuationToken == None
    {
      var references: seq<Option<R>> := [];
      for p := 0 to |pages|
        invariant references == Collect(container, config.codec, Flatten(pages[..p]))
      {
        var page := pages[p];
        assert Flatten(pages[..p]) + page[..0] == Flatten(pages[..p]);
        for i := 0 to |page|
          invariant references == Collect(container, config.codec, Flatten(pages[..p]) + page[..i])
        {
          var name := page[i];
          if name in container {
            var decoded := config.codec.deserialize(container[name]);
            if decoded.Decoded? {
              references := references + [decoded.value];
            }
            // JsonException is swallowed
          }
          // 404 is skipped
          CollectSnoc(container, config.codec, Flatten(pages[..p]) + page[..i], name);
          assert page[..i + 1] == page[..i] + [name];
          assert Flatten(pages[..p]) + page[..i + 1] == (Flatten(pages[..p]) + page[..i]) + [name];
        }
        assert page[..|page|] == page;
        assert pages[..p + 1][..p] == pages[..p];
      }
      assert pages[..|pages|] == pages;
      return PagedData(references, None);
    }

    /** Remove ignores `reference`: it deletes by key alone. */
    method Remove(key: Option<string>, reference: Option<R>) returns (r: Result<bool, StoreError>)
      modifies this
      ensures (r, container) == RemoveResult(old(container), config, key)
    {
      var blobName := GetBlobName(key, config.invalidChars);
      if blobName.None? {
        return Failure(ArgumentNull);
      }
      if blobName.value in container {
        container := container - {blobName.value};
        return Success(true);
      }
      // the delete answers 404
      return Success(false);
    }
  }

  // ---------------------------------------------------------------------------
  // Properties of List

  lemma CollectSnoc<R>(c: Container, codec: Codec<R>, names: seq<string>, name: string)
    ensures Collect(c, codec, names + [name]) == Collect(c, codec, names) + Entry(c, codec, name)
  {
    assert (names + [name])[..|names|] == names;
  }

  /** List keeps the enumeration order: the records of consecutive runs of names. */
  lemma {:induction false} CollectAppend<R>(c: Container, codec: Codec<R>, a: seq<string>, b: seq<string>)
    ensures Collect(c, codec, a + b) == Collect(c, codec, a) + Collect(c, codec, b)
  {
    if b == [] {
      assert a + b == a;
    } else {
      var init, last := b[..|b| - 1], b[|b| - 1];
      assert b == init + [last];
      assert a + b == (a + init) + [last];
      CollectAppend(c, codec, a, init);
      CollectSnoc(c, codec, a + init, last);
      CollectSnoc(c, codec, init, last);
    }
  }

  /** A listed name that vanished (404) or holds malformed JSON is skipped. */
  lemma CollectSkips<R>(c: Container, codec: Codec<R>, a: seq<string>, name: string, b: seq<string>)
    requires name !in c || codec.deserialize(c[name]).Malformed?
    ensures Collect(c, codec, a + [name] + b) == Collect(c, codec, a + b)
  {
    CollectAppend(c, codec, a + [name], b);
    CollectSnoc(c, codec, a, name);
    CollectAppend(c, codec, a, b);
  }

  /**
    A record is in the listing exactly when some enumerated name is in the
    container and its blob decodes to that record.
  */
  lemma {:induction false} CollectMembers<R>(c: Container, codec: Codec<R>, names: seq<string>, x: Option<R>)
    ensures x in Collect(c, codec, names) <==>
            exists i :: 0 <= i < |names| && names[i] in c && codec.deserialize(c[names[i]]) == Decoded(x)
  {
    if names != [] {
      var init, last := names[..|names| - 1], names[|names| - 1];
      CollectMembers(c, codec, init, x);
      assert x in Collect(c, codec, names) <==> x in Collect(c, codec, init) || x in Entry(c, codec, last);
      if exists i :: 0 <= i < |names| && names[i] in c && codec.deserialize(c[names[i]]) == Decoded(x) {
        var i :| 0 <= i < |names| && names[i] in c && codec.deserialize(c[names[i]]) == Decoded(x);
        if i < |init| {
          assert init[i] == names[i];
        }
      }
      if exists i :: 0 <= i < |init| && init[i] in c && codec.deserialize(c[init[i]]) == Decoded(x) {
        var i :| 0 <= i < |init| && init[i] in c && codec.deserialize(c[init[i]]) == Decoded(x);
        assert names[i] == init[i];
      }
    }
  }

  /**
    When the pages enumerate the whole container, List returns the record of
    every blob that decodes and nothing else.
  */
  lemma ListReturnsEveryDecodableBlob<R>(c: Container, codec: Codec<R>, pages: seq<seq<string>>, x: Option<R>)
    requires forall name :: name in c ==> name in Flatten(pages)
    ensures x in Collect(c, codec, Flatten(pages)) <==>
            exists name :: name in c && codec.deserialize(c[name]) == Decoded(x)
  {
    var names := Flatten(pages);
    CollectMembers(c, codec, names, x);
    if exists name :: name in c && codec.deserialize(c[name]) == Decoded(x) {
      var name :| name in c && codec.deserialize(c[name]) == Decoded(x);
      var i :| 0 <= i < |names| && names[i] == name;
    }
  }

  /** The enumerated names whose blobs are present and decode. */
  function DecodableNames<R>(c: Container, codec: Codec<R>, names: seq<string>): set<string>
  {
    set n | n in names && n in c && codec.deserialize(c[n]).Decoded?
  }

  /**
    When no name is enumerated twice, List returns one record per decodable
    blob among the enumerated names: as many records as such blobs.
  */
  lemma {:induction false} CollectCountsDecodable<R>(c: Container, codec: Codec<R>, names: seq<string>)
    requires forall i, j :: 0 <= i < j < |names| ==> names[i] != names[j]
    ensures |Collect(c, codec, names)| == |DecodableNames(c, codec, names)|
  {
    if names == [] {
      assert DecodableNames(c, codec, names) == {};
    } else {
      var init, last := names[..|names| - 1], names[|names| - 1];
      assert names == init + [last];
      CollectCountsDecodable(c, codec, init);
      assert last !in init;
      if last in c && codec.deserialize(c[last]).Decoded? {
        assert DecodableNames(c, codec, names) == DecodableNames(c, codec, init) + {last};
        assert last !in DecodableNames(c, codec, init);
      } else {
        assert DecodableNames(c, codec, names) == DecodableNames(c, codec, init);
      }
    }
  }

  /**
    When the pages enumerate every blob of the container exactly once, List
    returns exactly as many records as the container has decodable blobs.
  */
  lemma ListCountsDecodableBlobs<R>(c: Container, codec: Codec<R>, pages: seq<seq<string>>)
    requires forall name :: name in c ==> name in Flatten(pages)
    requires forall i, j :: 0 <= i < j < |Flatten(pages)| ==> Flatten(pages)[i] != Flatten(pages)[j]
    ensures |Collect(c, codec, Flatten(pages))| == |set n | n in c && codec.deserialize(c[n]).Decoded?|
  {
    CollectCountsDecodable(c, codec, Flatten(pages));
    assert DecodableNames(c, codec, Flatten(pages)) == set n | n in c && codec.deserialize(c[n]).Decoded?;
  }

  /** The enumerated names whose blobs are present and decode to `x`. */
  ghost function NamesDecodingTo<R>(c: Container, codec: Codec<R>, names: seq<string>, x: Option<R>): set<string>
  {
    set n | n in names && n in c && codec.deserialize(c[n]) == Decoded(x)
  }

  /**
    When no name is enumerated twice, each record occurs in the listing as
    often as there are listed blobs that decode to it.
  */
  lemma {:induction false} CollectMultiplicity<R>(c: Container, codec: Codec<R>, names: seq<string>, x: Option<R>)
    requires forall i, j :: 0 <= i < j < |names| ==> names[i] != names[j]
    ensures multiset(Collect(c, codec, names))[x] == |NamesDecodingTo(c, codec, names, x)|
  {
    if names == [] {
      assert NamesDecodingTo(c, codec, names, x) == {};
    } else {
      var init, last := names[..|names| - 1], names[|names| - 1];
      assert names == init + [last];
      CollectMultiplicity(c, codec, init, x);
      assert last !in init;
      assert multiset(Collect(c, codec, names)) == multiset(Collect(c, codec, init)) + multiset(Entry(c, codec, last));
      if last in c && codec.deserialize(c[last]) == Decoded(x) {
        assert Entry(c, codec, last) == [x];
        assert NamesDecodingTo(c, codec, names, x) == NamesDecodingTo(c, codec, init, x) + {last};
        assert last !in NamesDecodingTo(c, codec, init, x);
      } else {
        assert x !in Entry(c, codec, last);
        assert NamesDecodingTo(c, codec, names, x) == NamesDecodingTo(c, codec, init, x);
      }
    }
  }

  /**
    When the pages enumerate every blob of the container exactly once, List
    returns each record as many times as the container has blobs decoding to it.
  */
  lemma ListMultiplicity<R>(c: Container, codec: Codec<R>, pages: seq<seq<string>>, x: Option<R>)
    requires forall name :: name in c ==> name in Flatten(pages)
    requires forall i, j :: 0 <= i < j < |Flatten(pages)| ==> Flatten(pages)[i] != Flatten(pages)[j]
    ensures multiset(Collect(c, codec, Flatten(pages)))[x] == |set n | n in c && codec.deserialize(c[n]) == Decoded(x)|
  {
    CollectMultiplicity(c, codec, Flatten(pages), x);
    assert NamesDecodingTo(c, codec, Flatten(pages), x) == set n | n in c && codec.deserialize(c[n]) == Decoded(x);
  }

  // ---------------------------------------------------------------------------
  // Properties of Get, Add and Remove

  /** Every operation rejects a null or empty key and changes nothing. */
  lemma InvalidKeyIsRejected<R>(c: Container, cfg: Config<R>, key: Option<string>, reference: Option<R>,
                                options: AddOptions)
    requires !ValidKey(key)
    ensures GetResult(c, cfg, key) == Failure(ArgumentNull)
    ensures AddResult(c, cfg, key, reference, options) == (Failure(ArgumentNull), c)
    ensures RemoveResult(c, cfg, key) == (Failure(ArgumentNull), c)
  {
  }

  /**
    Add with Overwrite set writes the serialised record under the key's blob
    name, returns true and leaves every other blob as it was.
  */
  lemma AddOverwriteWrites<R>(c: Container, cfg: Config<R>, key: Option<string>, reference: Option<R>,
                              options: AddOptions)
    requires ValidKey(key) && options.overwrite == Some(true)
    ensures var (r, after) := AddResult(c, cfg, key, reference, options);
            var name := Sanitized(key.value, cfg.invalidChars);
            && r == Success(true)
            && name in after && after[name] == cfg.codec.serialize(reference)
            && after.Keys == c.Keys + {name}
            && forall n :: n in c && n != name ==> after[n] == c[n]
  {
  }

  /**
    Without Overwrite, Add writes exactly when Get answers null, returns false
    without writing when Get finds a record, and propagates Get's failure.
  */
  lemma AddWithoutOverwriteGuards<R>(c: Container, cfg: Config<R>, key: Option<string>, reference: Option<R>,
                                     options: AddOptions)
    requires ValidKey(key) && options.overwrite != Some(true)
    ensures var (r, after) := AddResult(c, cfg, key, reference, options);
            var name := Sanitized(key.value, cfg.invalidChars);
            && (r == Success(false) <==> GetResult(c, cfg, key).Success? && GetResult(c, cfg, key).value.Some?)
            && (r == Success(true) <==> GetResult(c, cfg, key) == Success(None))
            && (r == Success(true) ==> after == c[name := cfg.codec.serialize(reference)])
            && (r != Success(true) ==> after == c)
            && (GetResult(c, cfg, key).Failure? ==> r == Failure(GetResult(c, cfg, key).error))
  {
  }

  /** A failing Add leaves the container as it was. */
  lemma AddFailureChangesNothing<R>(c: Container, cfg: Config<R>, key: Option<string>, reference: Option<R>,
                                    options: AddOptions)
    requires AddResult(c, cfg, key, reference, options).0.Failure?
    ensures AddResult(c, cfg, key, reference, options).1 == c
  {
  }

  /** A Get under the same raw key after an Add that wrote gives back the record. */
  lemma GetAfterAdd<R(!new)>(c: Container, cfg: Config<R>, key: Option<string>, reference: Option<R>,
                             options: AddOptions)
    requires RoundTrips(cfg.codec)
    requires AddResult(c, cfg, key, reference, options).0 == Success(true)
    ensures GetResult(AddResult(c, cfg, key, reference, options).1, cfg, key) == Success(reference)
  {
  }

  /** Once a (non-null) record is stored, an Add without Overwrite returns false and keeps it. */
  lemma SecondAddKeepsFirst<R(!new)>(c: Container, cfg: Config<R>, key: Option<string>, first: Option<R>,
                                     second: Option<R>, options1: AddOptions, options2: AddOptions)
    requires RoundTrips(cfg.codec)
    requires first.Some? && options2.overwrite != Some(true)
    requires AddResult(c, cfg, key, first, options1).0 == Success(true)
    ensures var stored := AddResult(c, cfg, key, first, options1).1;
            && AddResult(stored, cfg, key, second, options2) == (Success(false), stored)
            && GetResult(stored, cfg, key) == Success(first)
  {
    GetAfterAdd(c, cfg, key, first, options1);
  }

  /**
    A stored null does not guard the key: Get answers null for it, so an
    Add without Overwrite writes the second record and returns true.
  */
  lemma StoredNullDoesNotGuard<R(!new)>(c: Container, cfg: Config<R>, key: Option<string>, second: Option<R>,
                                        options1: AddOptions, options2: AddOptions)
    requires RoundTrips(cfg.codec)
    requires AddResult(c, cfg, key, None, options1).0 == Success(true)
    ensures var stored := AddResult(c, cfg, key, None, options1).1;
            && AddResult(stored, cfg, key, second, options2).0 == Success(true)
            && GetResult(AddResult(stored, cfg, key, second, options2).1, cfg, key) == Success(second)
  {
    var stored := AddResult(c, cfg, key, None, options1).1;
    GetAfterAdd(c, cfg, key, None, options1);
    GetAfterAdd(stored, cfg, key, second, options2);
  }

  /**
    Remove returns true exactly when the key's blob name was present, deletes
    that one name and nothing else.
  */
  lemma RemoveDeletesOneName<R>(c: Container, cfg: Config<R>, key: Option<string>)
    requires ValidKey(key)
    ensures var (r, after) := RemoveResult(c, cfg, key);
            var name := Sanitized(key.value, cfg.invalidChars);
            && r == Success(name in c)
            && after.Keys == c.Keys - {name}
            && forall n :: n in after ==> after[n] == c[n]
  {
  }

  /** After Remove, Get under the same key answers null. */
  lemma GetAfterRemove<R>(c: Container, cfg: Config<R>, key: Option<string>)
    requires ValidKey(key)
    ensures GetResult(RemoveResult(c, cfg, key).1, cfg, key) == Success(None)
  {
  }

  /** Remove right after an Add that wrote returns true; a second Remove returns false. */
  lemma RemoveAfterAdd<R>(c: Container, cfg: Config<R>, key: Option<string>, reference: Option<R>,
                          options: AddOptions)
    requires AddResult(c, cfg, key, reference, options).0 == Success(true)
    ensures var removed := RemoveResult(AddResult(c, cfg, key, reference, options).1, cfg, key);
            removed.0 == Success(true) && RemoveResult(removed.1, cfg, key).0 == Success(false)
  {
  }
}
