/**
 * `searchProduct` of app/actions/search.ts: the effect sequence upload -> provider call ->
 * cleanup over an object-storage bucket, followed by the ranking pipeline.
 */
module Search {
  import opened Wrappers
  import opened Text
  import opened Upload
  import opened Ranking

  const MissingKeyMessage: string := "SERPAPI_API_KEY is not configured"
  const SearchFailedMessage: string := "Failed to search for product"

  /** The query string sent to the visual-search provider. */
  datatype LensQuery = LensQuery(engine: string, url: string, apiKey: string, country: string, currency: string)

  /** What came back from the provider: a failure (transport or JSON) or the parsed body. */
  datatype ProviderReply = ProviderFailed | Body(visualMatches: Option<seq<RawMatch>>)

  /** One externally visible call made by a search, in the order the calls happen. */
  datatype Effect = UploadCall(key: string) | ProviderCall(query: LensQuery) | RemoveCall(key: string)

  /** The storage bucket `product-images`: the objects it holds, by key. */
  class Bucket {
    var objects: map<string, string>
    const publicBase: string

    constructor (publicBase: string, objects: map<string, string>)
      ensures this.publicBase == publicBase && this.objects == objects
    {
      this.publicBase := publicBase;
      this.objects := objects;
    }

    /** `getPublicUrl(key)`: the bucket's public address followed by `/` and the key. */
    function PublicUrl(key: string): (url: string)
      ensures '/' !in key ==> CleanupKey(url) == key
    {
      LastSegmentOfJoin(publicBase, '/', key);
      publicBase + "/" + key
    }

    /**
     * `upload(key, body, { upsert: true })`: store `body` under `key`, replacing any object
     * already there; `refused` stands for the storage service reporting an error.
     */
    method Upload(key: string, body: string, refused: bool) returns (failed: bool)
      modifies this
      ensures failed == refused
      ensures objects == if refused then old(objects) else old(objects)[key := body]
    {
      failed := refused;
      if !refused {
        objects := objects[key := body];
      }
    }

    /**
     * `remove([key])`: delete the object under `key`, if any. The caller never reads the
     * service's answer, so a refusal (`refused`) only leaves the bucket as it was.
     */
    method Remove(key: string, refused: bool)
      modifies this
      ensures objects == if refused then old(objects) else old(objects) - {key}
    {
      if !refused {
        objects := objects - {key};
      }
    }
  }

  /** `!SERPAPI_API_KEY` is false: the key is present and not empty. */
  predicate Configured(apiKey: Option<string>) {
    apiKey.Some? && apiKey.value != ""
  }

  /**
   * Both ways the key can be falsy, unset or set to `''`, count as not configured; any other
   * value is accepted as it is.
   */
  lemma UnsetOrEmptyKeyRejected()
    ensures !Configured(None) && !Configured(Some(""))
    ensures forall key :: key != "" ==> Configured(Some(key))
  {
  }

  /** The provider query for an image URL, with the fixed market parameters. */
  function QueryFor(url: string, apiKey: string): (q: LensQuery)
    ensures q.url == url && q.apiKey == apiKey
    ensures q.engine == "google_lens" && q.country == "in" && q.currency == "INR"
  {
    LensQuery("google_lens", url, apiKey, "in", "INR")
  }

  /** Removing a key that was absent before its upload gives back the original objects. */
  lemma UploadThenRemoveRestores(objects: map<string, string>, key: string, body: string)
    requires key !in objects
    ensures objects[key := body] - {key} == objects
  {
  }

  /**
   * `searchProduct(imageInput, isUrl)`. The environment is passed in: `apiKey` for the
   * configured credential, `stamp` and `suffix` for `Date.now()` and the random name part,
   * `uploadRefused` and `removeRefused` for the storage service's answers, `reply` for the
   * provider's answer. `effects` lists the calls made, in order.
   */
  method SearchProduct(bucket: Bucket, apiKey: Option<string>, imageInput: string, isUrl: bool,
                       stamp: nat, suffix: seq<Base36Char>, uploadRefused: bool,
                       reply: ProviderReply, removeRefused: bool)
    returns (outcome: Result<seq<ProductMatch>, string>, effects: seq<Effect>)
    modifies bucket
    // A missing key fails before any call.
    ensures !Configured(apiKey) ==>
              outcome == Failure(MissingKeyMessage) && effects == [] && bucket.objects == old(bucket.objects)
    // URL mode: the input goes to the provider verbatim; the bucket is never touched.
    ensures Configured(apiKey) && isUrl ==>
              effects == [ProviderCall(QueryFor(imageInput, apiKey.value))] && bucket.objects == old(bucket.objects)
    // Upload mode, refused upload: no provider call and no cleanup.
    ensures Configured(apiKey) && !isUrl && uploadRefused ==>
              outcome == Failure(SearchFailedMessage) &&
              effects == [UploadCall(FileName(stamp, suffix))] &&
              bucket.objects == old(bucket.objects)
    // Upload mode, provider failure: the remove is never reached and the object stays.
    ensures Configured(apiKey) && !isUrl && !uploadRefused && reply.ProviderFailed? ==>
              var name := FileName(stamp, suffix);
              effects == [UploadCall(name), ProviderCall(QueryFor(bucket.PublicUrl(name), apiKey.value))] &&
              bucket.objects == old(bucket.objects)[name := Payload(imageInput)]
    // Upload mode, provider answered: upload, query with the public URL, remove the same key.
    ensures Configured(apiKey) && !isUrl && !uploadRefused && reply.Body? ==>
              var name := FileName(stamp, suffix);
              effects == [UploadCall(name), ProviderCall(QueryFor(bucket.PublicUrl(name), apiKey.value)), RemoveCall(name)] &&
              bucket.objects == if removeRefused then old(bucket.objects)[name := Payload(imageInput)]
                                else old(bucket.objects)[name := Payload(imageInput)] - {name}
    // A fresh name and an accepted removal leave the bucket as it began.
    ensures Configured(apiKey) && !isUrl && !uploadRefused && reply.Body? && !removeRefused &&
            FileName(stamp, suffix) !in old(bucket.objects) ==>
              bucket.objects == old(bucket.objects)
    // Every failure inside the try block surfaces as the one generic message.
    ensures Configured(apiKey) && (reply.ProviderFailed? || (!isUrl && uploadRefused)) ==>
              outcome == Failure(SearchFailedMessage)
    // Otherwise the result is the ranked list.
    ensures Configured(apiKey) && reply.Body? && (isUrl || !uploadRefused) ==>
              outcome == Success(Rank(reply.visualMatches))
  {
    if !Configured(apiKey) {
      return Failure(MissingKeyMessage), [];
    }
    var key := apiKey.value;
    ghost var name := FileName(stamp, suffix);
    var finalImageUrl := "";
    effects := [];
    if isUrl {
      finalImageUrl := imageInput;
    } else {
      var fileName := FileName(stamp, suffix);
      var base64Data := Payload(imageInput);
      var failed := bucket.Upload(fileName, base64Data, uploadRefused);
      effects := [UploadCall(fileName)];
      if failed {
        return Failure(SearchFailedMessage), effects;
      }
      finalImageUrl := bucket.PublicUrl(fileName);
    }
    assert !isUrl ==> finalImageUrl == bucket.PublicUrl(name) && effects == [UploadCall(name)];
    assert !isUrl ==> bucket.objects == old(bucket.objects)[name := Payload(imageInput)];
    assert isUrl ==> effects == [] && bucket.objects == old(bucket.objects);
    effects := effects + [ProviderCall(QueryFor(finalImageUrl, key))];
    if reply.ProviderFailed? {
      return Failure(SearchFailedMessage), effects;
    }
    if !isUrl {
      var fileName := CleanupKey(finalImageUrl);
      assert fileName == name;
      if fileName != "" {
        bucket.Remove(fileName, removeRefused);
        effects := effects + [RemoveCall(fileName)];
      }
      if name !in old(bucket.objects) {
        UploadThenRemoveRestores(old(bucket.objects), name, Payload(imageInput));
      }
    }
    outcome := Success(Rank(reply.visualMatches));
  }
}
