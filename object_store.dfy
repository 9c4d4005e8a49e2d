/**
 * The remote bucket as the sync run sees it through its S3 client: the
 * successive answers of `ListObjectsV2Async` and whether `GetObjectAsync`
 * succeeds for a key, with a log of every call made.
 */
module ObjectStore {
  import opened Wrappers

  /**
   * One answer to a listing request: the page's keys in the order the service
   * returned them together with `NextContinuationToken`, or the
   * `AmazonS3Exception` the call raised instead.
   */
  datatype Page = Listed(keys: seq<string>, next: Option<string>) | ServiceError

  /**
   * One object download: the key asked for, the local path its body is
   * streamed to, and whether the file was written (false when the service
   * raised an `AmazonS3Exception` for it).
   */
  datatype Fetch = Fetch(key: string, path: string, written: bool)

  /** An S3 client bound to one bucket and prefix. */
  class Client {
    /** The answer the service gives to the n-th listing request of this client. */
    const listing: seq<Page>
    /** The keys whose `GetObjectAsync` raises an `AmazonS3Exception`. */
    const unavailable: set<string>
    /** The continuation token sent with each listing request, in order (None: no token). */
    var requests: seq<Option<string>>
    /** Every object download started, in order. */
    var fetches: seq<Fetch>

    constructor (listing: seq<Page>, unavailable: set<string>)
      ensures this.listing == listing && this.unavailable == unavailable
      ensures requests == [] && fetches == []
    {
      this.listing := listing;
      this.unavailable := unavailable;
      requests := [];
      fetches := [];
    }

    /** `ListObjectsV2Async` with the given continuation token. */
    method ListObjects(token: Option<string>) returns (page: Page)
      requires |requests| < |listing|
      modifies this
      ensures page == listing[|old(requests)|]
      ensures requests == old(requests) + [token] && fetches == old(fetches)
    {
      page := listing[|requests|];
      requests := requests + [token];
    }

    /**
     * `GetObjectAsync` followed by `WriteResponseStreamToFileAsync(path, false)`:
     * the object's body replaces the file at `path`, unless the service raises.
     */
    method GetObjectToFile(key: string, path: string) returns (written: bool)
      modifies this
      ensures written <==> key !in unavailable
      ensures fetches == old(fetches) + [Fetch(key, path, written)] && requests == old(requests)
    {
      written := key !in unavailable;
      fetches := fetches + [Fetch(key, path, written)];
    }
  }
}
