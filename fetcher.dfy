/**
 * The object fetcher (`DownloadFileAsync`): one `GetObjectAsync` whose body
 * is streamed into the download directory under the key's file name.
 */
module Fetcher {
  import opened Paths
  import opened ObjectStore
  import opened Lists

  /** `Path.Combine(localDownloadPath, Path.GetFileName(objectKey))`: where an object is saved. */
  function Destination(dir: string, key: string): string {
    Combine(dir, FileName(key))
  }

  /**
   * The saved file carries the key's final path segment as its name: the
   * segment holds no '/', ends the key, and is the whole key or follows a '/'.
   */
  lemma {:induction false} DestinationKeepsName(dir: string, key: string)
    requires FileName(key) != []
    ensures FileName(Destination(dir, key)) == FileName(key)
    ensures '/' !in FileName(Destination(dir, key))
    ensures key[|key| - |FileName(key)|..] == FileName(Destination(dir, key))
    ensures |FileName(key)| < |key| ==> key[|key| - |FileName(key)| - 1] == '/'
  {
    FileNameIsLastSegment(key);
    CombineKeepsFileName(dir, FileName(key));
  }

  /**
   * The saved file lies in the download directory: the destination is the
   * directory followed by the key's last segment, with one '/' between the
   * two unless the directory is empty or already ends in one.
   */
  lemma {:induction false} DestinationInDir(dir: string, key: string)
    requires FileName(key) != []
    ensures Destination(dir, key) == dir + FileName(key) || Destination(dir, key) == dir + "/" + FileName(key)
    ensures Destination(dir, key) == dir + FileName(key) <==> dir == [] || dir[|dir| - 1] == '/'
  {
    FileNameIsLastSegment(key);
    assert FileName(key)[0] != '/';
  }

  /**
   * The download of `key` into `dir`, as the client records it: the file
   * it writes is named after the key's last segment, a name with no '/'.
   */
  function FetchOf(dir: string, unavailable: set<string>, key: string): (f: Fetch)
    ensures f.key == key && f.path == Destination(dir, key)
    ensures FileName(key) != [] ==> FileName(f.path) == FileName(key) && '/' !in FileName(f.path)
    ensures f.written <==> key !in unavailable
  {
    var f := Fetch(key, Destination(dir, key), key !in unavailable);
    assert FileName(key) != [] ==> FileName(f.path) == FileName(key) && '/' !in FileName(f.path) by {
      if FileName(key) != [] {
        DestinationKeepsName(dir, key);
      }
    }
    f
  }

  /** The downloads of `keys` into `dir`, one after the other. */
  function FetchesOf(dir: string, unavailable: set<string>, keys: seq<string>): (fs: seq<Fetch>)
    ensures |fs| == |keys|
  {
    Map(keys, key => FetchOf(dir, unavailable, key))
  }

  /** The i-th download is the download of the i-th key. */
  lemma {:induction false} FetchesOfAt(dir: string, unavailable: set<string>, keys: seq<string>, i: int)
    requires 0 <= i < |keys|
    ensures FetchesOf(dir, unavailable, keys)[i] == FetchOf(dir, unavailable, keys[i])
  {
    MapAt(keys, key => FetchOf(dir, unavailable, key), i);
  }

  /** Downloading two runs of keys one after the other. */
  lemma {:induction false} FetchesOfAppend(dir: string, unavailable: set<string>, a: seq<string>, b: seq<string>)
    ensures FetchesOf(dir, unavailable, a + b) == FetchesOf(dir, unavailable, a) + FetchesOf(dir, unavailable, b)
  {
    MapAppend(a, b, key => FetchOf(dir, unavailable, key));
  }

  /** Downloading one more key. */
  lemma {:induction false} FetchesOfSnoc(dir: string, unavailable: set<string>, keys: seq<string>, key: string)
    ensures FetchesOf(dir, unavailable, keys + [key]) == FetchesOf(dir, unavailable, keys) + [FetchOf(dir, unavailable, key)]
  {
    MapSnoc(keys, key, key => FetchOf(dir, unavailable, key));
  }

  /** A fetch log that grows by the downloads of one run of keys after those of another. */
  lemma {:induction false} FetchLogExtends(log: seq<Fetch>, dir: string, unavailable: set<string>, done: seq<string>, more: seq<string>)
    ensures log + FetchesOf(dir, unavailable, done) + FetchesOf(dir, unavailable, more) ==
            log + FetchesOf(dir, unavailable, done + more)
  {
    FetchesOfAppend(dir, unavailable, done, more);
  }

  /**
   * `DownloadFileAsync`: fetch the object into its destination. A service
   * error is caught here, so the call always returns; the fetch is then
   * recorded as not written.
   */
  method DownloadFile(s3: Client, key: string, dir: string)
    modifies s3
    ensures s3.fetches == old(s3.fetches) + [FetchOf(dir, s3.unavailable, key)]
    ensures s3.requests == old(s3.requests)
  {
    var path := Destination(dir, key);
    var written := s3.GetObjectToFile(key, path);
  }

  /** The files a run of fetches left on disk: the paths of the written fetches, in order. */
  function Written(fetches: seq<Fetch>): (paths: seq<string>)
    ensures |paths| <= |fetches|
  {
    Map(Filter(fetches, (f: Fetch) => f.written), (f: Fetch) => f.path)
  }

  /** A path is on disk exactly when some fetch wrote it. */
  lemma {:induction false} WrittenMembership(fetches: seq<Fetch>, path: string)
    ensures path in Written(fetches) <==> exists i :: 0 <= i < |fetches| && fetches[i].written && fetches[i].path == path
  {
    var kept := Filter(fetches, (f: Fetch) => f.written);
    if path in Written(fetches) {
      var j :| 0 <= j < |kept| && Written(fetches)[j] == path;
      MapAt(kept, (f: Fetch) => f.path, j);
      FilterMembership(fetches, (f: Fetch) => f.written, kept[j]);
      var i :| 0 <= i < |fetches| && fetches[i] == kept[j];
    }
    if i :| 0 <= i < |fetches| && fetches[i].written && fetches[i].path == path {
      FilterMembership(fetches, (f: Fetch) => f.written, fetches[i]);
      var j :| 0 <= j < |kept| && kept[j] == fetches[i];
      MapAt(kept, (f: Fetch) => f.path, j);
    }
  }
}
