/**
 * The remote listing walker (`DownloadNewerFilesAsync`): page through the
 * bucket listing with continuation tokens and download, in listing order,
 * every object whose key carries a date strictly after the local watermark.
 */
module ListingWalk {
  import opened Wrappers
  import opened Dates
  import opened Paths
  import opened ObjectStore
  import opened Fetcher
  import opened Lists

  // ---------------------------------------------------------------- selecting keys

  /**
   * The date a remote key carries: its stem parsed as `yyyy-MM-dd`, read in
   * place between the last '/' and the (at most two) stripped extensions.
   * The walk takes the stem of `key.Split('/').Last()`; `KeyDateReadsLastPart`
   * shows that is the stem of the key itself. The in-place reading keeps the
   * download loop's proof cheap for the solver.
   */
  function KeyDate(key: string): (r: Option<Date>)
    ensures r.Some? ==> Valid(r.value)
  {
    var start := LastIndexOf(key, '/') + 1;
    DateAt(key, start, ExtensionStart(key, start, ExtensionStart(key, start, |key|)))
  }

  /** The key's date is its stem parsed, whether the stem is read from the key or from its last '/'-separated part. */
  lemma {:induction false} KeyDateReadsLastPart(key: string)
    ensures KeyDate(key) == ParseDate(Stem(key))
    ensures KeyDate(key) == ParseDate(Stem(Last(Split(key, '/'))))
    ensures KeyDate(key) == ParseDate(Stem(FileName(key)))
  {
    var start := LastIndexOf(key, '/') + 1;
    DateAtIsParseOfSlice(key, start, ExtensionStart(key, start, ExtensionStart(key, start, |key|)));
    LastSegmentIsFileName(key);
    StemOfFileName(key);
  }

  /** `fileDate > lastDownloadedDate` after a successful parse: the key is downloaded. */
  predicate IsNewer(key: string, watermark: Date) {
    KeyDate(key).Some? && Before(watermark, KeyDate(key).value)
  }

  /** The keys of a run of entries that are downloaded, in listing order, duplicates kept. */
  function Selected(keys: seq<string>, watermark: Date): (chosen: seq<string>)
    ensures |chosen| <= |keys|
  {
    Filter(keys, key => IsNewer(key, watermark))
  }

  /** A key is selected exactly when it is listed and strictly newer than the watermark. */
  lemma {:induction false} SelectedMembership(keys: seq<string>, watermark: Date, key: string)
    ensures key in Selected(keys, watermark) <==> key in keys && IsNewer(key, watermark)
  {
    FilterMembership(keys, key => IsNewer(key, watermark), key);
  }

  /**
   * No sorting and no deduplication: a newer key is selected as many times
   * as it is listed, any other key never.
   */
  lemma {:induction false} SelectedMultiplicity(keys: seq<string>, watermark: Date, key: string)
    ensures multiset(Selected(keys, watermark))[key] == if IsNewer(key, watermark) then multiset(keys)[key] else 0
  {
    FilterMultiplicity(keys, key => IsNewer(key, watermark), key);
  }

  /** Selecting from two runs of keys one after the other. */
  lemma {:induction false} SelectedAppend(a: seq<string>, b: seq<string>, watermark: Date)
    ensures Selected(a + b, watermark) == Selected(a, watermark) + Selected(b, watermark)
  {
    FilterAppend(a, b, key => IsNewer(key, watermark));
  }

  /** Keys none of which is newer select nothing. */
  lemma {:induction false} SelectedOfStale(keys: seq<string>, watermark: Date)
    requires forall i :: 0 <= i < |keys| ==> !IsNewer(keys[i], watermark)
    ensures Selected(keys, watermark) == []
  {
    FilterNone(keys, key => IsNewer(key, watermark));
  }

  // ---------------------------------------------------------------- paging

  /** `!string.IsNullOrEmpty(token)`: the listing continues. */
  predicate HasMore(token: Option<string>) {
    token.Some? && token.value != []
  }

  /** The keys a page lists; a failed request lists none. */
  function PageKeys(page: Page): seq<string> {
    if page.Listed? then page.keys else []
  }

  /** The token a page hands on for the next request. */
  function NextToken(page: Page): Option<string> {
    if page.Listed? then page.next else None
  }

  /** The walk ends at this page: the request raised, or no further token came back. */
  predicate Stops(page: Page) {
    page.ServiceError? || !HasMore(page.next)
  }

  /** Some page ends the walk; otherwise the `do … while` would request pages forever. */
  predicate Ends(listing: seq<Page>) {
    exists i :: 0 <= i < |listing| && Stops(listing[i])
  }

  /** The first page at or after `k` that ends the walk. */
  function StopFrom(listing: seq<Page>, k: nat): (n: nat)
    requires k <= |listing|
    requires exists i :: k <= i < |listing| && Stops(listing[i])
    ensures k <= n < |listing| && Stops(listing[n])
    ensures forall j :: k <= j < n ==> !Stops(listing[j])
    decreases |listing| - k
  {
    if Stops(listing[k]) then k else StopFrom(listing, k + 1)
  }

  /** The index of the last page the walk requests. */
  function StopAt(listing: seq<Page>): (n: nat)
    requires Ends(listing)
    ensures n < |listing| && Stops(listing[n])
    ensures forall j :: 0 <= j < n ==> !Stops(listing[j])
  {
    StopFrom(listing, 0)
  }

  /** How many listing requests the walk issues. */
  function Requested(listing: seq<Page>): (n: nat)
    requires Ends(listing)
    ensures 1 <= n <= |listing|
  {
    StopAt(listing) + 1
  }

  /** Whether the walk ran to the last token, rather than ending on a service error. */
  predicate Completed(listing: seq<Page>)
    requires Ends(listing)
  {
    listing[StopAt(listing)].Listed?
  }

  /** The continuation token sent with the i-th request: none at first, then the previous page's. */
  function TokenFor(listing: seq<Page>, i: nat): Option<string>
    requires i <= |listing|
  {
    if i == 0 then None else NextToken(listing[i - 1])
  }

  /** The tokens of the first n requests, in order. */
  function Tokens(listing: seq<Page>, n: nat): (tokens: seq<Option<string>>)
    requires n <= |listing|
    ensures |tokens| == n
  {
    if n == 0 then [] else Tokens(listing, n - 1) + [TokenFor(listing, n - 1)]
  }

  /** The i-th of the first n tokens. */
  lemma {:induction false} TokensAt(listing: seq<Page>, n: nat, i: nat)
    requires i < n <= |listing|
    ensures Tokens(listing, n)[i] == TokenFor(listing, i)
  {
    if i < n - 1 {
      TokensAt(listing, n - 1, i);
    }
  }

  /**
   * The walk issues at least one request, the first without a token, and
   * every later one with the non-empty token of the page before it.
   */
  lemma {:induction false} TokensFollowPages(listing: seq<Page>, i: nat)
    requires Ends(listing) && i < Requested(listing)
    ensures Tokens(listing, Requested(listing))[0] == None
    ensures 0 < i ==> listing[i - 1].Listed? && HasMore(listing[i - 1].next)
    ensures 0 < i ==> Tokens(listing, Requested(listing))[i] == listing[i - 1].next
  {
    TokensAt(listing, Requested(listing), 0);
    TokensAt(listing, Requested(listing), i);
  }

  /** Every key of the first n pages, page by page. */
  function AllKeys(listing: seq<Page>, n: nat): seq<string>
    requires n <= |listing|
  {
    if n == 0 then [] else AllKeys(listing, n - 1) + PageKeys(listing[n - 1])
  }

  /** The keys the loop selects from the first n pages, one page after another. */
  function PerPage(listing: seq<Page>, watermark: Date, n: nat): seq<string>
    requires n <= |listing|
  {
    if n == 0 then [] else PerPage(listing, watermark, n - 1) + Selected(PageKeys(listing[n - 1]), watermark)
  }

  /** Selecting page by page is selecting from all the pages' keys at once. */
  lemma {:induction false} PerPageSelectsAllKeys(listing: seq<Page>, watermark: Date, n: nat)
    requires n <= |listing|
    ensures PerPage(listing, watermark, n) == Selected(AllKeys(listing, n), watermark)
  {
    if n > 0 {
      PerPageSelectsAllKeys(listing, watermark, n - 1);
      SelectedAppend(AllKeys(listing, n - 1), PageKeys(listing[n - 1]), watermark);
    }
  }

  /** A key is among the first n pages' keys exactly when one of those pages lists it. */
  lemma {:induction false} AllKeysMembership(listing: seq<Page>, n: nat, key: string)
    requires n <= |listing|
    ensures key in AllKeys(listing, n) <==> exists j :: 0 <= j < n && key in PageKeys(listing[j])
  {
    if n > 0 {
      AllKeysMembership(listing, n - 1, key);
      if key in PageKeys(listing[n - 1]) {
        assert key in AllKeys(listing, n);
      }
    }
  }

  // ---------------------------------------------------------------- the walk

  /** The keys downloaded by a walk over `listing` against `watermark`, in order. */
  function Downloaded(listing: seq<Page>, watermark: Date): seq<string>
    requires Ends(listing)
  {
    PerPage(listing, watermark, Requested(listing))
  }

  /**
   * The `Total files downloaded` report: the number of selected keys when
   * the walk completes (failed downloads included), nothing when a listing
   * request raised.
   */
  function Total(listing: seq<Page>, watermark: Date): Option<nat>
    requires Ends(listing)
  {
    if Completed(listing) then Some(|Downloaded(listing, watermark)|) else None
  }

  /**
   * Exactly the strictly newer keys of the requested pages are downloaded;
   * equal and older dates and unparsable names are skipped.
   */
  lemma {:induction false} DownloadedIffNewer(listing: seq<Page>, watermark: Date, key: string)
    requires Ends(listing)
    ensures key in Downloaded(listing, watermark) <==>
              IsNewer(key, watermark) && exists j :: 0 <= j < Requested(listing) && key in PageKeys(listing[j])
  {
    PerPageSelectsAllKeys(listing, watermark, Requested(listing));
    SelectedMembership(AllKeys(listing, Requested(listing)), watermark, key);
    AllKeysMembership(listing, Requested(listing), key);
  }

  /** A key with a date has a non-empty last segment: an empty stem never parses. */
  lemma {:induction false} NewerKeyHasName(key: string, watermark: Date)
    requires IsNewer(key, watermark)
    ensures FileName(key) != []
  {
    KeyDateReadsLastPart(key);
    assert |Stem(FileName(key))| <= |FileName(key)|;
  }

  /**
   * Every object the walk fetches is saved in the download directory under
   * its key's last segment, which is never empty.
   */
  lemma {:induction false} DownloadedKeepNames(dir: string, unavailable: set<string>, listing: seq<Page>, watermark: Date, i: int)
    requires Ends(listing) && 0 <= i < |Downloaded(listing, watermark)|
    ensures FileName(Downloaded(listing, watermark)[i]) != []
    ensures FileName(FetchesOf(dir, unavailable, Downloaded(listing, watermark))[i].path) ==
              FileName(Downloaded(listing, watermark)[i])
    ensures FetchesOf(dir, unavailable, Downloaded(listing, watermark))[i].path in
              {dir + FileName(Downloaded(listing, watermark)[i]), dir + "/" + FileName(Downloaded(listing, watermark)[i])}
  {
    var keys := Downloaded(listing, watermark);
    assert keys[i] in keys;
    DownloadedIffNewer(listing, watermark, keys[i]);
    NewerKeyHasName(keys[i], watermark);
    FetchesOfAt(dir, unavailable, keys, i);
    DestinationInDir(dir, keys[i]);
  }

  /**
   * A listing request that raises ends the walk: no later page is requested,
   * no total is reported, and the downloads of the earlier pages stand.
   */
  lemma {:induction false} ServiceErrorAbortsWalk(listing: seq<Page>, watermark: Date)
    requires Ends(listing) && !Completed(listing)
    ensures Total(listing, watermark) == None
    ensures listing[Requested(listing) - 1].ServiceError?
    ensures Downloaded(listing, watermark) == PerPage(listing, watermark, Requested(listing) - 1)
    ensures Downloaded(listing, watermark) == Selected(AllKeys(listing, Requested(listing) - 1), watermark)
  {
    var n := StopAt(listing);
    assert listing[n].ServiceError? && PageKeys(listing[n]) == [];
    PerPageSelectsAllKeys(listing, watermark, n);
    var done := PerPage(listing, watermark, n);
    assert Selected([], watermark) == [];
    assert PerPage(listing, watermark, n + 1) == done + [];
    assert done + [] == done;
    assert Downloaded(listing, watermark) == PerPage(listing, watermark, n + 1);
  }

  /**
   * A first answer that raises or hands back no token ends the walk after
   * one request: only that page's keys are considered, and a total is
   * reported exactly when that request succeeded.
   */
  lemma {:induction false} FirstPageStops(listing: seq<Page>, watermark: Date)
    requires |listing| >= 1 && Stops(listing[0])
    ensures Ends(listing) && Requested(listing) == 1
    ensures Downloaded(listing, watermark) == Selected(PageKeys(listing[0]), watermark)
    ensures Total(listing, watermark) ==
              if listing[0].Listed? then Some(|Selected(PageKeys(listing[0]), watermark)|) else None
  {
    assert PerPage(listing, watermark, 1) == [] + Selected(PageKeys(listing[0]), watermark);
  }

  /**
   * How the keys are split into pages does not matter: two completed walks
   * over the same keys download the same keys in the same order.
   */
  lemma {:induction false} PagingIsIrrelevant(a: seq<Page>, b: seq<Page>, watermark: Date)
    requires Ends(a) && Ends(b)
    requires AllKeys(a, Requested(a)) == AllKeys(b, Requested(b))
    ensures Downloaded(a, watermark) == Downloaded(b, watermark)
  {
    PerPageSelectsAllKeys(a, watermark, Requested(a));
    PerPageSelectsAllKeys(b, watermark, Requested(b));
  }

  /**
   * The `foreach` over one page, for any test of which keys to fetch:
   * download every wanted key in listing order and count the downloads
   * started, failed ones included.
   */
  method DownloadWanted(s3: Client, keys: seq<string>, wanted: string -> bool, dir: string) returns (count: nat)
    modifies s3
    ensures s3.fetches == old(s3.fetches) + FetchesOf(dir, s3.unavailable, Filter(keys, wanted))
    ensures s3.requests == old(s3.requests)
    ensures count == |Filter(keys, wanted)|
  {
    ghost var start := s3.fetches;
    ghost var chosen: seq<string> := [];
    ghost var verdicts: seq<bool> := [];
    count := 0;
    var i := 0;
    PickPrefixEmpty(keys);
    while i < |keys|
      invariant 0 <= i <= |keys| && |verdicts| == i
      invariant forall j {:trigger verdicts[j]} :: 0 <= j < i ==> verdicts[j] == wanted(keys[j])
      invariant chosen == Pick(keys[..i], verdicts)
      invariant s3.fetches == start + FetchesOf(dir, s3.unavailable, chosen)
      invariant s3.requests == old(s3.requests)
      invariant count == |chosen|
    {
      var key := keys[i];
      var isWanted := wanted(key);
      PickPrefixSnoc(keys, verdicts, i, isWanted);
      VerdictsSnoc(keys, verdicts, wanted, isWanted);
      if isWanted {
        DownloadFile(s3, key, dir);
        AppendSnoc(start, FetchesOf(dir, s3.unavailable, chosen), FetchOf(dir, s3.unavailable, key));
        FetchesOfSnoc(dir, s3.unavailable, chosen, key);
        chosen := chosen + [key];
        count := count + 1;
      }
      verdicts := verdicts + [isWanted];
      i := i + 1;
    }
    assert keys[..i] == keys;
    PickIsFilter(keys, verdicts, wanted);
  }

  /**
   * The `foreach` over one page of the walk: the wanted keys are those whose
   * date is strictly after `lastDownloaded`.
   */
  method DownloadPage(s3: Client, keys: seq<string>, lastDownloaded: Date, dir: string) returns (count: nat)
    modifies s3
    ensures s3.fetches == old(s3.fetches) + FetchesOf(dir, s3.unavailable, Selected(keys, lastDownloaded))
    ensures s3.requests == old(s3.requests)
    ensures count == |Selected(keys, lastDownloaded)|
  {
    count := DownloadWanted(s3, keys, key => IsNewer(key, lastDownloaded), dir);
  }

  /**
   * One pass of the `do … while` body, the n-th: send the token the n-th
   * request is due, then, unless the request raises, download the page's
   * strictly newer keys and count them. The fetch log grows from the
   * downloads of the first `n` pages to those of the first `n + 1`.
   */
  method WalkPage(s3: Client, token: Option<string>, lastDownloaded: Date, dir: string, ghost start: seq<Fetch>, ghost n: nat)
    returns (page: Page, found: nat)
    requires n < |s3.listing| && s3.requests == Tokens(s3.listing, n) && token == TokenFor(s3.listing, n)
    requires s3.fetches == start + FetchesOf(dir, s3.unavailable, PerPage(s3.listing, lastDownloaded, n))
    modifies s3
    ensures page == s3.listing[n]
    ensures s3.requests == Tokens(s3.listing, n + 1)
    ensures s3.fetches == start + FetchesOf(dir, s3.unavailable, PerPage(s3.listing, lastDownloaded, n + 1))
    ensures found == |Selected(PageKeys(page), lastDownloaded)|
    ensures |PerPage(s3.listing, lastDownloaded, n + 1)| == |PerPage(s3.listing, lastDownloaded, n)| + found
  {
    ghost var done := PerPage(s3.listing, lastDownloaded, n);
    page := s3.ListObjects(token);
    if page.ServiceError? {
      assert Selected([], lastDownloaded) == [];
      assert done + [] == done;
      found := 0;
    } else {
      ghost var newer := Selected(page.keys, lastDownloaded);
      found := DownloadPage(s3, page.keys, lastDownloaded, dir);
      FetchLogExtends(start, dir, s3.unavailable, done, newer);
    }
  }

  /**
   * `DownloadNewerFilesAsync`: request pages until the token runs out,
   * downloading every strictly newer key of each page in listing order and
   * counting the downloads started. The listing of a fresh client must end.
   */
  method DownloadNewerFiles(s3: Client, lastDownloaded: Date, dir: string) returns (total: Option<nat>)
    requires s3.requests == [] && Ends(s3.listing)
    modifies s3
    ensures s3.requests == Tokens(s3.listing, Requested(s3.listing))
    ensures s3.fetches == old(s3.fetches) + FetchesOf(dir, s3.unavailable, Downloaded(s3.listing, lastDownloaded))
    ensures total == Total(s3.listing, lastDownloaded)
  {
    ghost var listing := s3.listing;
    ghost var start := s3.fetches;
    ghost var stop := StopAt(listing);
    ghost var n: nat := 0;
    var token: Option<string> := None;
    var count := 0;
    var more := true;
    while more
      invariant s3.listing == listing && n <= stop + 1
      invariant more ==> n <= stop && token == TokenFor(listing, n)
      invariant !more ==> n == stop + 1 && listing[stop].Listed?
      invariant s3.requests == Tokens(listing, n)
      invariant s3.fetches == start + FetchesOf(dir, s3.unavailable, PerPage(listing, lastDownloaded, n))
      invariant count == |PerPage(listing, lastDownloaded, n)|
      decreases stop + 1 - n
    {
      var page, found := WalkPage(s3, token, lastDownloaded, dir, start, n);
      if page.ServiceError? {
        assert n == stop;
        return None;
      }
      count := count + found;
      token := page.next;
      more := HasMore(token);
      n := n + 1;
    }
    assert n == Requested(listing);
    total := Some(count);
  }
}
