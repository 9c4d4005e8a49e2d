# Polygon flat-file sync: the download decision core

`PolygonDownloadAmazonS3FlatFile` keeps a local directory of daily
`yyyy-MM-dd.csv.gz` flat files in step with an S3 bucket. One run of
`DownloadManager.DownloadRecentFiles` does three things:

1. It computes the local watermark (`GetMostRecentLocalFileDate`). That is
   the latest date spelled by the stem of a local `*.csv.gz` name, or
   0001-01-01 when none parses.
2. It pages through the bucket listing with continuation tokens
   (`DownloadNewerFilesAsync`). It fetches, in listing order, every object
   whose key carries a date strictly after the watermark, and counts the
   fetches.
3. It saves each fetched object in the download directory under the key's
   last path segment (`DownloadFileAsync`).

This project models that decision core in Dafny and proves what it
promises. The modules are:

- `Dates`:
  - the calendar;
  - the strict `yyyy-MM-dd` parser of `DateTime.TryParseExact` and its
    printer, proved inverse;
  - an in-place reading of the same parser.
- `Paths`: `Path.GetFileName`, `Path.GetFileNameWithoutExtension` (applied
  twice: the stem), `string.Split('/').Last()` and `Path.Combine`, for `/`
  separators.
- `LocalScan`: the LINQ pipeline of `GetMostRecentLocalFileDate`, stage by
  stage, as functions.
- `ObjectStore`: the S3 client as a class. It holds:
  - the sequence of listing answers it gives, where a page is either keys
    plus `NextContinuationToken`, or an `AmazonS3Exception`;
  - the keys whose `GetObjectAsync` raises;
  - logs of the listing requests and of the object fetches.
- `Fetcher`: where an object is saved, and `DownloadFileAsync` as a method
  on the client.
- `ListingWalk`:
  - selection of the strictly newer keys;
  - paging;
  - the `do … while` walk as a method with loop invariants, proved
    against `Downloaded` and `Total`: specification functions of the
    listing and the watermark.
- `DownloadManager`: the whole run, and lemmas that relate one run to the
  next.
- `Lists`: generic sequence utilities (map, filter, verdict masks).

A second run over the same listing fetches nothing once the first run
has fetched every newer key successfully under a `*.csv.gz` name
(`RerunAfterFullRunFetchesNothing`). Neither condition can be dropped:
- When every fetch of a run raised, nothing moves the watermark, and the
  next run fetches the same keys again (`RerunRetriesFailedFetches`).
- When every key a run fetched was saved under a name other than
  `*.csv.gz`, the same holds (`RerunRefetchesOtherNames`). One such key,
  `data/2024-01-05.txt`, is fetched by both runs
  (`DatedNotesKeyRefetched`).

In a mixed run it goes the other way. A newer `*.csv.gz` file saved in the
same run moves the watermark past such keys. The next run fetches only
keys strictly newer than that file (`RerunSkipsSaved`), and the watermark
never falls (`WatermarkGrows`). An older failed fetch, or an older key
saved under another name, is then skipped for good.

The directory listing and the bucket's answers are inputs. The watermark,
the listing requests, the fetch log and the reported total are proved
functions of them.

## Model

| member | source | states |
|---|---|---|
| Dates.DaysInMonth | PolygonDownloadAmazonS3FlatFile/DownloadManager.cs:51 | A month has 28 to 31 days, and 29 exactly for February of a Gregorian leap year |
| Dates.Later | PolygonDownloadAmazonS3FlatFile/DownloadManager.cs:53-54 | The later of two dates is one of them and no earlier than either |
| Dates.BeforeIsStrictTotalOrder | PolygonDownloadAmazonS3FlatFile/DownloadManager.cs:85 | `DateTime`'s `>` on midnight dates is a strict total order: irreflexive, asymmetric, transitive, total |
| Dates.EpochIsEarliest | PolygonDownloadAmazonS3FlatFile/DownloadManager.cs:54 | `default(DateTime)` (0001-01-01) is valid and no later than any valid date |
| Dates.NumberOfDigits | PolygonDownloadAmazonS3FlatFile/DownloadManager.cs:51-52 | Reading back the zero-padded digits of a number that fits gives the number |
| Dates.DigitsOfNumber | PolygonDownloadAmazonS3FlatFile/DownloadManager.cs:51-52 | Printing the value of a digit string at its own width gives the string back |
| Dates.FormatDate | PolygonDownloadAmazonS3FlatFile/DownloadManager.cs:51 | `yyyy-MM-dd` prints ten characters with hyphens at positions 4 and 7 |
| Dates.ParseDate | PolygonDownloadAmazonS3FlatFile/DownloadManager.cs:51-52 | `TryParseExact(s, "yyyy-MM-dd")` succeeds only with a valid date (year 1-9999, real month and day) |
| Dates.ParseDateExact | PolygonDownloadAmazonS3FlatFile/DownloadManager.cs:51-52 | The parse yields `d` if and only if `d` is valid and prints as exactly the input: parse and format are inverse, and any other text is refused |
| Dates.ParseFormatRoundTrip | PolygonDownloadAmazonS3FlatFile/DownloadManager.cs:80-81 | A printed date parses back to itself when valid and to nothing otherwise |
| Dates.LeapDayStamp | PolygonDownloadAmazonS3FlatFile/DownloadManager.cs:80-81 | A printed 29 February is accepted exactly in Gregorian leap years |
| Dates.RejectsMalformedStems | PolygonDownloadAmazonS3FlatFile/DownloadManager.cs:80-81 | Stems of the wrong length, with a '/' for a hyphen, or with a letter for a digit are all refused without raising |
| Dates.RejectsImpossibleDates | PolygonDownloadAmazonS3FlatFile/DownloadManager.cs:80-81 | Well-formed stems naming a thirteenth month or 31 April are refused too |
| Dates.DateAt | PolygonDownloadAmazonS3FlatFile/DownloadManager.cs:80-81 | The in-place parse of a stamp only ever yields valid dates |
| Dates.DigitsInSlice | PolygonDownloadAmazonS3FlatFile/DownloadManager.cs:51 | Digits read in place are the digits of the cut-out text, with the same decimal value |
| Dates.DateAtIsParseOfSlice | PolygonDownloadAmazonS3FlatFile/DownloadManager.cs:80-81 | Parsing a stamp in place gives what parsing the cut-out stamp gives |
| Paths.LastIndexOfIsLast | PolygonDownloadAmazonS3FlatFile/DownloadManager.cs:118 | No occurrence of the character follows the position `LastIndexOf` returns, and -1 is returned exactly when the character is absent |
| Paths.FileName | PolygonDownloadAmazonS3FlatFile/DownloadManager.cs:118 | `Path.GetFileName` is never longer than its path; `FileNameIsLastSegment` characterises it as the last '/'-free segment |
| Paths.FileNameIsLastSegment | PolygonDownloadAmazonS3FlatFile/DownloadManager.cs:118 | `Path.GetFileName` is the '/'-free suffix that is the whole path or follows a '/' |
| Paths.FileNameOfFileName | PolygonDownloadAmazonS3FlatFile/DownloadManager.cs:50 | Taking the file name twice changes nothing |
| Paths.FileNameOfSuffix | PolygonDownloadAmazonS3FlatFile/DownloadManager.cs:118 | A '/'-free name after a directory that is empty or ends in '/' is the file name of the joined path |
| Paths.StripExtension | PolygonDownloadAmazonS3FlatFile/DownloadManager.cs:50 | One `GetFileNameWithoutExtension` on a file name; `StripExtensionRemovesLastExtension` states what it keeps and what it removes |
| Paths.FileNameWithoutExtension | PolygonDownloadAmazonS3FlatFile/DownloadManager.cs:50 | `Path.GetFileNameWithoutExtension`: the extension strip of the file name, characterised by `FileNameIsLastSegment` and `StripExtensionRemovesLastExtension` |
| Paths.Stem | PolygonDownloadAmazonS3FlatFile/DownloadManager.cs:50 | The name between the last '/' and the last two extensions; `StemIsDoubleStrip` proves it equal to `GetFileNameWithoutExtension` applied twice |
| Paths.StripExtensionRemovesLastExtension | PolygonDownloadAmazonS3FlatFile/DownloadManager.cs:50 | The extension strip keeps a prefix: all of a dotless name, otherwise up to the last '.', after which no '.' remains |
| Paths.StemIsDoubleStrip | PolygonDownloadAmazonS3FlatFile/DownloadManager.cs:50 | The positional stem equals `GetFileNameWithoutExtension` applied twice |
| Paths.StemOfFileName | PolygonDownloadAmazonS3FlatFile/DownloadManager.cs:79 | The stem of a path is the stem of its file name |
| Paths.StemWithoutDot | PolygonDownloadAmazonS3FlatFile/DownloadManager.cs:79 | A segment with no '.' is its own stem |
| Paths.StemOfSingleExtension | PolygonDownloadAmazonS3FlatFile/DownloadManager.cs:79 | `dir/base.ext` has stem `base` when `base` has no '.' |
| Paths.StemOfDoubleExtension | PolygonDownloadAmazonS3FlatFile/DownloadManager.cs:79 | `dir/base.ext1.ext2` has stem `base`: exactly two extensions go |
| Paths.StemOfDatedKey | PolygonDownloadAmazonS3FlatFile/DownloadManager.cs:79 | `data/2024-01-02.csv.gz` has stem `2024-01-02` |
| Paths.StemOfNotesKey | PolygonDownloadAmazonS3FlatFile/DownloadManager.cs:79 | `data/notes.txt` has stem `notes` |
| Paths.Split | PolygonDownloadAmazonS3FlatFile/DownloadManager.cs:79 | `Split('/')` yields at least one part; `SplitPartsLackSeparator`, `JoinSplit` and `SplitJoin` characterise the parts |
| Paths.Last | PolygonDownloadAmazonS3FlatFile/DownloadManager.cs:79 | LINQ `Last()` on the parts of a split, of which there is always at least one; `LastSegmentIsFileName` proves `key.Split('/').Last()` is `Path.GetFileName(key)` |
| Paths.SplitPartsLackSeparator | PolygonDownloadAmazonS3FlatFile/DownloadManager.cs:79 | No part of `Split('/')` holds a '/' |
| Paths.JoinSplit | PolygonDownloadAmazonS3FlatFile/DownloadManager.cs:79 | Joining the parts of a split with the separator rebuilds the string |
| Paths.SplitJoin | PolygonDownloadAmazonS3FlatFile/DownloadManager.cs:79 | Splitting the join of separator-free parts gives the parts back |
| Paths.LastSegmentIsFileName | PolygonDownloadAmazonS3FlatFile/DownloadManager.cs:79 | `key.Split('/').Last()` is `Path.GetFileName(key)` |
| Paths.Combine | PolygonDownloadAmazonS3FlatFile/DownloadManager.cs:119 | `Path.Combine` for '/' separators; `CombineKeepsFileName` states that the joined path keeps the name |
| Paths.CombineKeepsFileName | PolygonDownloadAmazonS3FlatFile/DownloadManager.cs:119 | `Path.Combine(dir, name)` with a non-empty '/'-free name has file name `name` |
| ObjectStore.Client.constructor | PolygonDownloadAmazonS3FlatFile/DownloadManager.cs:30-33 | A new client has made no request and fetched nothing |
| ObjectStore.Client.ListObjects | PolygonDownloadAmazonS3FlatFile/DownloadManager.cs:72 | The n-th listing request gets the n-th answer and is logged with its token; nothing is fetched |
| ObjectStore.Client.GetObjectToFile | PolygonDownloadAmazonS3FlatFile/DownloadManager.cs:127-128 | The object is written unless its request raises, and the fetch is logged either way |
| Fetcher.Destination | PolygonDownloadAmazonS3FlatFile/DownloadManager.cs:118-119 | Where `DownloadFileAsync` saves a key; `DestinationKeepsName` states that the saved name is the key's last segment |
| Fetcher.DestinationKeepsName | PolygonDownloadAmazonS3FlatFile/DownloadManager.cs:118-119 | The saved file's name is the key's last segment: '/'-free, ending the key, after a '/' |
| Fetcher.DestinationInDir | PolygonDownloadAmazonS3FlatFile/DownloadManager.cs:118-119 | The saved file lies in the download directory: the directory, then one '/' unless it is empty or ends in one, then the key's last segment |
| Fetcher.FetchOf | PolygonDownloadAmazonS3FlatFile/DownloadManager.cs:113-135 | A fetch is of the key, to `Combine(dir, GetFileName(key))`, and written exactly when the key does not raise; the saved file is named after the key's last segment, a name with no '/' |
| Fetcher.FetchesOfAt | PolygonDownloadAmazonS3FlatFile/DownloadManager.cs:88 | The i-th download of a run of keys is the download of the i-th key |
| Fetcher.FetchesOfAppend | PolygonDownloadAmazonS3FlatFile/DownloadManager.cs:75-88 | Downloading two runs of keys logs the first run's fetches, then the second's |
| Fetcher.FetchLogExtends | PolygonDownloadAmazonS3FlatFile/DownloadManager.cs:75-103 | The fetch log of a walk grows by one page's downloads after those of the earlier pages |
| Fetcher.DownloadFile | PolygonDownloadAmazonS3FlatFile/DownloadManager.cs:113-135 | `DownloadFileAsync` always returns; it logs exactly the fetch of its key and issues no listing request |
| Fetcher.WrittenMembership | PolygonDownloadAmazonS3FlatFile/DownloadManager.cs:127-128 | A path is on disk after a run of fetches exactly when one of them wrote it |
| LocalScan.FileDate | PolygonDownloadAmazonS3FlatFile/DownloadManager.cs:49-51 | A local entry is dated only by a valid date; `UndatedFileIgnored` and `SavedFileDate` state which entries get one |
| LocalScan.EndsWith | PolygonDownloadAmazonS3FlatFile/DownloadManager.cs:49 | The `*.csv.gz` search pattern as a suffix test against `DataSuffix`; `DataSuffixOfLastSegment` shows it depends only on the last segment |
| LocalScan.DataSuffixOfLastSegment | PolygonDownloadAmazonS3FlatFile/DownloadManager.cs:49 | A path ends in `.csv.gz` exactly when its last segment does |
| LocalScan.Stamps | PolygonDownloadAmazonS3FlatFile/DownloadManager.cs:49-50 | One stamp per directory entry; `StampAt` states that entry i gets `FileDate` of entry i, in order |
| LocalScan.StampAt | PolygonDownloadAmazonS3FlatFile/DownloadManager.cs:49-50 | Each directory entry gets its own date stamp, in order |
| LocalScan.Parsed | PolygonDownloadAmazonS3FlatFile/DownloadManager.cs:51-52 | Never more dates than stamps; `ParsedMembership`, `ParsedAppend` and `ParsedOfNone` state which dates are kept, and in what order |
| LocalScan.ParsedMembership | PolygonDownloadAmazonS3FlatFile/DownloadManager.cs:51-52 | A date is kept by the `Where`/`Select` pair exactly when some stamp parsed to it |
| LocalScan.ParsedAppend | PolygonDownloadAmazonS3FlatFile/DownloadManager.cs:51-52 | Filtering two runs of stamps keeps the dates of each, in order |
| LocalScan.ParsedOfNone | PolygonDownloadAmazonS3FlatFile/DownloadManager.cs:51-52 | Stamps that all failed to parse keep no date |
| LocalScan.LocalDates | PolygonDownloadAmazonS3FlatFile/DownloadManager.cs:49-52 | Every parsed local date is a valid calendar date |
| LocalScan.Latest | PolygonDownloadAmazonS3FlatFile/DownloadManager.cs:53-54 | `OrderByDescending().FirstOrDefault(default)` is valid, no earlier than every date, one of them when there are any, and 0001-01-01 otherwise |
| LocalScan.LatestBoundsStamps | PolygonDownloadAmazonS3FlatFile/DownloadManager.cs:51-54 | The latest parsed date is no earlier than any stamp's date |
| LocalScan.LatestStampIndex | PolygonDownloadAmazonS3FlatFile/DownloadManager.cs:51-54 | When some stamp holds a date, the latest date is held by some stamp |
| LocalScan.MostRecentLocalFileDate | PolygonDownloadAmazonS3FlatFile/DownloadManager.cs:47-54 | The watermark is a valid date; `WatermarkBoundsLocalDates`, `WatermarkIsALocalDate` and `WatermarkDefaultsToEpoch` pin it down as the latest local date, or 0001-01-01 |
| LocalScan.WatermarkBoundsLocalDates | PolygonDownloadAmazonS3FlatFile/DownloadManager.cs:47-54 | The watermark is no earlier than the date of any local data file |
| LocalScan.WatermarkIsALocalDate | PolygonDownloadAmazonS3FlatFile/DownloadManager.cs:47-54 | When some local data file is dated, the watermark is the date of one of them |
| LocalScan.WatermarkDefaultsToEpoch | PolygonDownloadAmazonS3FlatFile/DownloadManager.cs:54 | With no dated local data file the watermark is 0001-01-01 |
| LocalScan.LocalDatesAppend | PolygonDownloadAmazonS3FlatFile/DownloadManager.cs:49-52 | Scanning two lists of entries gives the dates of both, in order |
| LocalScan.UndatedFileIgnored | PolygonDownloadAmazonS3FlatFile/DownloadManager.cs:49-51 | An entry that is not a data file, or whose stem does not parse, never changes the watermark |
| LocalScan.UndatedFilesIgnored | PolygonDownloadAmazonS3FlatFile/DownloadManager.cs:49-54 | Adding entries none of which is dated leaves the watermark where it was |
| LocalScan.WatermarkGrows | PolygonDownloadAmazonS3FlatFile/DownloadManager.cs:47-54 | Adding entries never lowers the watermark, and the new watermark bounds every added date |
| ListingWalk.KeyDate | PolygonDownloadAmazonS3FlatFile/DownloadManager.cs:79-81 | A key's date, when it has one, is valid; `KeyDateReadsLastPart` proves it the parse of the stem of `key.Split('/').Last()` |
| ListingWalk.KeyDateReadsLastPart | PolygonDownloadAmazonS3FlatFile/DownloadManager.cs:79-81 | A key's date is the parse of the stem of `key.Split('/').Last()`, which equals the stem of the key and of its file name |
| ListingWalk.IsNewer | PolygonDownloadAmazonS3FlatFile/DownloadManager.cs:85 | `fileDate > lastDownloadedDate` after a successful parse; `SelectedMembership` and `DownloadedIffNewer` make it the test for a download |
| ListingWalk.Selected | PolygonDownloadAmazonS3FlatFile/DownloadManager.cs:75-100 | Never more keys than listed; `SelectedMembership` and `SelectedMultiplicity` state which keys, and how often |
| ListingWalk.SelectedMembership | PolygonDownloadAmazonS3FlatFile/DownloadManager.cs:80-99 | A key of a page is selected if and only if it parses to a date strictly after the watermark |
| ListingWalk.SelectedMultiplicity | PolygonDownloadAmazonS3FlatFile/DownloadManager.cs:75-100 | No sorting and no deduplication: a newer key is selected as often as it is listed, any other key never |
| ListingWalk.SelectedAppend | PolygonDownloadAmazonS3FlatFile/DownloadManager.cs:75-100 | Selecting from two runs of keys selects from each, in order |
| ListingWalk.SelectedOfStale | PolygonDownloadAmazonS3FlatFile/DownloadManager.cs:85-94 | Keys none of which is newer select nothing |
| ListingWalk.HasMore | PolygonDownloadAmazonS3FlatFile/DownloadManager.cs:103 | `!string.IsNullOrEmpty(token)`; `StopAt` and `TokensFollowPages` show the walk continues exactly while it holds |
| ListingWalk.StopAt | PolygonDownloadAmazonS3FlatFile/DownloadManager.cs:102-103 | The last page requested is the first one that raises or hands back a null or empty token |
| ListingWalk.Requested | PolygonDownloadAmazonS3FlatFile/DownloadManager.cs:69-103 | The walk issues at least one listing request and never more than the listing has answers |
| ListingWalk.TokensAt | PolygonDownloadAmazonS3FlatFile/DownloadManager.cs:102 | The i-th token sent is the one the i-th request is due |
| ListingWalk.TokensFollowPages | PolygonDownloadAmazonS3FlatFile/DownloadManager.cs:62-103 | The first request carries no token; each later one carries the non-empty token of the page before |
| ListingWalk.PerPageSelectsAllKeys | PolygonDownloadAmazonS3FlatFile/DownloadManager.cs:69-103 | Selecting page by page equals selecting from the concatenation of all the pages' keys |
| ListingWalk.AllKeysMembership | PolygonDownloadAmazonS3FlatFile/DownloadManager.cs:69-103 | A key is among the requested pages' keys exactly when one of those pages lists it |
| ListingWalk.Downloaded | PolygonDownloadAmazonS3FlatFile/DownloadManager.cs:75-105 | The keys a walk downloads, page by page up to the last page requested; `DownloadedIffNewer` characterises them and `DownloadNewerFiles` fetches exactly them |
| ListingWalk.Total | PolygonDownloadAmazonS3FlatFile/DownloadManager.cs:105-110 | The reported count of downloaded keys when the walk completes, nothing after a listing error; `DownloadNewerFiles` returns it |
| ListingWalk.DownloadedIffNewer | PolygonDownloadAmazonS3FlatFile/DownloadManager.cs:75-103 | A key is downloaded if and only if a requested page lists it and its date is strictly after the watermark |
| ListingWalk.NewerKeyHasName | PolygonDownloadAmazonS3FlatFile/DownloadManager.cs:79-85 | A key strictly newer than the watermark has a non-empty last segment, since an empty stem never parses |
| ListingWalk.DownloadedKeepNames | PolygonDownloadAmazonS3FlatFile/DownloadManager.cs:88-119 | The i-th object the walk fetches is saved in the download directory under the i-th downloaded key's last segment, which is never empty |
| ListingWalk.ServiceErrorAbortsWalk | PolygonDownloadAmazonS3FlatFile/DownloadManager.cs:60-110 | A listing error ends the walk with no total; earlier pages' downloads stand and later pages are not requested |
| ListingWalk.PagingIsIrrelevant | PolygonDownloadAmazonS3FlatFile/DownloadManager.cs:69-103 | Two walks over the same keys, however paged, download the same keys in the same order |
| ListingWalk.FirstPageStops | PolygonDownloadAmazonS3FlatFile/DownloadManager.cs:69-103 | When the first page stops the walk, one request is made and exactly that page's newer keys are downloaded; the total is their count unless the request raised |
| ListingWalk.DownloadWanted | PolygonDownloadAmazonS3FlatFile/DownloadManager.cs:75-100 | The `foreach` logs, in listing order, one fetch per wanted key, failed ones included, and counts them |
| ListingWalk.DownloadPage | PolygonDownloadAmazonS3FlatFile/DownloadManager.cs:75-100 | One page's loop fetches exactly the page's strictly newer keys, in order, and counts each started download |
| ListingWalk.WalkPage | PolygonDownloadAmazonS3FlatFile/DownloadManager.cs:70-102 | One pass of the `do … while` body: the n-th request gets the n-th answer, and the fetch log grows by that page's newer keys, which are counted |
| ListingWalk.DownloadNewerFiles | PolygonDownloadAmazonS3FlatFile/DownloadManager.cs:57-111 | The walk sends exactly the token sequence of the listing, fetches exactly `Downloaded` in order, and reports the count of started downloads, or nothing after a listing error |
| DownloadManager.DownloadRecentFiles | PolygonDownloadAmazonS3FlatFile/DownloadManager.cs:35-41 | One run reports the local watermark and then performs the walk against it |
| DownloadManager.SavedFileDate | PolygonDownloadAmazonS3FlatFile/DownloadManager.cs:79-81 | A saved `*.csv.gz` object is dated locally by exactly the date its key carried |
| DownloadManager.OtherSavedFileUndated | PolygonDownloadAmazonS3FlatFile/DownloadManager.cs:49 | A saved object with any other name gives the local scan no date |
| DownloadManager.RerunFetchesNoMore | PolygonDownloadAmazonS3FlatFile/DownloadManager.cs:36-41 | A second run over the same listing fetches nothing the first did not |
| DownloadManager.RerunSkipsSaved | PolygonDownloadAmazonS3FlatFile/DownloadManager.cs:36-41 | A second run fetches only keys strictly newer than every `*.csv.gz` file the first run saved, so a failed older fetch is not retried |
| DownloadManager.RerunAfterFullRunFetchesNothing | PolygonDownloadAmazonS3FlatFile/DownloadManager.cs:36-41 | After a run whose fetches all succeeded on `*.csv.gz` names, a second run fetches nothing |
| DownloadManager.RerunRetriesFailedFetches | PolygonDownloadAmazonS3FlatFile/DownloadManager.cs:36-41 | When every fetch of a run raised, nothing is saved and the next run fetches the same keys again |
| DownloadManager.RerunRefetchesOtherNames | PolygonDownloadAmazonS3FlatFile/DownloadManager.cs:47-54 | When every key a run fetches is saved under a name other than `*.csv.gz`, the watermark stays put and the next run fetches the same keys again |
| DownloadManager.DatedNotesKeyRefetched | PolygonDownloadAmazonS3FlatFile/DownloadManager.cs:49 | From an empty directory, `data/2024-01-05.txt` is fetched by the first run and again by the second, because it is saved as `2024-01-05.txt` |
| DownloadManager.KeyDateOfStamp | PolygonDownloadAmazonS3FlatFile/DownloadManager.cs:79-81 | A key whose stem prints a valid date carries that date |
| DownloadManager.MiddleKeySelected | PolygonDownloadAmazonS3FlatFile/DownloadManager.cs:85-94 | Of three keys, exactly the one strictly newer than the watermark is selected |
| DownloadManager.OneNewFileIsFetched | PolygonDownloadAmazonS3FlatFile/DownloadManager.cs:47-105 | Worked run: with `2024-01-01.csv.gz` on disk and one page listing `data/2024-01-01.csv.gz`, `data/2024-01-02.csv.gz` and `data/notes.txt`, the watermark is 2024-01-01, only the second key is fetched and the total is 1 |

## Left out

- Loading `.env`, reading credentials and building the `AmazonS3Config` and
  `AmazonS3Client` (lines 13-33) is configuration of a foreign library.
  The client is a parameter; the bucket and prefix are fixed in its answers.
- The network calls `ListObjectsV2Async`, `GetObjectAsync` and
  `WriteResponseStreamToFileAsync` are not modelled as I/O. Their outcomes
  are inputs of the `Client` class: the sequence of listing answers, and
  the set of keys whose fetch raises.
- `async`/`await` is modelled as plain sequential code, since the source
  awaits every call in turn.
- `Console.WriteLine` progress lines and the final `Console.ReadKey` are
  output only. `DownloadRecentFiles` returns the watermark it prints, and
  `DownloadNewerFiles` returns the total it prints.
- `Directory.GetFiles` itself, with its OS glob quirks and the exception
  for a missing directory, is not modelled. The directory entries are an
  input sequence, the `*.csv.gz` pattern is a plain suffix test, and an
  accessible directory is assumed.
- Only '/' is a path separator. Windows `\` handling in `Path.*` is not
  modelled.
- A truncated file left on disk by a failed fetch is not modelled. The
  model records such a fetch as not written.
- Only `AmazonS3Exception` is caught, as the code does. Any other
  exception, such as a socket failure, would escape the walk in the source
  and is not modelled.
- The count is of downloads started, failures included, as the code does:
  `fileCount++` follows a call whose exception is caught inside.
- ListingWalk.DownloadNewerFiles: requires a listing that eventually
  stops. This is a raised request, or a null or empty token. The source
  would request pages forever against a service that always hands back a
  token.
- ListingWalk.KeyDate: reads the stem in place, between the key's last
  '/' and its last two extensions, instead of building
  `key.Split('/').Last()` and stripping it twice. `KeyDateReadsLastPart`
  proves the two readings equal.
- Keys listed twice are fetched twice, as in the source
  (`SelectedMultiplicity`); the second fetch overwrites the first file.
  Overwriting is not modelled as disk state.
