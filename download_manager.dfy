/**
 * The sync run (`DownloadRecentFiles`): read the watermark off the local
 * directory, then walk the remote listing and fetch what is newer. The
 * lemmas here relate one run to the next.
 */
module DownloadManager {
  import opened Wrappers
  import opened Dates
  import opened Paths
  import opened ObjectStore
  import opened Fetcher
  import opened LocalScan
  import opened ListingWalk
  import opened Lists

  /**
   * `DownloadRecentFiles`: `localFiles` are the entries of the download
   * directory `dir`, `s3` the client the credentials open. Returns the
   * watermark it reports and the reported total.
   */
  method DownloadRecentFiles(localFiles: seq<string>, s3: Client, dir: string) returns (watermark: Date, total: Option<nat>)
    requires s3.requests == [] && Ends(s3.listing)
    modifies s3
    ensures watermark == MostRecentLocalFileDate(localFiles)
    ensures s3.requests == Tokens(s3.listing, Requested(s3.listing))
    ensures s3.fetches == old(s3.fetches) + FetchesOf(dir, s3.unavailable, Downloaded(s3.listing, watermark))
    ensures total == Total(s3.listing, watermark)
  {
    watermark := MostRecentLocalFileDate(localFiles);
    total := DownloadNewerFiles(s3, watermark, dir);
  }

  /** A saved object whose name is a data file name is dated, locally, by its key's date. */
  lemma {:induction false} SavedFileDate(dir: string, key: string)
    requires EndsWith(FileName(key), DataSuffix)
    ensures FileDate(Destination(dir, key)) == KeyDate(key)
  {
    var path := Destination(dir, key);
    DestinationKeepsName(dir, key);
    FileNameIsLastSegment(path);
    DataSuffixOfLastSegment(path, FileName(path));
    assert FileDate(path) == ParseDate(Stem(path));
    StemOfFileName(path);
    StemOfFileName(key);
    KeyDateReadsLastPart(key);
  }

  /**
   * A saved object whose name is not a data file name gives the local scan
   * no date, so saving it leaves the next watermark where it was
   * (`UndatedFileIgnored`).
   */
  lemma {:induction false} OtherSavedFileUndated(dir: string, key: string)
    requires FileName(key) != [] && !EndsWith(FileName(key), DataSuffix)
    ensures FileDate(Destination(dir, key)) == None
  {
    var path := Destination(dir, key);
    assert !EndsWith(path, DataSuffix) by {
      DestinationKeepsName(dir, key);
      FileNameIsLastSegment(path);
      DataSuffixOfLastSegment(path, FileName(path));
    }
  }

  /** The download directory after a run: the files it held and the files the run wrote. */
  function AfterRun(files: seq<string>, dir: string, unavailable: set<string>, listing: seq<Page>): (after: seq<string>)
    requires Ends(listing)
    ensures |files| <= |after| && after[..|files|] == files
  {
    files + Written(FetchesOf(dir, unavailable, Downloaded(listing, MostRecentLocalFileDate(files))))
  }

  /** A second run over the same listing fetches nothing the first run did not. */
  lemma {:induction false} RerunFetchesNoMore(files: seq<string>, dir: string, unavailable: set<string>, listing: seq<Page>, key: string)
    requires Ends(listing)
    ensures key in Downloaded(listing, MostRecentLocalFileDate(AfterRun(files, dir, unavailable, listing))) ==>
              key in Downloaded(listing, MostRecentLocalFileDate(files))
  {
    var first := MostRecentLocalFileDate(files);
    var second := MostRecentLocalFileDate(AfterRun(files, dir, unavailable, listing));
    WatermarkGrows(files, Written(FetchesOf(dir, unavailable, Downloaded(listing, first))));
    DownloadedIffNewer(listing, first, key);
    DownloadedIffNewer(listing, second, key);
  }

  /**
   * A second run skips everything no newer than a file the first run saved:
   * a fetch that failed is retried only when it is newer than every saved
   * data file.
   */
  lemma {:induction false} RerunSkipsSaved(files: seq<string>, dir: string, unavailable: set<string>, listing: seq<Page>, key: string, saved: string)
    requires Ends(listing)
    requires saved in Downloaded(listing, MostRecentLocalFileDate(files)) && saved !in unavailable
    requires EndsWith(FileName(saved), DataSuffix)
    requires key in Downloaded(listing, MostRecentLocalFileDate(AfterRun(files, dir, unavailable, listing)))
    ensures KeyDate(saved).Some? && KeyDate(key).Some? && Before(KeyDate(saved).value, KeyDate(key).value)
  {
    var first := MostRecentLocalFileDate(files);
    var done := Downloaded(listing, first);
    var fetches := FetchesOf(dir, unavailable, done);
    var added := Written(fetches);
    var second := MostRecentLocalFileDate(files + added);
    DownloadedIffNewer(listing, first, saved);
    DownloadedIffNewer(listing, second, key);
    var j :| 0 <= j < |done| && done[j] == saved;
    FetchesOfAt(dir, unavailable, done, j);
    WrittenMembership(fetches, Destination(dir, saved));
    var m :| 0 <= m < |added| && added[m] == Destination(dir, saved);
    SavedFileDate(dir, saved);
    WatermarkGrows(files, added);
    BeforeIsStrictTotalOrder(KeyDate(saved).value, second, KeyDate(key).value);
  }

  /**
   * Idempotence: once a run has fetched every newer object and each of
   * them is a `*.csv.gz` file, a second run over the same listing fetches
   * nothing. Both conditions are needed. A key saved under another name
   * does not move the watermark (`RerunRefetchesOtherNames`), and neither
   * does a key whose fetch raised (`RerunRetriesFailedFetches`); in either
   * case the next run fetches it again.
   */
  lemma {:induction false} RerunAfterFullRunFetchesNothing(files: seq<string>, dir: string, unavailable: set<string>, listing: seq<Page>)
    requires Ends(listing)
    requires forall key :: key in Downloaded(listing, MostRecentLocalFileDate(files)) ==>
               key !in unavailable && EndsWith(FileName(key), DataSuffix)
    ensures Downloaded(listing, MostRecentLocalFileDate(AfterRun(files, dir, unavailable, listing))) == []
  {
    var again := Downloaded(listing, MostRecentLocalFileDate(AfterRun(files, dir, unavailable, listing)));
    if again != [] {
      var key := again[0];
      RerunFetchesNoMore(files, dir, unavailable, listing, key);
      RerunSkipsSaved(files, dir, unavailable, listing, key, key);
      assert false;
    }
  }

  /**
   * A run fetches again every key whose fetch raised in the run before, as
   * long as no fetch of that run wrote a file: nothing was saved to move
   * the watermark.
   */
  lemma {:induction false} RerunRetriesFailedFetches(files: seq<string>, dir: string, unavailable: set<string>, listing: seq<Page>)
    requires Ends(listing)
    requires forall key :: key in Downloaded(listing, MostRecentLocalFileDate(files)) ==> key in unavailable
    ensures AfterRun(files, dir, unavailable, listing) == files
    ensures Downloaded(listing, MostRecentLocalFileDate(AfterRun(files, dir, unavailable, listing))) ==
              Downloaded(listing, MostRecentLocalFileDate(files))
  {
    var done := Downloaded(listing, MostRecentLocalFileDate(files));
    var fetches := FetchesOf(dir, unavailable, done);
    forall i | 0 <= i < |fetches| ensures !fetches[i].written {
      FetchesOfAt(dir, unavailable, done, i);
      assert done[i] in done;
    }
    FilterNone(fetches, (f: Fetch) => f.written);
    assert Written(fetches) == [];
    assert files + [] == files;
  }

  // ---------------------------------------------------------------- a worked run

  /** The one entry of the local directory in the worked run. */
  const LocalFile: string := "2024-01-01.csv.gz"

  /** The data files of the worked run, as the bucket lists them. */
  const OldKey: string := "data/2024-01-01.csv.gz"
  const NewKey: string := "data/2024-01-02.csv.gz"
  const NotesKey: string := "data/notes.txt"

  /** One page, with no continuation token, listing the three keys. */
  const OnePage: seq<Page> := [Listed([OldKey, NewKey, NotesKey], None)]

  /** `yyyy` prints 2024 as `2024`. */
  lemma {:induction false} YearOfWorkedRun()
    ensures Digits(2024, 4) == "2024"
  {
    assert Digits(2, 1) == "2";
    assert Digits(20, 2) == "20";
    assert Digits(202, 3) == "202";
  }

  /** `MM` and `dd` print one-digit numbers with a leading zero. */
  lemma {:induction false} TwoDigits(n: nat)
    requires n < 10
    ensures Digits(n, 2) == ['0', DigitChar(n)]
  {
    assert Digits(0, 1) == "0";
  }

  /** `yyyy-MM-dd` prints a January 2024 date before the tenth as its file names spell it. */
  lemma {:induction false} StampOfWorkedRun(day: nat)
    requires 1 <= day < 10
    ensures FormatDate(Date(2024, 1, day)) == "2024-01-0" + [DigitChar(day)]
  {
    YearOfWorkedRun();
    TwoDigits(1);
    TwoDigits(day);
  }

  /** The stamp of 2024-01-01. */
  lemma {:induction false} FirstStamp()
    ensures FormatDate(Date(2024, 1, 1)) == "2024-01-01"
  {
    StampOfWorkedRun(1);
  }

  /** The stamp of 2024-01-02. */
  lemma {:induction false} SecondStamp()
    ensures FormatDate(Date(2024, 1, 2)) == "2024-01-02"
  {
    StampOfWorkedRun(2);
  }

  /** A key whose stem prints a valid date carries that date. */
  lemma {:induction false} KeyDateOfStamp(key: string, d: Date)
    requires Valid(d) && Stem(key) == FormatDate(d)
    ensures KeyDate(key) == Some(d)
  {
    KeyDateReadsLastPart(key);
    ParseFormatRoundTrip(d);
  }

  /** `data/2024-01-01.csv.gz` has stem `2024-01-01`. */
  lemma {:induction false} StemOfOldKey()
    ensures Stem(OldKey) == "2024-01-01"
  {
    assert OldKey == "data/" + "2024-01-01" + "." + "csv" + "." + "gz";
    StemOfDoubleExtension("data/", "2024-01-01", "csv", "gz");
  }

  /** `data/2024-01-01.csv.gz` carries 2024-01-01. */
  lemma {:induction false} OldKeyDate()
    ensures KeyDate(OldKey) == Some(Date(2024, 1, 1))
  {
    FirstStamp();
    StemOfOldKey();
    KeyDateOfStamp(OldKey, Date(2024, 1, 1));
  }

  /** `data/2024-01-02.csv.gz` carries 2024-01-02. */
  lemma {:induction false} NewKeyDate()
    ensures KeyDate(NewKey) == Some(Date(2024, 1, 2))
  {
    SecondStamp();
    StemOfDatedKey();
    KeyDateOfStamp(NewKey, Date(2024, 1, 2));
  }

  /** `data/notes.txt` carries no date. */
  lemma {:induction false} NotesKeyUndated()
    ensures KeyDate(NotesKey) == None
  {
    StemOfNotesKey();
    KeyDateReadsLastPart(NotesKey);
  }

  /** The local file of the worked run is a data file with stem `2024-01-01`. */
  lemma {:induction false} LocalFileOfWorkedRun()
    ensures EndsWith(LocalFile, DataSuffix)
    ensures Stem(LocalFile) == "2024-01-01"
  {
    assert LocalFile == "2024-01-01" + DataSuffix;
    assert LocalFile == "" + "2024-01-01" + "." + "csv" + "." + "gz";
    StemOfDoubleExtension("", "2024-01-01", "csv", "gz");
  }

  /** The local directory of the worked run sets the watermark to 2024-01-01. */
  lemma {:induction false} WatermarkOfWorkedRun()
    ensures MostRecentLocalFileDate([LocalFile]) == Date(2024, 1, 1)
  {
    FirstStamp();
    ParseFormatRoundTrip(Date(2024, 1, 1));
    LocalFileOfWorkedRun();
    assert FileDate(LocalFile) == Some(Date(2024, 1, 1));
    WatermarkIsALocalDate([LocalFile], 0);
  }

  /**
   * A worked run. The directory holds `2024-01-01.csv.gz`, so the watermark
   * is 2024-01-01. Of the three listed keys only `data/2024-01-02.csv.gz`
   * is strictly newer: the key of equal date and the undated
   * `data/notes.txt` are skipped, and the run reports one file.
   */
  lemma {:induction false} OneNewFileIsFetched()
    ensures MostRecentLocalFileDate([LocalFile]) == Date(2024, 1, 1)
    ensures Ends(OnePage) && Completed(OnePage)
    ensures Downloaded(OnePage, Date(2024, 1, 1)) == [NewKey]
    ensures Total(OnePage, Date(2024, 1, 1)) == Some(1)
  {
    var watermark := Date(2024, 1, 1);
    WatermarkOfWorkedRun();
    OldKeyDate();
    NewKeyDate();
    NotesKeyUndated();
    MiddleKeySelected(OldKey, NewKey, NotesKey, watermark);
    FirstPageStops(OnePage, watermark);
  }

  /** Of three keys, only the middle one strictly newer than the watermark is selected. */
  lemma {:induction false} MiddleKeySelected(a: string, b: string, c: string, watermark: Date)
    requires !IsNewer(a, watermark) && IsNewer(b, watermark) && !IsNewer(c, watermark)
    ensures Selected([a, b, c], watermark) == [b]
  {
    assert [a, b, c] == [a] + [b] + [c];
    assert [a] == [] + [a];
    FilterSnoc([], a, key => IsNewer(key, watermark));
    FilterSnoc([a], b, key => IsNewer(key, watermark));
    FilterSnoc([a, b], c, key => IsNewer(key, watermark));
  }

  /** A dated key saved under a name the local scan does not read. */
  const DatedNotesKey: string := "data/2024-01-05.txt"

  /** One page, with no continuation token, listing only that key. */
  const DatedNotesPage: seq<Page> := [Listed([DatedNotesKey], None)]

  /**
   * Why `RerunAfterFullRunFetchesNothing` asks for `*.csv.gz` names: when
   * every key a run fetches is saved under another name, the local scan
   * dates none of the saved files, the watermark stays put, and the next
   * run fetches the very same keys again, whether or not their fetches
   * succeeded.
   */
  lemma {:induction false} RerunRefetchesOtherNames(files: seq<string>, dir: string, unavailable: set<string>, listing: seq<Page>)
    requires Ends(listing)
    requires forall key :: key in Downloaded(listing, MostRecentLocalFileDate(files)) ==>
               FileName(key) != [] && !EndsWith(FileName(key), DataSuffix)
    ensures MostRecentLocalFileDate(AfterRun(files, dir, unavailable, listing)) == MostRecentLocalFileDate(files)
    ensures Downloaded(listing, MostRecentLocalFileDate(AfterRun(files, dir, unavailable, listing))) ==
              Downloaded(listing, MostRecentLocalFileDate(files))
  {
    var done := Downloaded(listing, MostRecentLocalFileDate(files));
    var fetches := FetchesOf(dir, unavailable, done);
    var added := Written(fetches);
    forall i | 0 <= i < |added| ensures FileDate(added[i]).None? {
      WrittenMembership(fetches, added[i]);
      var j :| 0 <= j < |fetches| && fetches[j].written && fetches[j].path == added[i];
      FetchesOfAt(dir, unavailable, done, j);
      assert done[j] in done;
      OtherSavedFileUndated(dir, done[j]);
    }
    UndatedFilesIgnored(files, added);
  }

  /** `yyyy-MM-dd` prints 2024-01-05 as `2024-01-05`. */
  lemma {:induction false} FifthStamp()
    ensures FormatDate(Date(2024, 1, 5)) == "2024-01-05"
  {
    StampOfWorkedRun(5);
  }

  /** `data/2024-01-05.txt` has stem `2024-01-05`. */
  lemma {:induction false} StemOfDatedNotesKey()
    ensures Stem(DatedNotesKey) == "2024-01-05"
  {
    assert DatedNotesKey == "data/" + "2024-01-05" + "." + "txt";
    StemOfSingleExtension("data/", "2024-01-05", "txt");
  }

  /** `data/2024-01-05.txt` is saved as `2024-01-05.txt`. */
  lemma {:induction false} FileNameOfDatedNotesKey()
    ensures FileName(DatedNotesKey) == "2024-01-05.txt"
  {
    assert DatedNotesKey == "data/" + "2024-01-05.txt";
    FileNameOfSuffix("data/", "2024-01-05.txt");
  }

  /**
   * An instance: from an empty directory, `data/2024-01-05.txt` is fetched
   * by the first run and, saved as `2024-01-05.txt`, by every later run too.
   */
  lemma {:induction false} DatedNotesKeyRefetched(dir: string, unavailable: set<string>)
    ensures Ends(DatedNotesPage)
    ensures Downloaded(DatedNotesPage, MostRecentLocalFileDate([])) == [DatedNotesKey]
    ensures Downloaded(DatedNotesPage, MostRecentLocalFileDate(AfterRun([], dir, unavailable, DatedNotesPage))) == [DatedNotesKey]
  {
    FifthStamp();
    StemOfDatedNotesKey();
    FileNameOfDatedNotesKey();
    KeyDateOfStamp(DatedNotesKey, Date(2024, 1, 5));
    WatermarkDefaultsToEpoch([]);
    assert IsNewer(DatedNotesKey, Epoch);
    assert [DatedNotesKey] == [] + [DatedNotesKey];
    FilterSnoc([], DatedNotesKey, key => IsNewer(key, Epoch));
    FirstPageStops(DatedNotesPage, Epoch);
    assert !EndsWith("2024-01-05.txt", DataSuffix);
    RerunRefetchesOtherNames([], dir, unavailable, DatedNotesPage);
  }
}
