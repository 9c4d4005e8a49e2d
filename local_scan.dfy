/**
 * The local state scanner: the most recent date among the `*.csv.gz` files
 * already in the download directory (`GetMostRecentLocalFileDate`), modelled
 * as the stages of its query: stamp every file, keep the parsed dates, take
 * the latest or the default.
 */
module LocalScan {
  import opened Wrappers
  import opened Dates
  import opened Paths
  import opened Lists

  /** The compound extension of the data files. */
  const DataSuffix: string := ".csv.gz"

  predicate EndsWith(s: string, suffix: string) {
    |suffix| <= |s| && s[|s| - |suffix|..] == suffix
  }

  /**
   * Whether a path names a data file is decided by its last segment: the
   * suffix holds no '/', so it never reaches past the last separator.
   */
  lemma {:induction false} DataSuffixOfLastSegment(path: string, name: string)
    requires |name| <= |path| && path[|path| - |name|..] == name
    requires |name| < |path| ==> path[|path| - |name| - 1] == '/'
    ensures EndsWith(path, DataSuffix) <==> EndsWith(name, DataSuffix)
  {
    var n := |DataSuffix|;
    if |name| >= n {
      assert path[|path| - n..] == name[|name| - n..];
    } else if |name| < |path| && EndsWith(path, DataSuffix) {
      assert false;
    }
  }

  /**
   * The date of a local file: the parsed stem of a name the `*.csv.gz`
   * search picks, and None for every other name.
   */
  function FileDate(f: string): (r: Option<Date>)
    ensures r.Some? ==> Valid(r.value)
  {
    if EndsWith(f, DataSuffix) then ParseDate(Stem(f)) else None
  }

  /** The `*.csv.gz` search followed by the first `Select`: one stamp per directory entry, in order. */
  function Stamps(files: seq<string>): (stamps: seq<Option<Date>>)
    ensures |stamps| == |files|
  {
    Map(files, FileDate)
  }

  /** The stamp of each entry is that entry's date. */
  lemma {:induction false} StampAt(files: seq<string>, i: int)
    requires 0 <= i < |files|
    ensures Stamps(files)[i] == FileDate(files[i])
  {
    MapAt(files, FileDate, i);
  }

  /** Every stamp that holds a date holds a valid one. */
  lemma {:induction false} StampsValid(files: seq<string>)
    ensures forall i :: 0 <= i < |files| && Stamps(files)[i].Some? ==> Valid(Stamps(files)[i].value)
  {
    forall i | 0 <= i < |files| && Stamps(files)[i].Some? ensures Valid(Stamps(files)[i].value) {
      StampAt(files, i);
    }
  }

  /** The `Where(TryParseExact)` and second `Select`: the parsed dates, in order. */
  function Parsed(stamps: seq<Option<Date>>): (dates: seq<Date>)
    ensures |dates| <= |stamps|
  {
    if stamps == [] then []
    else
      var last := stamps[|stamps| - 1];
      Parsed(stamps[..|stamps| - 1]) + (if last.Some? then [last.value] else [])
  }

  /** A date is kept exactly when some stamp holds it. */
  lemma {:induction false} ParsedMembership(stamps: seq<Option<Date>>, d: Date)
    ensures d in Parsed(stamps) <==> Some(d) in stamps
  {
    if stamps != [] {
      var init := stamps[..|stamps| - 1];
      ParsedMembership(init, d);
      assert stamps == init + [stamps[|stamps| - 1]];
    }
  }

  lemma {:induction false} ParsedAppend(a: seq<Option<Date>>, b: seq<Option<Date>>)
    ensures Parsed(a + b) == Parsed(a) + Parsed(b)
  {
    if b == [] {
      assert a + b == a;
    } else {
      ParsedAppend(a, b[..|b| - 1]);
      assert (a + b)[..|a + b| - 1] == a + b[..|b| - 1];
    }
  }

  /** All the parsed local dates, in directory order. */
  function LocalDates(files: seq<string>): (dates: seq<Date>)
    ensures forall d :: d in dates ==> Valid(d)
  {
    var dates := Parsed(Stamps(files));
    assert forall d :: d in dates ==> Valid(d) by {
      StampsValid(files);
      ParsedValid(Stamps(files));
    }
    dates
  }

  /** The parsed dates of valid stamps are valid. */
  lemma {:induction false} ParsedValid(stamps: seq<Option<Date>>)
    requires forall i :: 0 <= i < |stamps| && stamps[i].Some? ==> Valid(stamps[i].value)
    ensures forall d :: d in Parsed(stamps) ==> Valid(d)
  {
    forall d | d in Parsed(stamps) ensures Valid(d) {
      ParsedMembership(stamps, d);
    }
  }

  /** Stamps none of which holds a date parse to nothing. */
  lemma {:induction false} ParsedOfNone(stamps: seq<Option<Date>>)
    requires forall i :: 0 <= i < |stamps| ==> stamps[i].None?
    ensures Parsed(stamps) == []
  {
    if stamps != [] {
      ParsedOfNone(stamps[..|stamps| - 1]);
    }
  }

  /**
   * `OrderByDescending(d => d).FirstOrDefault(default(DateTime))`: the
   * latest of the dates, or 0001-01-01 when there are none.
   */
  function Latest(dates: seq<Date>): (w: Date)
    requires forall d :: d in dates ==> Valid(d)
    ensures Valid(w)
    ensures forall i :: 0 <= i < |dates| ==> NotAfter(dates[i], w)
    ensures dates == [] ==> w == Epoch
    ensures dates != [] ==> w in dates
  {
    if dates == [] then Epoch
    else
      var init, last := dates[..|dates| - 1], dates[|dates| - 1];
      assert forall d :: d in init ==> d in dates;
      var w := Later(Latest(init), last);
      EpochIsEarliest(last);
      assert dates == init + [last];
      w
  }

  /** `GetMostRecentLocalFileDate`: the watermark of the local directory. */
  function MostRecentLocalFileDate(files: seq<string>): (w: Date)
    ensures Valid(w)
  {
    Latest(LocalDates(files))
  }

  /** The latest parsed date is no earlier than any stamp's date. */
  lemma {:induction false} LatestBoundsStamps(stamps: seq<Option<Date>>)
    requires forall i :: 0 <= i < |stamps| && stamps[i].Some? ==> Valid(stamps[i].value)
    ensures forall d :: d in Parsed(stamps) ==> Valid(d)
    ensures forall i :: 0 <= i < |stamps| && stamps[i].Some? ==> NotAfter(stamps[i].value, Latest(Parsed(stamps)))
  {
    var dates := Parsed(stamps);
    ParsedValid(stamps);
    var w := Latest(dates);
    forall i | 0 <= i < |stamps| && stamps[i].Some? ensures NotAfter(stamps[i].value, w) {
      ParsedMembership(stamps, stamps[i].value);
      var k :| 0 <= k < |dates| && dates[k] == stamps[i].value;
    }
  }

  /** Where the latest parsed date comes from, when some stamp holds a date. */
  lemma {:induction false} LatestStampIndex(stamps: seq<Option<Date>>, j: int) returns (i: int)
    requires forall k :: 0 <= k < |stamps| && stamps[k].Some? ==> Valid(stamps[k].value)
    requires 0 <= j < |stamps| && stamps[j].Some?
    ensures forall d :: d in Parsed(stamps) ==> Valid(d)
    ensures 0 <= i < |stamps| && stamps[i] == Some(Latest(Parsed(stamps)))
  {
    ParsedValid(stamps);
    var dates := Parsed(stamps);
    ParsedMembership(stamps, stamps[j].value);
    assert dates != [];
    ParsedMembership(stamps, Latest(dates));
    i :| 0 <= i < |stamps| && stamps[i] == Some(Latest(dates));
  }

  /** The watermark is the latest of the stamps' dates. */
  lemma {:induction false} WatermarkOfStamps(files: seq<string>)
    ensures forall i :: 0 <= i < |files| && Stamps(files)[i].Some? ==> Valid(Stamps(files)[i].value)
    ensures forall d :: d in Parsed(Stamps(files)) ==> Valid(d)
    ensures MostRecentLocalFileDate(files) == Latest(Parsed(Stamps(files)))
  {
    StampsValid(files);
    ParsedValid(Stamps(files));
  }

  /** The watermark is no earlier than the date of any local data file. */
  lemma {:induction false} WatermarkBoundsLocalDates(files: seq<string>)
    ensures forall i :: 0 <= i < |files| && FileDate(files[i]).Some? ==>
              NotAfter(FileDate(files[i]).value, MostRecentLocalFileDate(files))
  {
    var stamps := Stamps(files);
    WatermarkOfStamps(files);
    LatestBoundsStamps(stamps);
    forall i | 0 <= i < |files| && FileDate(files[i]).Some?
      ensures NotAfter(FileDate(files[i]).value, MostRecentLocalFileDate(files))
    {
      StampAt(files, i);
    }
  }

  /** When some local data file has a date, the watermark is the date of one of them. */
  lemma {:induction false} WatermarkIsALocalDate(files: seq<string>, j: int)
    requires 0 <= j < |files| && FileDate(files[j]).Some?
    ensures exists i :: 0 <= i < |files| && FileDate(files[i]) == Some(MostRecentLocalFileDate(files))
  {
    var stamps := Stamps(files);
    WatermarkOfStamps(files);
    StampAt(files, j);
    var i := LatestStampIndex(stamps, j);
    StampAt(files, i);
    assert FileDate(files[i]) == Some(MostRecentLocalFileDate(files));
  }

  /** When no local file has a date, the watermark is 0001-01-01. */
  lemma {:induction false} WatermarkDefaultsToEpoch(files: seq<string>)
    requires forall i :: 0 <= i < |files| ==> FileDate(files[i]).None?
    ensures MostRecentLocalFileDate(files) == Epoch
  {
    var stamps := Stamps(files);
    forall i | 0 <= i < |stamps| ensures stamps[i].None? {
      StampAt(files, i);
    }
    ParsedOfNone(stamps);
    WatermarkOfStamps(files);
  }

  /** Scanning two lists of files one after the other gives the dates of both, in order. */
  lemma {:induction false} LocalDatesAppend(a: seq<string>, b: seq<string>)
    ensures LocalDates(a + b) == LocalDates(a) + LocalDates(b)
  {
    MapAppend(a, b, FileDate);
    ParsedAppend(Stamps(a), Stamps(b));
  }

  /** A file that is not a data file, or whose stem does not parse, leaves the watermark unchanged. */
  lemma {:induction false} UndatedFileIgnored(before: seq<string>, f: string, after: seq<string>)
    requires FileDate(f).None?
    ensures MostRecentLocalFileDate(before + [f] + after) == MostRecentLocalFileDate(before + after)
  {
    var stamp := Stamps([f]);
    StampAt([f], 0);
    assert [f][0] == f;
    ParsedOfNone(stamp);
    LocalDatesAppend(before, [f]);
    LocalDatesAppend(before + [f], after);
    LocalDatesAppend(before, after);
    assert LocalDates(before + [f]) == LocalDates(before);
  }

  /** Adding files none of which is dated leaves the watermark where it was. */
  lemma {:induction false} UndatedFilesIgnored(files: seq<string>, added: seq<string>)
    requires forall i :: 0 <= i < |added| ==> FileDate(added[i]).None?
    ensures MostRecentLocalFileDate(files + added) == MostRecentLocalFileDate(files)
  {
    forall i | 0 <= i < |added| ensures Stamps(added)[i].None? {
      StampAt(added, i);
    }
    ParsedOfNone(Stamps(added));
    LocalDatesAppend(files, added);
    assert LocalDates(files) + [] == LocalDates(files);
  }

  /** Adding files never moves the watermark back, and the new files' dates are all at or before it. */
  lemma {:induction false} WatermarkGrows(files: seq<string>, added: seq<string>)
    ensures NotAfter(MostRecentLocalFileDate(files), MostRecentLocalFileDate(files + added))
    ensures forall i :: 0 <= i < |added| && FileDate(added[i]).Some? ==>
              NotAfter(FileDate(added[i]).value, MostRecentLocalFileDate(files + added))
  {
    var all := files + added;
    var w := MostRecentLocalFileDate(files);
    WatermarkBoundsLocalDates(all);
    if j :| 0 <= j < |files| && FileDate(files[j]).Some? {
      WatermarkIsALocalDate(files, j);
      var i :| 0 <= i < |files| && FileDate(files[i]) == Some(w);
      assert all[i] == files[i];
    } else {
      WatermarkDefaultsToEpoch(files);
      EpochIsEarliest(MostRecentLocalFileDate(all));
    }
    forall i | 0 <= i < |added| && FileDate(added[i]).Some?
      ensures NotAfter(FileDate(added[i]).value, MostRecentLocalFileDate(all))
    {
      assert all[|files| + i] == added[i];
    }
  }
}
