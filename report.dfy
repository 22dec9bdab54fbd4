/**
 * The report side of the lister: the per-record handler that filters,
 * suppresses repeated deletions and prints a line; the duplicate reducer
 * that keeps one record per file identifier; and ListJournal, which scans a
 * drive in detail mode (every record printed as it arrives) or in summary
 * mode (records reduced by identifier, then replayed in ascending
 * identifier order).
 *
 * Both copies of this code (the command-line program and the `Ntfs_Journal`
 * library) behave alike; they differ only in the resolution flags ListJournal
 * passes to GetJournal, which `ReportCopy` selects.
 *
 * The identifier map and the set of deleted-name hashes are process-wide
 * statics in the source; here they are the fields of one `Reporter` object
 * that lives as long as the process, so that nothing clears them between
 * drives. The name hash is a parameter (`std::hash` is not modelled).
 */
module Report {
  import opened Win32Types
  import opened NtfsTypes
  import opened ReportConfig
  import FsFilter
  import Formatter
  import ReasonCodec
  import Ntfs

  /** The hash the deleted-name set stores (std::hash of the name). */
  type NameHash = string -> u64

  // ---------------------------------------------------------------------------
  // Which records are reported.

  /** The directory/file selection applied after the filter chain. */
  predicate KindShown(show: ShowFilter, attr: bv32)
  {
    show == ShowAll || ((show == ShowDir) == IsDirectory(attr))
  }

  /** A record both handlers consider: a name, a passing filter chain, the right kind. */
  predicate Accepted(cfg: ReportCfg, engine: FsFilter.RegexEngine, rec: JournalRecord)
  {
    |rec.filename| != 0 && FsFilter.AllMatch(cfg.filter, rec, engine) && KindShown(cfg.showFilter, rec.fileAttr)
  }

  /** A custom format, if there is one, does not end inside a field width. */
  predicate FormatOk(cfg: ReportCfg)
  {
    cfg.outputFmt.Some? ==> Formatter.Lexable(cfg.fmtChr, cfg.outputFmt.value, 0)
  }

  // ---------------------------------------------------------------------------
  // The column report.

  /**
   * The name column without the directory: the text after the last slash
   * when that slash is past the first character, otherwise the whole name.
   */
  function ShortName(filename: string, slash: char): string
  {
    var namePos := Formatter.LastIndex(filename, slash);
    if namePos > 0 then filename[namePos + 1..] else filename
  }

  /** The line printed without a custom format: the enabled columns, in their fixed order. */
  function ColumnLine(cfg: ReportCfg, env: TextEnv, rec: JournalRecord): string
  {
    (if cfg.usn then PadLeft(IntText(rec.usn), 15) + cfg.separator else "")
    + (if cfg.modifyTime then env.timestamp(rec.timestamp, cfg.dateFmt, cfg.timeFmt) + cfg.separator else "")
    + (if cfg.size then PadLeft(env.sizeText(0, rec.length), 15) + cfg.separator else "")
    + (if cfg.attribute then PadLeft(Attributes(rec.fileAttr, cfg.dirAttr), 4) + cfg.separator else "")
    + (if cfg.directory then rec.filename else ShortName(rec.filename, cfg.slash))
    + (if cfg.reason then cfg.separator + ReasonCodec.ReasonText(rec.reason) else "")
    + "\n"
  }

  /** The text printed for a record that is reported. */
  function Line(cfg: ReportCfg, env: TextEnv, rec: JournalRecord): string
    requires FormatOk(cfg)
  {
    if cfg.outputFmt.Some? then Formatter.Formatted(cfg, env, rec).value else ColumnLine(cfg, env, rec)
  }

  // ---------------------------------------------------------------------------
  // HandleRecordCb as a function of the deleted-name set.

  /** A deletion, in summary mode, counts against the deleted-name set. */
  predicate TracksDeletion(cfg: ReportCfg, rec: JournalRecord)
  {
    !cfg.showDetail && rec.reason & ReasonFileDelete != 0
  }

  /**
   * What HandleRecordCb prints for `rec` and the deleted-name set after it.
   * A summary-mode deletion whose name hash is already in the set prints
   * nothing; a new one adds its hash.
   */
  function Handle(cfg: ReportCfg, env: TextEnv, engine: FsFilter.RegexEngine, hash: NameHash,
                  deleted: set<u64>, rec: JournalRecord): (string, set<u64>)
    requires FormatOk(cfg)
  {
    if !Accepted(cfg, engine, rec) then ("", deleted)
    else if TracksDeletion(cfg, rec) then
      if hash(rec.filename) in deleted then ("", deleted)
      else (Line(cfg, env, rec), deleted + {hash(rec.filename)})
    else (Line(cfg, env, rec), deleted)
  }

  /** Handling a sequence of records in order: the printed text and the final set. */
  function Replay(cfg: ReportCfg, env: TextEnv, engine: FsFilter.RegexEngine, hash: NameHash,
                  deleted: set<u64>, recs: seq<JournalRecord>): (string, set<u64>)
    requires FormatOk(cfg)
    decreases |recs|
  {
    if recs == [] then ("", deleted)
    else
      var before := Replay(cfg, env, engine, hash, deleted, recs[..|recs| - 1]);
      var last := Handle(cfg, env, engine, hash, before.1, recs[|recs| - 1]);
      (before.0 + last.0, last.1)
  }

  // ---------------------------------------------------------------------------
  // HandleDupRecordCb as a function of the identifier map.

  /**
   * Storing a record under its identifier: the first sighting stores it; a
   * later one replaces it, and in merge-all mode the stored reason is the
   * union of the old and the new reasons.
   */
  function Absorb(m: map<u64, JournalRecord>, rec: JournalRecord, mergeAll: bool): map<u64, JournalRecord>
  {
    m[rec.fileId := Stored(m, rec, mergeAll)]
  }

  /** The union of two reason masks. */
  function Union(x: bv32, y: bv32): bv32
  {
    x | y
  }

  /** The record stored for `rec`'s identifier. */
  function Stored(m: map<u64, JournalRecord>, rec: JournalRecord, mergeAll: bool): JournalRecord
  {
    if mergeAll && rec.fileId in m then rec.(reason := Union(rec.reason, m[rec.fileId].reason)) else rec
  }

  /** HandleDupRecordCb: records that are not accepted leave the map alone. */
  function Dedup(cfg: ReportCfg, engine: FsFilter.RegexEngine, m: map<u64, JournalRecord>, rec: JournalRecord)
    : map<u64, JournalRecord>
  {
    if Accepted(cfg, engine, rec) then Absorb(m, rec, cfg.reasonMergeAll) else m
  }

  /** The map after a sequence of records has been reduced, in order. */
  function Reduce(cfg: ReportCfg, engine: FsFilter.RegexEngine, m: map<u64, JournalRecord>, recs: seq<JournalRecord>)
    : map<u64, JournalRecord>
    decreases |recs|
  {
    if recs == [] then m
    else Dedup(cfg, engine, Reduce(cfg, engine, m, recs[..|recs| - 1]), recs[|recs| - 1])
  }

  // ---------------------------------------------------------------------------
  // Ascending key order of std::map.

  /** `k` is the smallest key of `s`. */
  predicate IsMin(k: u64, s: set<u64>)
  {
    k in s && forall j :: j in s ==> k <= j
  }

  lemma {:induction false} MinExists(s: set<u64>)
    requires s != {}
    ensures exists k :: IsMin(k, s)
    decreases |s|
  {
    var x :| x in s;
    if s == {x} {
      assert IsMin(x, s);
    } else {
      MinExists(s - {x});
      var k :| IsMin(k, s - {x});
      if x < k {
        forall j | j in s
          ensures x <= j
        {
          if j != x {
            assert j in s - {x};
          }
        }
        assert IsMin(x, s);
      } else {
        forall j | j in s
          ensures k <= j
        {
          if j != x {
            assert j in s - {x};
          }
        }
        assert IsMin(k, s);
      }
    }
  }

  /** The smallest key of a non-empty set. */
  ghost function Min(s: set<u64>): (k: u64)
    requires s != {}
    ensures IsMin(k, s)
  {
    MinExists(s);
    var k :| IsMin(k, s);
    k
  }

  predicate StrictlyIncreasing(ks: seq<u64>)
  {
    forall i, j :: 0 <= i < j < |ks| ==> ks[i] < ks[j]
  }

  /** The keys of a set in ascending order: the order in which a std::map is iterated. */
  ghost function Ascending(s: set<u64>): seq<u64>
    decreases |s|
  {
    if s == {} then [] else var k := Min(s); [k] + Ascending(s - {k})
  }

  /** Ascending lists every key of the set exactly once, smallest first. */
  lemma {:induction false} AscendingSpec(s: set<u64>)
    ensures var ks := Ascending(s); |ks| == |s| && StrictlyIncreasing(ks)
    ensures forall k :: k in Ascending(s) <==> k in s
    decreases |s|
  {
    if s != {} {
      var k := Min(s);
      AscendingSpec(s - {k});
      var rest := Ascending(s - {k});
      assert Ascending(s) == [k] + rest;
      forall i, j | 0 <= i < j < |[k] + rest|
        ensures ([k] + rest)[i] < ([k] + rest)[j]
      {
        if i == 0 {
          assert rest[j - 1] in s - {k};
        }
      }
    }
  }

  /** The smallest key comes first; the rest follow in ascending order. */
  lemma AscendingFirst(s: set<u64>, k: u64)
    requires IsMin(k, s)
    ensures Ascending(s) == [k] + Ascending(s - {k})
  {
    var m := Min(s);
    assert m <= k && k <= m;
  }

  /** The records of a map, in the order of `keys`. */
  function ValuesAt(m: map<u64, JournalRecord>, keys: seq<u64>): (recs: seq<JournalRecord>)
    requires forall k :: k in keys ==> k in m
    ensures |recs| == |keys| && forall i :: 0 <= i < |keys| ==> recs[i] == m[keys[i]]
    decreases |keys|
  {
    if keys == [] then [] else ValuesAt(m, keys[..|keys| - 1]) + [m[keys[|keys| - 1]]]
  }

  /** The records of a map in ascending key order: what the summary loop hands to HandleRecordCb. */
  ghost function Summary(m: map<u64, JournalRecord>): seq<JournalRecord>
  {
    AscendingSpec(m.Keys);
    ValuesAt(m, Ascending(m.Keys))
  }

  /** Taking the smallest remaining key extends the ascending prefix by that key. */
  lemma AscendingStep(keys: set<u64>, done: seq<u64>, left: set<u64>, k: u64)
    requires IsMin(k, left)
    requires Ascending(keys) == done + Ascending(left)
    ensures Ascending(keys) == (done + [k]) + Ascending(left - {k})
  {
    AscendingFirst(left, k);
    assert done + ([k] + Ascending(left - {k})) == (done + [k]) + Ascending(left - {k});
  }

  lemma ValuesAtSnoc(m: map<u64, JournalRecord>, keys: seq<u64>, k: u64)
    requires forall j :: j in keys ==> j in m
    requires k in m
    ensures ValuesAt(m, keys + [k]) == ValuesAt(m, keys) + [m[k]]
  {
    assert (keys + [k])[..|keys|] == keys;
  }

  lemma ReplaySnoc(cfg: ReportCfg, env: TextEnv, engine: FsFilter.RegexEngine, hash: NameHash,
                   deleted: set<u64>, recs: seq<JournalRecord>, rec: JournalRecord)
    requires FormatOk(cfg)
    ensures var before := Replay(cfg, env, engine, hash, deleted, recs);
      var last := Handle(cfg, env, engine, hash, before.1, rec);
      Replay(cfg, env, engine, hash, deleted, recs + [rec]) == (before.0 + last.0, last.1)
  {
    assert (recs + [rec])[..|recs|] == recs;
  }

  /** The summary loop's invariant: the keys in `done` have been replayed, those in `left` remain. */
  ghost predicate ReplayedUpTo(cfg: ReportCfg, env: TextEnv, engine: FsFilter.RegexEngine, hash: NameHash,
                               deleted: set<u64>, m: map<u64, JournalRecord>, done: seq<u64>, left: set<u64>,
                               out: string, now: set<u64>)
    requires FormatOk(cfg)
  {
    left <= m.Keys
    && (forall k :: k in done ==> k in m)
    && Ascending(m.Keys) == done + Ascending(left)
    && (out, now) == Replay(cfg, env, engine, hash, deleted, ValuesAt(m, done))
  }

  lemma SummaryStep(cfg: ReportCfg, env: TextEnv, engine: FsFilter.RegexEngine, hash: NameHash,
                    deleted: set<u64>, m: map<u64, JournalRecord>, done: seq<u64>, left: set<u64>,
                    out: string, now: set<u64>, k: u64)
    requires FormatOk(cfg) && IsMin(k, left)
    requires ReplayedUpTo(cfg, env, engine, hash, deleted, m, done, left, out, now)
    ensures var h := Handle(cfg, env, engine, hash, now, m[k]);
      ReplayedUpTo(cfg, env, engine, hash, deleted, m, done + [k], left - {k}, out + h.0, h.1)
  {
    AscendingStep(m.Keys, done, left, k);
    ValuesAtSnoc(m, done, k);
    ReplaySnoc(cfg, env, engine, hash, deleted, ValuesAt(m, done), m[k]);
  }

  lemma SummaryDone(cfg: ReportCfg, env: TextEnv, engine: FsFilter.RegexEngine, hash: NameHash,
                    deleted: set<u64>, m: map<u64, JournalRecord>, done: seq<u64>, out: string, now: set<u64>)
    requires FormatOk(cfg)
    requires ReplayedUpTo(cfg, env, engine, hash, deleted, m, done, {}, out, now)
    ensures (out, now) == Replay(cfg, env, engine, hash, deleted, Summary(m))
  {
    assert done + [] == done;
  }

  // ---------------------------------------------------------------------------
  // The reporter.

  /** Which copy of the report code runs: the two differ in the flags they pass to GetJournal. */
  datatype ReportCopy = ProgramCopy | LibraryCopy

  /** (getFileLength, getFullPath) as ListJournal passes them. */
  function ResolveFlags(copy: ReportCopy, cfg: ReportCfg): (bool, bool)
  {
    match copy
    case ProgramCopy => (false, true)
    case LibraryCopy => (cfg.getFileLength, cfg.getFullPath)
  }

  /** The C string's first character: what `*drivePath` reads. */
  function FirstChar(s: string): char
  {
    if s == [] then '\0' else s[0]
  }

  function OpenFailedMessage(drivePath: string, errorMsg: string): string
  {
    "Failed to open drive:" + drivePath + "\nError:" + errorMsg + "\n"
  }

  function NoJournalMessage(drivePath: string): string
  {
    "Journal not available on drive:" + drivePath + "\n"
  }

  /** The records GetJournal delivers for a drive whose journal was found. */
  ghost function Scanned(fs: Ntfs.FileSystem, res: Ntfs.Resolver, journal: Ntfs.JournalData,
                         pages: seq<Ntfs.Page>, cfg: ReportCfg, copy: ReportCopy): seq<JournalRecord>
  {
    var (getFileLength, getFullPath) := ResolveFlags(copy, cfg);
    Ntfs.ReadAll(Ntfs.Naming(fs, getFileLength, getFullPath), res, pages,
                 Ntfs.StartCursor(SignedOf64(cfg.startUsn), journal),
                 Ntfs.EffectiveFilter(cfg.reasonFilter), journal.usnJournalId).delivered
  }

  class Reporter {
    /** The summary map: one record per file identifier (sJournalMap). */
    var journalMap: map<u64, JournalRecord>
    /** Hashes of the deleted names already reported (sDeletedSet). */
    var deletedSet: set<u64>

    constructor()
      ensures journalMap == map[] && deletedSet == {}
    {
      journalMap := map[];
      deletedSet := {};
    }

    /** The column report of one record. */
    method WriteColumns(cfg: ReportCfg, env: TextEnv, rec: JournalRecord) returns (out: string)
      ensures out == ColumnLine(cfg, env, rec)
    {
      var usnCol := if cfg.usn then PadLeft(IntText(rec.usn), 15) + cfg.separator else "";
      var timeCol := if cfg.modifyTime then env.timestamp(rec.timestamp, cfg.dateFmt, cfg.timeFmt) + cfg.separator else "";
      var sizeCol := if cfg.size then PadLeft(env.sizeText(0, rec.length), 15) + cfg.separator else "";
      var attrCol := if cfg.attribute then PadLeft(Attributes(rec.fileAttr, cfg.dirAttr), 4) + cfg.separator else "";
      var namePos := Formatter.LastIndex(rec.filename, cfg.slash);
      var name := if namePos > 0 then rec.filename[namePos + 1..] else rec.filename;
      assert name == ShortName(rec.filename, cfg.slash);
      var nameCol := if cfg.directory then rec.filename else name;
      var reasonCol := "";
      if cfg.reason {
        var reasonStr := ReasonCodec.GetReasonString(rec.reason);
        reasonCol := cfg.separator + reasonStr;
      }
      assert reasonCol == if cfg.reason then cfg.separator + ReasonCodec.ReasonText(rec.reason) else "";
      out := usnCol + timeCol + sizeCol + attrCol + nameCol + reasonCol + "\n";
    }

    /**
     * HandleRecordCb: prints an accepted record, except a summary-mode
     * deletion whose name was already reported.
     */
    method HandleRecordCb(cfg: ReportCfg, env: TextEnv, engine: FsFilter.RegexEngine, hash: NameHash,
                          rec: JournalRecord) returns (out: string)
      requires FormatOk(cfg)
      modifies this`deletedSet
      ensures (out, deletedSet) == Handle(cfg, env, engine, hash, old(deletedSet), rec)
    {
      out := "";
      if |rec.filename| != 0 && FsFilter.AllMatch(cfg.filter, rec, engine) {
        if cfg.showFilter != ShowAll {
          var isDir := IsDirectory(rec.fileAttr);
          var showDir := cfg.showFilter == ShowDir;
          if showDir != isDir {
            return;
          }
        }
        if !cfg.showDetail {
          if rec.reason & ReasonFileDelete != 0 {
            var h := hash(rec.filename);
            if h !in deletedSet {
              deletedSet := deletedSet + {h};
            } else {
              return;
            }
          }
        }
        if cfg.outputFmt.Some? {
          out := Formatter.FormatOutput(cfg, env, rec);
          return;
        }
        out := WriteColumns(cfg, env, rec);
      }
    }

    /** HandleDupRecordCb: keeps the newest accepted record per identifier. */
    method HandleDupRecordCb(cfg: ReportCfg, engine: FsFilter.RegexEngine, rec: JournalRecord)
      modifies this`journalMap
      ensures journalMap == Dedup(cfg, engine, old(journalMap), rec)
    {
      if |rec.filename| != 0 && FsFilter.AllMatch(cfg.filter, rec, engine) {
        if cfg.showFilter != ShowAll {
          var isDir := IsDirectory(rec.fileAttr);
          var showDir := cfg.showFilter == ShowDir;
          if showDir != isDir {
            assert !Accepted(cfg, engine, rec);
            return;
          }
        }
        Store(rec, cfg.reasonMergeAll);
      }
    }

    /** The find-then-store step of HandleDupRecordCb for an accepted record. */
    method Store(rec: JournalRecord, mergeAll: bool)
      modifies this`journalMap
      ensures journalMap == Absorb(old(journalMap), rec, mergeAll)
    {
      if rec.fileId !in journalMap {
        journalMap := journalMap[rec.fileId := rec];
      } else {
        var reason := rec.reason | journalMap[rec.fileId].reason;
        journalMap := journalMap[rec.fileId := rec];
        if mergeAll {
          journalMap := journalMap[rec.fileId := journalMap[rec.fileId].(reason := reason)];
          assert journalMap == old(journalMap)[rec.fileId := rec.(reason := reason)];
        }
      }
    }

    /** The summary loop: every stored record, in ascending identifier order, through HandleRecordCb. */
    method ReplaySummary(cfg: ReportCfg, env: TextEnv, engine: FsFilter.RegexEngine, hash: NameHash)
      returns (out: string)
      requires FormatOk(cfg)
      modifies this`deletedSet
      ensures (out, deletedSet) == Replay(cfg, env, engine, hash, old(deletedSet), Summary(journalMap))
    {
      out := "";
      var left := journalMap.Keys;
      ghost var done: seq<u64> := [];
      assert ReplayedUpTo(cfg, env, engine, hash, old(deletedSet), journalMap, done, left, out, deletedSet);
      while left != {}
        invariant ReplayedUpTo(cfg, env, engine, hash, old(deletedSet), journalMap, done, left, out, deletedSet)
        decreases |left|
      {
        MinExists(left);
        var k :| IsMin(k, left);
        ghost var before := deletedSet;
        var text := HandleRecordCb(cfg, env, engine, hash, journalMap[k]);
        SummaryStep(cfg, env, engine, hash, old(deletedSet), journalMap, done, left, out, before, k);
        out := out + text;
        done := done + [k];
        left := left - {k};
      }
      SummaryDone(cfg, env, engine, hash, old(deletedSet), journalMap, done, out, deletedSet);
    }

    /**
     * ListJournal: opens the drive, checks for a journal, then reads it. In
     * detail mode every record goes through HandleRecordCb as it arrives; in
     * summary mode through HandleDupRecordCb, after which the whole map is
     * replayed through HandleRecordCb. `volume` is what opening the drive
     * finds (None when it cannot be opened) and `errorMsg` the text
     * GetLastErrorMsg reports then; `err` is what goes to the error stream.
     */
    method ListJournal(drivePath: string, ntfs: Ntfs.Ntfs, cfg: ReportCfg, env: TextEnv,
                       engine: FsFilter.RegexEngine, hash: NameHash,
                       volume: Option<(Ntfs.FileSystem, Option<Ntfs.JournalData>, seq<Ntfs.ValidPage>)>,
                       errorMsg: string, copy: ReportCopy)
      returns (status: int, out: string, err: string)
      requires FormatOk(cfg)
      modifies this, ntfs
      ensures ntfs.drive == FirstChar(drivePath)
      ensures volume.None? ==>
        status == -1 && out == "" && err == OpenFailedMessage(drivePath, errorMsg)
        && journalMap == old(journalMap) && deletedSet == old(deletedSet)
      ensures volume.Some? && volume.value.1.None? ==>
        status == -1 && out == "" && err == NoJournalMessage(drivePath)
        && journalMap == old(journalMap) && deletedSet == old(deletedSet)
      ensures volume.Some? && volume.value.1.Some? ==>
        var recs := Scanned(volume.value.0, Ntfs.Resolver(map[], old(ntfs.res.lookups)), volume.value.1.value,
                            volume.value.2, cfg, copy);
        status == 1 && err == ""
        && (cfg.showDetail ==>
              journalMap == old(journalMap)
              && (out, deletedSet) == Replay(cfg, env, engine, hash, old(deletedSet), recs))
        && (!cfg.showDetail ==>
              journalMap == Reduce(cfg, engine, old(journalMap), recs)
              && (out, deletedSet) == Replay(cfg, env, engine, hash, old(deletedSet), Summary(journalMap)))
    {
      out, err := "", "";
      var isOpen := ntfs.OpenDrive(FirstChar(drivePath), volume);
      if !isOpen {
        return -1, out, OpenFailedMessage(drivePath, errorMsg);
      }
      var has := ntfs.HasJournal();
      if !has {
        return -1, out, NoJournalMessage(drivePath);
      }
      var (getFileLength, getFullPath) := ResolveFlags(copy, cfg);
      ghost var recs := Scanned(ntfs.fs, ntfs.res, ntfs.journal.value, ntfs.device, cfg, copy);
      var ok, calls := ntfs.GetJournalCallback(SignedOf64(cfg.startUsn), cfg.reasonFilter, getFileLength, getFullPath);
      assert calls == recs;
      if cfg.showDetail {
        out := ReplayDetail(cfg, env, engine, hash, calls);
      } else {
        ReduceAll(cfg, engine, calls);
        out := ReplaySummary(cfg, env, engine, hash);
      }
      status := if ok then 1 else -1;
    }

    /** Detail mode: every record delivered goes through HandleRecordCb, in order. */
    method ReplayDetail(cfg: ReportCfg, env: TextEnv, engine: FsFilter.RegexEngine, hash: NameHash,
                        calls: seq<JournalRecord>) returns (out: string)
      requires FormatOk(cfg)
      modifies this`deletedSet
      ensures (out, deletedSet) == Replay(cfg, env, engine, hash, old(deletedSet), calls)
    {
      out := "";
      var i := 0;
      while i < |calls|
        invariant 0 <= i <= |calls|
        invariant (out, deletedSet) == Replay(cfg, env, engine, hash, old(deletedSet), calls[..i])
      {
        var text := HandleRecordCb(cfg, env, engine, hash, calls[i]);
        ReplaySnoc(cfg, env, engine, hash, old(deletedSet), calls[..i], calls[i]);
        assert calls[..i + 1] == calls[..i] + [calls[i]];
        out := out + text;
        i := i + 1;
      }
      assert calls[..i] == calls;
    }

    /** Summary mode, first half: every record delivered goes through HandleDupRecordCb, in order. */
    method ReduceAll(cfg: ReportCfg, engine: FsFilter.RegexEngine, calls: seq<JournalRecord>)
      modifies this`journalMap
      ensures journalMap == Reduce(cfg, engine, old(journalMap), calls)
    {
      var i := 0;
      while i < |calls|
        invariant 0 <= i <= |calls|
        invariant journalMap == Reduce(cfg, engine, old(journalMap), calls[..i])
      {
        HandleDupRecordCb(cfg, engine, calls[i]);
        assert calls[..i + 1][..i] == calls[..i];
        i := i + 1;
      }
      assert calls[..i] == calls;
    }
  }

  // ---------------------------------------------------------------------------
  // Properties of the detail report.

  /** The lines of the accepted records, in order. */
  function Shown(cfg: ReportCfg, env: TextEnv, engine: FsFilter.RegexEngine, recs: seq<JournalRecord>): string
    requires FormatOk(cfg)
    decreases |recs|
  {
    if recs == [] then ""
    else
      var last := recs[|recs| - 1];
      Shown(cfg, env, engine, recs[..|recs| - 1]) + (if Accepted(cfg, engine, last) then Line(cfg, env, last) else "")
  }

  /** In detail mode every accepted record is printed, deletions included, and the deleted-name set is not touched. */
  lemma {:induction false} DetailPrintsAllAccepted(cfg: ReportCfg, env: TextEnv, engine: FsFilter.RegexEngine,
                                                   hash: NameHash, deleted: set<u64>, recs: seq<JournalRecord>)
    requires FormatOk(cfg) && cfg.showDetail
    ensures Replay(cfg, env, engine, hash, deleted, recs) == (Shown(cfg, env, engine, recs), deleted)
    decreases |recs|
  {
    if recs != [] {
      DetailPrintsAllAccepted(cfg, env, engine, hash, deleted, recs[..|recs| - 1]);
    }
  }

  // ---------------------------------------------------------------------------
  // Properties of the deleted-name set.

  /** The name hashes of the accepted summary-mode deletions among `recs`. */
  ghost function DeletedNames(cfg: ReportCfg, engine: FsFilter.RegexEngine, hash: NameHash, recs: seq<JournalRecord>)
    : set<u64>
  {
    set i | 0 <= i < |recs| && Accepted(cfg, engine, recs[i]) && TracksDeletion(cfg, recs[i]) :: hash(recs[i].filename)
  }

  lemma DeletedNamesSnoc(cfg: ReportCfg, engine: FsFilter.RegexEngine, hash: NameHash,
                         recs: seq<JournalRecord>, rec: JournalRecord)
    ensures DeletedNames(cfg, engine, hash, recs + [rec])
         == DeletedNames(cfg, engine, hash, recs)
            + (if Accepted(cfg, engine, rec) && TracksDeletion(cfg, rec) then {hash(rec.filename)} else {})
  {
    var all := recs + [rec];
    forall h | h in DeletedNames(cfg, engine, hash, all)
      ensures h in DeletedNames(cfg, engine, hash, recs)
              || (Accepted(cfg, engine, rec) && TracksDeletion(cfg, rec) && h == hash(rec.filename))
    {
      var i :| 0 <= i < |all| && Accepted(cfg, engine, all[i]) && TracksDeletion(cfg, all[i]) && h == hash(all[i].filename);
      if i < |recs| {
        assert all[i] == recs[i];
      }
    }
    forall h | h in DeletedNames(cfg, engine, hash, recs)
      ensures h in DeletedNames(cfg, engine, hash, all)
    {
      var i :| 0 <= i < |recs| && Accepted(cfg, engine, recs[i]) && TracksDeletion(cfg, recs[i]) && h == hash(recs[i].filename);
      assert all[i] == recs[i];
    }
    if Accepted(cfg, engine, rec) && TracksDeletion(cfg, rec) {
      assert all[|recs|] == rec;
      assert hash(rec.filename) in DeletedNames(cfg, engine, hash, all);
    }
  }

  /** After a replay the set holds what it held before plus the names of the accepted summary-mode deletions. */
  lemma {:induction false} ReplayDeleted(cfg: ReportCfg, env: TextEnv, engine: FsFilter.RegexEngine,
                                         hash: NameHash, deleted: set<u64>, recs: seq<JournalRecord>)
    requires FormatOk(cfg)
    ensures Replay(cfg, env, engine, hash, deleted, recs).1 == deleted + DeletedNames(cfg, engine, hash, recs)
    decreases |recs|
  {
    if recs != [] {
      var prefix := recs[..|recs| - 1];
      var last := recs[|recs| - 1];
      ReplayDeleted(cfg, env, engine, hash, deleted, prefix);
      DeletedNamesSnoc(cfg, engine, hash, prefix, last);
      assert prefix + [last] == recs;
    }
  }

  /**
   * A summary-mode deletion is printed only when no earlier deletion of the
   * same name (by hash) was printed, on this drive or an earlier one.
   */
  lemma DeletionReportedOnce(cfg: ReportCfg, env: TextEnv, engine: FsFilter.RegexEngine,
                             hash: NameHash, deleted: set<u64>, recs: seq<JournalRecord>, rec: JournalRecord)
    requires FormatOk(cfg) && Accepted(cfg, engine, rec) && TracksDeletion(cfg, rec)
    ensures Replay(cfg, env, engine, hash, deleted, recs + [rec]).0
         == Replay(cfg, env, engine, hash, deleted, recs).0
            + (if hash(rec.filename) in deleted + DeletedNames(cfg, engine, hash, recs) then "" else Line(cfg, env, rec))
  {
    ReplaySnoc(cfg, env, engine, hash, deleted, recs, rec);
    ReplayDeleted(cfg, env, engine, hash, deleted, recs);
  }

  // ---------------------------------------------------------------------------
  // Properties of the reducer.

  lemma OrAbsorbs(x: bv32, y: bv32)
    ensures Union(x, Union(x, y)) == Union(x, y)
  {
    var u := x | y;
    assert x | u == u;
  }

  lemma OrIdempotent(x: bv32)
    ensures Union(x, x) == x
  {
  }

  lemma OrZero(x: bv32)
    ensures Union(x, 0) == x
  {
  }

  /** Reducing the same record twice is reducing it once, in both modes. */
  lemma DedupIdempotent(cfg: ReportCfg, engine: FsFilter.RegexEngine, m: map<u64, JournalRecord>, rec: JournalRecord)
    ensures Dedup(cfg, engine, Dedup(cfg, engine, m, rec), rec) == Dedup(cfg, engine, m, rec)
  {
    if Accepted(cfg, engine, rec) {
      var x := Stored(m, rec, cfg.reasonMergeAll);
      StoredTwice(m, rec, cfg.reasonMergeAll);
      assert m[rec.fileId := x][rec.fileId := x] == m[rec.fileId := x];
    }
  }

  /** Storing a record over its own stored copy stores the same record again. */
  lemma StoredTwice(m: map<u64, JournalRecord>, rec: JournalRecord, mergeAll: bool)
    ensures var x := Stored(m, rec, mergeAll); Stored(m[rec.fileId := x], rec, mergeAll) == x
  {
    if mergeAll && rec.fileId in m {
      OrAbsorbs(rec.reason, m[rec.fileId].reason);
    } else if mergeAll {
      OrIdempotent(rec.reason);
    }
  }

  /** Every map entry is stored under its own record's identifier. */
  ghost predicate Keyed(m: map<u64, JournalRecord>)
  {
    forall k :: k in m ==> m[k].fileId == k
  }

  /** An identifier is in the reduced map exactly when it was there before or an accepted record carries it. */
  lemma {:induction false} ReduceKeys(cfg: ReportCfg, engine: FsFilter.RegexEngine, m: map<u64, JournalRecord>,
                                      recs: seq<JournalRecord>, k: u64)
    ensures k in Reduce(cfg, engine, m, recs)
        <==> k in m || exists i :: 0 <= i < |recs| && Accepted(cfg, engine, recs[i]) && recs[i].fileId == k
    decreases |recs|
  {
    if recs != [] {
      var prefix := recs[..|recs| - 1];
      ReduceKeys(cfg, engine, m, prefix, k);
      if exists i :: 0 <= i < |recs| && Accepted(cfg, engine, recs[i]) && recs[i].fileId == k {
        var i :| 0 <= i < |recs| && Accepted(cfg, engine, recs[i]) && recs[i].fileId == k;
        if i < |prefix| {
          assert prefix[i] == recs[i];
        }
      }
      if exists i :: 0 <= i < |prefix| && Accepted(cfg, engine, prefix[i]) && prefix[i].fileId == k {
        var i :| 0 <= i < |prefix| && Accepted(cfg, engine, prefix[i]) && prefix[i].fileId == k;
        assert recs[i] == prefix[i];
      }
    }
  }

  /** Reducing keeps every entry under its own identifier. */
  lemma {:induction false} ReduceKeyed(cfg: ReportCfg, engine: FsFilter.RegexEngine, m: map<u64, JournalRecord>,
                                       recs: seq<JournalRecord>)
    requires Keyed(m)
    ensures Keyed(Reduce(cfg, engine, m, recs))
    decreases |recs|
  {
    if recs != [] {
      ReduceKeyed(cfg, engine, m, recs[..|recs| - 1]);
    }
  }

  /**
   * The union of the reason `m` holds for identifier `k` (none when it holds
   * no entry) and the reasons of the accepted records that carry `k`.
   */
  function ReasonsOf(cfg: ReportCfg, engine: FsFilter.RegexEngine, m: map<u64, JournalRecord>,
                     recs: seq<JournalRecord>, k: u64): bv32
    decreases |recs|
  {
    if recs == [] then (if k in m then m[k].reason else 0)
    else
      var last := recs[|recs| - 1];
      var before := ReasonsOf(cfg, engine, m, recs[..|recs| - 1], k);
      if Accepted(cfg, engine, last) && last.fileId == k then Union(last.reason, before) else before
  }

  /** An identifier the reduction never stored had no entry and no accepted record. */
  lemma {:induction false} ReduceAbsent(cfg: ReportCfg, engine: FsFilter.RegexEngine, m: map<u64, JournalRecord>,
                                        recs: seq<JournalRecord>, k: u64)
    requires k !in Reduce(cfg, engine, m, recs)
    ensures k !in m && ReasonsOf(cfg, engine, m, recs, k) == 0
    decreases |recs|
  {
    if recs != [] {
      ReduceAbsent(cfg, engine, m, recs[..|recs| - 1], k);
    }
  }

  /**
   * In merge-all mode the reason stored for an identifier is the union of
   * every accepted reason for it, together with the reason it had before.
   */
  lemma {:induction false} ReduceMergesReasons(cfg: ReportCfg, engine: FsFilter.RegexEngine, m: map<u64, JournalRecord>,
                                               recs: seq<JournalRecord>, k: u64)
    requires cfg.reasonMergeAll && k in Reduce(cfg, engine, m, recs)
    ensures Reduce(cfg, engine, m, recs)[k].reason == ReasonsOf(cfg, engine, m, recs, k)
    decreases |recs|
  {
    if recs != [] {
      var prefix := recs[..|recs| - 1];
      var last := recs[|recs| - 1];
      var before := Reduce(cfg, engine, m, prefix);
      if Accepted(cfg, engine, last) && last.fileId == k && k in before {
        ReduceMergesReasons(cfg, engine, m, prefix, k);
        MergeStep(cfg, engine, before, last, ReasonsOf(cfg, engine, m, prefix, k));
        assert Reduce(cfg, engine, m, recs)[k] == Dedup(cfg, engine, before, last)[k];
        assert ReasonsOf(cfg, engine, m, recs, k) == Union(last.reason, ReasonsOf(cfg, engine, m, prefix, k));
      } else if Accepted(cfg, engine, last) && last.fileId == k {
        ReduceAbsent(cfg, engine, m, prefix, k);
        OrZero(last.reason);
        assert Reduce(cfg, engine, m, recs)[k].reason == ReasonsOf(cfg, engine, m, recs, k);
      } else {
        ReduceMergesReasons(cfg, engine, m, prefix, k);
        assert Reduce(cfg, engine, m, recs)[k].reason == ReasonsOf(cfg, engine, m, recs, k);
      }
    } else {
      assert Reduce(cfg, engine, m, recs)[k].reason == ReasonsOf(cfg, engine, m, recs, k);
    }
  }

  /** The merge-all step for a record whose identifier was already stored. */
  lemma MergeStep(cfg: ReportCfg, engine: FsFilter.RegexEngine, before: map<u64, JournalRecord>,
                  last: JournalRecord, rest: bv32)
    requires cfg.reasonMergeAll && Accepted(cfg, engine, last)
    requires last.fileId in before && before[last.fileId].reason == rest
    ensures Dedup(cfg, engine, before, last)[last.fileId].reason == Union(last.reason, rest)
  {
  }

  /**
   * The stored record for an identifier is the last accepted record that
   * carries it; in keep-last mode entirely, in merge-all mode except for
   * the reason.
   */
  lemma {:induction false} ReduceKeepsLast(cfg: ReportCfg, engine: FsFilter.RegexEngine, m: map<u64, JournalRecord>,
                                           recs: seq<JournalRecord>, j: nat)
    requires j < |recs| && Accepted(cfg, engine, recs[j])
    requires forall i :: j < i < |recs| && Accepted(cfg, engine, recs[i]) ==> recs[i].fileId != recs[j].fileId
    ensures var stored := Reduce(cfg, engine, m, recs);
      recs[j].fileId in stored
      && stored[recs[j].fileId] == (if cfg.reasonMergeAll then recs[j].(reason := stored[recs[j].fileId].reason) else recs[j])
    decreases |recs|
  {
    var prefix := recs[..|recs| - 1];
    if j < |prefix| {
      forall i | j < i < |prefix| && Accepted(cfg, engine, prefix[i])
        ensures prefix[i].fileId != prefix[j].fileId
      {
        assert prefix[i] == recs[i];
      }
      ReduceKeepsLast(cfg, engine, m, prefix, j);
      assert prefix[j] == recs[j];
    }
  }

  /** The summary lists each stored record once, in strictly ascending identifier order. */
  lemma SummaryAscending(m: map<u64, JournalRecord>)
    requires Keyed(m)
    ensures |Summary(m)| == |m|
    ensures forall i, j :: 0 <= i < j < |Summary(m)| ==> Summary(m)[i].fileId < Summary(m)[j].fileId
    ensures forall r :: r in Summary(m) <==> exists k :: k in m && m[k] == r
  {
    AscendingSpec(m.Keys);
    var keys := Ascending(m.Keys);
    var s := Summary(m);
    assert |s| == |keys| == |m.Keys| == |m|;
    forall r | r in s
      ensures exists k :: k in m && m[k] == r
    {
      var i :| 0 <= i < |s| && s[i] == r;
      assert keys[i] in m && m[keys[i]] == r;
    }
    forall r | exists k :: k in m && m[k] == r
      ensures r in s
    {
      var k :| k in m && m[k] == r;
      assert k in keys;
      var i :| 0 <= i < |keys| && keys[i] == k;
      assert s[i] == r;
    }
  }

  /**
   * Three accepted records, two for file 1 and then one for file 2, leave
   * two entries; the summary prints file 1's newest record (its reason the
   * union of both in merge-all mode), then file 2's.
   */
  lemma ThreeRecordSummary(cfg: ReportCfg, engine: FsFilter.RegexEngine, a: JournalRecord, b: JournalRecord, c: JournalRecord)
    requires a.fileId == 1 && b.fileId == 1 && c.fileId == 2
    requires Accepted(cfg, engine, a) && Accepted(cfg, engine, b) && Accepted(cfg, engine, c)
    ensures Summary(Reduce(cfg, engine, map[], [a, b, c]))
         == [if cfg.reasonMergeAll then b.(reason := Union(b.reason, a.reason)) else b, c]
  {
    ThreeRecordReduce(cfg, engine, a, b, c);
    SummaryOfTwo(if cfg.reasonMergeAll then b.(reason := Union(b.reason, a.reason)) else b, c);
  }

  /** A map holding files 1 and 2 is replayed as file 1's record, then file 2's. */
  lemma SummaryOfTwo(x: JournalRecord, y: JournalRecord)
    ensures Summary(map[1 := x, 2 := y]) == [x, y]
  {
    OneTwoAscending();
    var m: map<u64, JournalRecord> := map[1 := x, 2 := y];
    assert m.Keys == {1, 2};
    assert ValuesAt(m, [1, 2]) == ValuesAt(m, [1]) + [y];
  }

  lemma ThreeRecordReduce(cfg: ReportCfg, engine: FsFilter.RegexEngine, a: JournalRecord, b: JournalRecord, c: JournalRecord)
    requires a.fileId == 1 && b.fileId == 1 && c.fileId == 2
    requires Accepted(cfg, engine, a) && Accepted(cfg, engine, b) && Accepted(cfg, engine, c)
    ensures Reduce(cfg, engine, map[], [a, b, c])
         == map[1 := if cfg.reasonMergeAll then b.(reason := Union(b.reason, a.reason)) else b, 2 := c]
  {
    var m0: map<u64, JournalRecord> := map[];
    ReduceSnoc(cfg, engine, m0, [], a);
    ReduceSnoc(cfg, engine, m0, [a], b);
    ReduceSnoc(cfg, engine, m0, [a, b], c);
    assert [] + [a] == [a] && [a] + [b] == [a, b] && [a, b] + [c] == [a, b, c];
    AbsorbThree(cfg.reasonMergeAll, a, b, c);
  }

  lemma ReduceSnoc(cfg: ReportCfg, engine: FsFilter.RegexEngine, m: map<u64, JournalRecord>,
                   recs: seq<JournalRecord>, rec: JournalRecord)
    ensures Reduce(cfg, engine, m, recs + [rec]) == Dedup(cfg, engine, Reduce(cfg, engine, m, recs), rec)
  {
    assert (recs + [rec])[..|recs|] == recs;
  }

  lemma AbsorbThree(mergeAll: bool, a: JournalRecord, b: JournalRecord, c: JournalRecord)
    requires a.fileId == 1 && b.fileId == 1 && c.fileId == 2
    ensures var m0: map<u64, JournalRecord> := map[];
      Absorb(Absorb(Absorb(m0, a, mergeAll), b, mergeAll), c, mergeAll)
      == map[1 := if mergeAll then b.(reason := Union(b.reason, a.reason)) else b, 2 := c]
  {
    var m0: map<u64, JournalRecord> := map[];
    AbsorbFresh(m0, a, mergeAll);
    AbsorbOver(a, b, mergeAll);
    var first := if mergeAll then b.(reason := Union(b.reason, a.reason)) else b;
    AbsorbFresh(map[1 := first], c, mergeAll);
    assert map[1 := first][2 := c] == map[1 := first, 2 := c];
  }

  /** A record whose identifier is new is stored as it is. */
  lemma AbsorbFresh(m: map<u64, JournalRecord>, rec: JournalRecord, mergeAll: bool)
    requires rec.fileId !in m
    ensures Absorb(m, rec, mergeAll) == m[rec.fileId := rec]
  {
  }

  /** A second record for an identifier replaces the first, merging the reasons in merge-all mode. */
  lemma AbsorbOver(a: JournalRecord, b: JournalRecord, mergeAll: bool)
    requires a.fileId == b.fileId
    ensures Absorb(map[a.fileId := a], b, mergeAll)
         == map[a.fileId := if mergeAll then b.(reason := Union(b.reason, a.reason)) else b]
  {
    var x := Stored(map[a.fileId := a], b, mergeAll);
    assert map[a.fileId := a][b.fileId := x] == map[a.fileId := x];
  }

  /** std::map order on two keys. */
  lemma OneTwoAscending()
    ensures Ascending({1, 2}) == [1, 2]
  {
    assert IsMin(1, {1, 2});
    AscendingFirst({1, 2}, 1);
    assert {1, 2} - {1} == {2};
    assert IsMin(2, {2});
    AscendingFirst({2}, 2);
    assert {2} - {2} == {};
  }

  // ---------------------------------------------------------------------------
  // Properties of the column report.

  /** With a slash past the first character, the name column is the text after the last slash. */
  lemma ShortNameDropsDirectory(filename: string, slash: char)
    requires |filename| > 1 && slash in filename[1..]
    ensures ShortName(filename, slash) == Formatter.FilePart(filename, slash)
    ensures slash !in ShortName(filename, slash)
  {
    var i :| 0 <= i < |filename[1..]| && filename[1..][i] == slash;
    assert filename[i + 1] == slash;
    Formatter.PathSplit(filename, slash);
  }

  /** A name whose only slash is its first character is printed whole, slash included. */
  lemma ShortNameKeepsRootSlash(filename: string, slash: char)
    requires |filename| > 0 && filename[0] == slash && slash !in filename[1..]
    ensures ShortName(filename, slash) == filename
  {
  }
}
