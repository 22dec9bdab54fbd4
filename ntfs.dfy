/**
 * The change-journal reader of one NTFS volume: the journal query, the page
 * walk over FSCTL_READ_USN_JOURNAL output, the naming of each record and the
 * identifier-to-path resolver with its memo cache.
 *
 * The volume is given as values: the journal query's answer, the sequence of
 * pages the device returns for successive reads (a read after the last one
 * fails) and a lookup oracle that answers, for a file identifier, what
 * NtCreateFile and GetFileInformationByHandleEx would return. A counter
 * records how many lookups were made.
 */
module Ntfs {
  import opened Win32Types
  import opened NtfsTypes

  /** The separator between a directory path and a name. */
  const SlashStr: string := "\\"
  /** The page starts with the next USN, an 8-byte value. */
  const SizeOfUsn: nat := 8
  /** The highest USN_RECORD version the reader asks for. */
  const MaxMajorVersion: nat := 2

  // ---------------------------------------------------------------------------
  // The volume as values.

  /** USN_JOURNAL_DATA: the fields the reader uses. */
  datatype JournalData = JournalData(usnJournalId: u64, firstUsn: i64)

  /** The READ_USN_JOURNAL_DATA request of one read. */
  datatype ReadRequest = ReadRequest(startUsn: i64, reasonMask: bv32, usnJournalId: u64, maxMajorVersion: nat)

  /** One USN_RECORD_V2 header, decoded, with the name it points at. */
  datatype UsnRecord = UsnRecord(
    recordLength: u32,
    fileRef: u64,
    parentRef: u64,
    usn: i64,
    timeStamp: i64,
    reason: bv32,
    fileAttributes: bv32,
    fileName: string)

  /**
   * One answer of the device: whether the call succeeded, the byte count, the
   * next USN in the first 8 bytes, and the records laid out from byte 8 on.
   */
  datatype Page = Page(ok: bool, bytesRead: u32, nextUsn: i64, records: seq<UsnRecord>)

  /** What the lookup oracle answers for one identifier. */
  datatype FileLookup = FileLookup(openStatus: bv32, name: Option<string>, standardInfo: Option<i64>)

  type FileSystem = u64 -> FileLookup

  /** A cache entry: the resolved path and the size that was stored with it. */
  datatype InfoCache = InfoCache(filePath: string, allocatedSize: i64)

  /** The resolver's state: the cache and the number of lookups made so far. */
  datatype Resolver = Resolver(cache: map<u64, InfoCache>, lookups: nat)

  /** A read that ends the walk: the call failed or returned no more than the next USN. */
  predicate ReadFails(p: Page)
  {
    !p.ok || p.bytesRead <= SizeOfUsn
  }

  /**
   * Records are laid out from `off` on: every record that starts below
   * `bytesRead` is present and has a non-zero length.
   */
  predicate Covers(records: seq<UsnRecord>, off: int, bytesRead: int)
    decreases |records|
  {
    off >= bytesRead
    || (records != [] && records[0].recordLength > 0
        && Covers(records[1..], off + records[0].recordLength, bytesRead))
  }

  /** The name fits the MAX_PATH copy buffer with its terminator and holds no NUL. */
  predicate ValidName(name: string)
  {
    |name| < MaxPath && forall i :: 0 <= i < |name| ==> name[i] != '\0'
  }

  predicate WellFormed(p: Page)
  {
    Covers(p.records, SizeOfUsn, p.bytesRead)
    && forall i :: 0 <= i < |p.records| ==> ValidName(p.records[i].fileName)
  }

  /** A page the device can return: every record start below bytesRead is present. */
  type ValidPage = p: Page | WellFormed(p) witness Page(false, 0, 0, [])

  /** Byte offset of the `i`-th record when the first starts at `off`. */
  function Offset(records: seq<UsnRecord>, off: int, i: nat): int
    requires i <= |records|
    decreases i
  {
    if i == 0 then off else Offset(records[1..], off + records[0].recordLength, i - 1)
  }

  // ---------------------------------------------------------------------------
  // GetInfo flags.

  predicate Caches(getInfo: bv8)
  {
    getInfo & CacheIt != 0
  }

  predicate WantsLength(getInfo: bv8)
  {
    getInfo & GetLength != 0
  }

  // ---------------------------------------------------------------------------
  // Specification of the resolver, the naming and the walk.

  datatype InfoResult = InfoResult(ok: bool, fullPath: string, allocatedSize: i64, after: Resolver)

  /**
   * GetFileInfo: a cache hit (only looked for under eCacheIt) answers from the
   * cache; otherwise one lookup is made, and on success its path and, under
   * eGetLength, its size are returned and, under eCacheIt, stored.
   * `fullPath` is what the caller's string held before the call.
   */
  function FileInfo(fs: FileSystem, res: Resolver, fileId: u64, getInfo: bv8, fullPath: string): InfoResult
  {
    if Caches(getInfo) && fileId in res.cache then
      InfoResult(true, res.cache[fileId].filePath, res.cache[fileId].allocatedSize, res)
    else
      var l := fs(fileId);
      if NtError(l.openStatus) || l.name.None? then
        InfoResult(false, fullPath, 0, Resolver(res.cache, res.lookups + 1))
      else
        var size := if WantsLength(getInfo) && l.standardInfo.Some? then l.standardInfo.value else 0;
        var cache := if Caches(getInfo) then res.cache[fileId := InfoCache(l.name.value, size)] else res.cache;
        InfoResult(true, l.name.value, size, Resolver(cache, res.lookups + 1))
  }

  datatype Named = Named(rec: JournalRecord, after: Resolver)

  /** The flag a leaf-file lookup passes. */
  function LeafFlag(getFileLength: bool): bv8
  {
    if getFileLength then GetLength else GetPath
  }

  /** The path part of a record's name, before a directory's trailing separator. */
  function BaseName(fs: FileSystem, res: Resolver, u: UsnRecord, getFileLength: bool, getFullPath: bool): (InfoResult, string)
  {
    if !(getFullPath || getFileLength) then
      (InfoResult(false, "", 0, res), u.fileName)
    else if IsDirectory(u.fileAttributes) then
      var r := FileInfo(fs, res, u.parentRef, CacheIt, "");
      (InfoResult(r.ok, r.fullPath, 0, r.after), if r.ok then r.fullPath + SlashStr + u.fileName else u.fileName)
    else
      var r := FileInfo(fs, res, u.fileRef, LeafFlag(getFileLength), "");
      (r, if r.ok then r.fullPath else u.fileName)
  }

  /** The record ReadJournal builds from one header. */
  function NameRecord(fs: FileSystem, res: Resolver, u: UsnRecord, getFileLength: bool, getFullPath: bool): Named
  {
    var (r, base) := BaseName(fs, res, u, getFileLength, getFullPath);
    var name := if IsDirectory(u.fileAttributes) then base + SlashStr else base;
    Named(JournalRecord(u.usn, u.reason, u.fileRef, u.timeStamp, r.allocatedSize, u.fileAttributes, name), r.after)
  }

  /**
   * How a walk names one header: the record built from it and the resolver
   * after the lookups made for it.
   */
  type Namer = (Resolver, UsnRecord) -> Named

  /** The naming ReadJournal performs, for the given lookup oracle and flags. */
  function Naming(fs: FileSystem, getFileLength: bool, getFullPath: bool): (name: Namer)
    ensures forall res, u :: name(res, u) == NameRecord(fs, res, u, getFileLength, getFullPath)
  {
    (res: Resolver, u: UsnRecord) => NameRecord(fs, res, u, getFileLength, getFullPath)
  }

  /**
   * `name` names every header as NameRecord does. The readers below take the
   * naming as a ghost parameter under this condition, so that their loops
   * reason about the walk without unfolding the naming itself.
   */
  ghost predicate NamesAs(name: Namer, fs: FileSystem, getFileLength: bool, getFullPath: bool)
  {
    forall res, u {:trigger NameRecord(fs, res, u, getFileLength, getFullPath)} ::
      name(res, u) == NameRecord(fs, res, u, getFileLength, getFullPath)
  }

  datatype Walked = Walked(delivered: seq<JournalRecord>, after: Resolver)

  /** The records of one page that the walk visits, named in buffer order. */
  function Walk(name: Namer, res: Resolver, records: seq<UsnRecord>, off: int, bytesRead: int): Walked
    decreases |records|
  {
    if off >= bytesRead || records == [] then Walked([], res)
    else
      var n := name(res, records[0]);
      var rest := Walk(name, n.after, records[1..], off + records[0].recordLength, bytesRead);
      Walked([n.rec] + rest.delivered, rest.after)
  }

  /** The outcome of one ReadJournal call. */
  datatype Step = Step(more: bool, cursor: i64, delivered: seq<JournalRecord>, after: Resolver, rest: seq<Page>)

  /**
   * One read at `cursor`: a failed read (or an exhausted device) keeps the
   * cursor and delivers nothing; a successful one moves the cursor to the
   * page's next USN and walks the page.
   */
  function ReadOnce(name: Namer, res: Resolver, pages: seq<Page>, cursor: i64): Step
  {
    if pages == [] then Step(false, cursor, [], res, [])
    else if ReadFails(pages[0]) then Step(false, cursor, [], res, pages[1..])
    else
      var w := Walk(name, res, pages[0].records, SizeOfUsn, pages[0].bytesRead);
      Step(true, pages[0].nextUsn, w.delivered, w.after, pages[1..])
  }

  datatype Pass = Pass(delivered: seq<JournalRecord>, after: Resolver, cursor: i64, requests: seq<ReadRequest>, rest: seq<Page>)

  /** Reading pages from `cursor` on until a read fails. */
  function ReadAll(name: Namer, res: Resolver, pages: seq<Page>, cursor: i64, filter: bv32, journalId: u64): Pass
    decreases |pages|
  {
    var request := ReadRequest(cursor, filter, journalId, MaxMajorVersion);
    var s := ReadOnce(name, res, pages, cursor);
    if !s.more then Pass([], res, cursor, [request], s.rest)
    else
      var p := ReadAll(name, s.after, s.rest, s.cursor, filter, journalId);
      Pass(s.delivered + p.delivered, p.after, p.cursor, [request] + p.requests, p.rest)
  }

  /** The reason mask GetJournal installs. */
  function EffectiveFilter(filter: bv32): bv32
  {
    if filter == 0 then DefaultFilter else filter
  }

  /** The USN GetJournal starts reading at. */
  function StartCursor(startUsn: i64, journal: JournalData): i64
  {
    if startUsn == 0 then journal.firstUsn else startUsn
  }

  /** A record starting below bytesRead is present and has a length. */
  lemma CoversStep(records: seq<UsnRecord>, off: int, bytesRead: int)
    requires Covers(records, off, bytesRead) && off < bytesRead
    ensures records != [] && records[0].recordLength > 0
    ensures Covers(records[1..], off + records[0].recordLength, bytesRead)
  {
  }

  /** The walk invariant carried over one record. */
  lemma WalkAccumulate(whole: Walked, delivered: seq<JournalRecord>, name: Namer, res: Resolver,
                       records: seq<UsnRecord>, idx: nat, off: int, bytesRead: int)
    requires idx <= |records| && off < bytesRead && Covers(records[idx..], off, bytesRead)
    requires var w := Walk(name, res, records[idx..], off, bytesRead);
      whole == Walked(delivered + w.delivered, w.after)
    ensures idx < |records| && records[idx].recordLength > 0
    ensures Covers(records[idx + 1..], off + records[idx].recordLength, bytesRead)
    ensures var n := name(res, records[idx]);
      var w := Walk(name, n.after, records[idx + 1..], off + records[idx].recordLength, bytesRead);
      whole == Walked((delivered + [n.rec]) + w.delivered, w.after)
  {
    CoversStep(records[idx..], off, bytesRead);
    assert records[idx..][1..] == records[idx + 1..];
    var n := name(res, records[idx]);
    var w := Walk(name, n.after, records[idx + 1..], off + records[idx].recordLength, bytesRead);
    assert (delivered + [n.rec]) + w.delivered == delivered + ([n.rec] + w.delivered);
  }

  /** A pass that has delivered `delivered` and issued `issued`, then continues as `p`. */
  function Glue(delivered: seq<JournalRecord>, issued: seq<ReadRequest>, p: Pass): Pass
  {
    Pass(delivered + p.delivered, p.after, p.cursor, issued + p.requests, p.rest)
  }

  /**
   * The pass invariant carried over a read that succeeds, stated with the
   * state the read leaves behind (`res1`, `pages1`, `cursor1`, `recs`).
   */
  lemma PassContinues(whole: Pass, delivered: seq<JournalRecord>, issued: seq<ReadRequest>,
                      name: Namer, res: Resolver, pages: seq<Page>, cursor: i64, filter: bv32, journalId: u64,
                      res1: Resolver, pages1: seq<Page>, cursor1: i64, recs: seq<JournalRecord>)
    requires ReadOnce(name, res, pages, cursor) == Step(true, cursor1, recs, res1, pages1)
    requires whole == Glue(delivered, issued, ReadAll(name, res, pages, cursor, filter, journalId))
    ensures |pages1| < |pages|
    ensures whole == Glue(delivered + recs, issued + [ReadRequest(cursor, filter, journalId, MaxMajorVersion)],
                          ReadAll(name, res1, pages1, cursor1, filter, journalId))
  {
    var request := ReadRequest(cursor, filter, journalId, MaxMajorVersion);
    var p := ReadAll(name, res1, pages1, cursor1, filter, journalId);
    assert (delivered + recs) + p.delivered == delivered + (recs + p.delivered);
    assert (issued + [request]) + p.requests == issued + ([request] + p.requests);
  }

  /** The pass invariant at a read that fails: the pass ends here. */
  lemma PassStops(whole: Pass, delivered: seq<JournalRecord>, issued: seq<ReadRequest>,
                  name: Namer, res: Resolver, pages: seq<Page>, cursor: i64, filter: bv32, journalId: u64,
                  res1: Resolver, pages1: seq<Page>, cursor1: i64, recs: seq<JournalRecord>)
    requires ReadOnce(name, res, pages, cursor) == Step(false, cursor1, recs, res1, pages1)
    requires whole == Glue(delivered, issued, ReadAll(name, res, pages, cursor, filter, journalId))
    ensures whole == Pass(delivered, res1, cursor1, issued + [ReadRequest(cursor, filter, journalId, MaxMajorVersion)], pages1)
  {
    assert delivered + [] == delivered;
  }

  // ---------------------------------------------------------------------------
  // The reader.

  class Ntfs {
    var drive: char
    var nextUsn: i64
    var filter: bv32
    var res: Resolver
    /** The open volume: lookup oracle, journal query answer and pending pages. */
    var fs: FileSystem
    var journal: Option<JournalData>
    var device: seq<ValidPage>
    /** Every read request issued, in order. */
    var requests: seq<ReadRequest>

    constructor(fs: FileSystem)
      ensures drive == 'c' && nextUsn == 0 && filter == DefaultFilter
      ensures res == Resolver(map[], 0) && this.fs == fs
      ensures journal == None && device == [] && requests == []
    {
      drive := 'c';
      nextUsn := 0;
      filter := DefaultFilter;
      res := Resolver(map[], 0);
      this.fs := fs;
      journal := None;
      device := [];
      requests := [];
    }

    /**
     * OpenDrive: remembers the letter and empties the cache, then opens the
     * volume (`volume` is None when CreateFile fails; every later query fails).
     */
    method OpenDrive(driveLetter: char, volume: Option<(FileSystem, Option<JournalData>, seq<ValidPage>)>) returns (ok: bool)
      modifies this
      ensures ok <==> volume.Some?
      ensures drive == driveLetter && res == Resolver(map[], old(res.lookups))
      ensures volume.Some? ==> fs == volume.value.0 && journal == volume.value.1 && device == volume.value.2
      ensures volume.None? ==> fs == old(fs) && journal == None && device == []
      ensures nextUsn == old(nextUsn) && filter == old(filter) && requests == old(requests)
    {
      drive := driveLetter;
      res := Resolver(map[], res.lookups);
      if volume.Some? {
        fs := volume.value.0;
        journal := volume.value.1;
        device := volume.value.2;
        ok := true;
      } else {
        journal := None;
        device := [];
        ok := false;
      }
    }

    /** HasJournal: the journal query succeeds on the open volume. */
    method HasJournal() returns (has: bool)
      ensures has <==> journal.Some?
    {
      has := journal.Some?;
    }

    method SetFilter(filter: bv32 := DefaultFilter)
      modifies this
      ensures this.filter == filter
      ensures drive == old(drive) && nextUsn == old(nextUsn) && res == old(res)
      ensures fs == old(fs) && journal == old(journal) && device == old(device) && requests == old(requests)
    {
      this.filter := filter;
    }

    /** GetFileInfo: the resolver with its memo cache. */
    method GetFileInfo(fileId: u64, getInfo: bv8, fullPath: string) returns (ok: bool, path: string, allocatedSize: i64)
      modifies this
      ensures var r := FileInfo(fs, old(res), fileId, getInfo, fullPath);
        ok == r.ok && path == r.fullPath && allocatedSize == r.allocatedSize && res == r.after
      ensures drive == old(drive) && nextUsn == old(nextUsn) && filter == old(filter)
      ensures fs == old(fs) && journal == old(journal) && device == old(device) && requests == old(requests)
    {
      if Caches(getInfo) && fileId in res.cache {
        var entry := res.cache[fileId];
        return true, entry.filePath, entry.allocatedSize;
      }
      allocatedSize := 0;
      path := fullPath;
      var l := fs(fileId);
      res := Resolver(res.cache, res.lookups + 1);
      if NtError(l.openStatus) {
        return false, path, allocatedSize;
      }
      if l.name.None? {
        return false, path, allocatedSize;
      }
      path := l.name.value;
      if WantsLength(getInfo) && l.standardInfo.Some? {
        allocatedSize := l.standardInfo.value;
      }
      if Caches(getInfo) {
        res := Resolver(res.cache[fileId := InfoCache(path, allocatedSize)], res.lookups);
      }
      ok := true;
    }

    /** GetDirInfo: a cached lookup that discards the size. */
    method GetDirInfo(dirRef: u64, fullPath: string) returns (ok: bool, path: string)
      modifies this
      ensures var r := FileInfo(fs, old(res), dirRef, CacheIt, fullPath);
        ok == r.ok && path == r.fullPath && res == r.after
      ensures drive == old(drive) && nextUsn == old(nextUsn) && filter == old(filter)
      ensures fs == old(fs) && journal == old(journal) && device == old(device) && requests == old(requests)
    {
      var dummy;
      ok, path, dummy := GetFileInfo(dirRef, CacheIt, fullPath);
    }

    /** The two-argument GetFileInfo: asks for the size, never caches. */
    method GetFileInfoWithLength(fileRef: u64, fullPath: string) returns (ok: bool, path: string, allocatedSize: i64)
      modifies this
      ensures var r := FileInfo(fs, old(res), fileRef, GetLength, fullPath);
        ok == r.ok && path == r.fullPath && allocatedSize == r.allocatedSize && res == r.after
      ensures drive == old(drive) && nextUsn == old(nextUsn) && filter == old(filter)
      ensures fs == old(fs) && journal == old(journal) && device == old(device) && requests == old(requests)
    {
      ok, path, allocatedSize := GetFileInfo(fileRef, GetLength, fullPath);
    }

    /** Builds the record for one header, resolving its name as requested. */
    method BuildRecord(u: UsnRecord, getInfo: bv8, getFileLength: bool, getFullPath: bool) returns (record: JournalRecord)
      requires getInfo == LeafFlag(getFileLength)
      modifies this
      ensures var n := NameRecord(fs, old(res), u, getFileLength, getFullPath); record == n.rec && res == n.after
      ensures drive == old(drive) && nextUsn == old(nextUsn) && filter == old(filter)
      ensures fs == old(fs) && journal == old(journal) && device == old(device) && requests == old(requests)
    {
      var szFile := u.fileName;
      var filename := "";
      var length: i64 := 0;
      if getFullPath || getFileLength {
        if IsDirectory(u.fileAttributes) {
          var ok;
          ok, filename := GetDirInfo(u.parentRef, filename);
          if ok {
            filename := filename + SlashStr + szFile;
            length := 0;
          } else {
            filename := szFile;
          }
        } else {
          var ok;
          ok, filename, length := GetFileInfo(u.fileRef, getInfo, filename);
          if !ok {
            filename := szFile;
          }
        }
      } else {
        filename := szFile;
      }
      if AttrDirectory & u.fileAttributes != 0 {
        filename := filename + SlashStr;
      }
      record := JournalRecord(u.usn, u.reason, u.fileRef, u.timeStamp, length, u.fileAttributes, filename);
    }

    /**
     * ReadJournal: issues one read at the cursor; on success moves the cursor
     * to the USN the page starts with and delivers the page's records in
     * buffer order (to the list and to the callback, whichever the caller gave).
     */
    method ReadJournal(journalId: u64, getFileLength: bool, getFullPath: bool, ghost name: Namer)
      returns (more: bool, delivered: seq<JournalRecord>)
      requires NamesAs(name, fs, getFileLength, getFullPath)
      modifies this
      ensures requests == old(requests) + [ReadRequest(old(nextUsn), filter, journalId, MaxMajorVersion)]
      ensures ReadOnce(name, old(res), old(device), old(nextUsn)) == Step(more, nextUsn, delivered, res, device)
      ensures drive == old(drive) && filter == old(filter) && fs == old(fs) && journal == old(journal)
    {
      var request := ReadRequest(nextUsn, filter, journalId, MaxMajorVersion);
      more, delivered := false, [];
      if device != [] {
        var page := device[0];
        device := device[1..];
        if !ReadFails(page) {
          nextUsn := page.nextUsn;
          delivered := WalkPage(page, getFileLength, getFullPath, name);
          more := true;
        }
      }
      requests := requests + [request];
    }

    /** The walk over one page: from byte 8, record by record, while the start is below bytesRead. */
    method WalkPage(page: Page, getFileLength: bool, getFullPath: bool, ghost name: Namer) returns (delivered: seq<JournalRecord>)
      requires WellFormed(page) && NamesAs(name, fs, getFileLength, getFullPath)
      modifies this
      ensures var w := Walk(name, old(res), page.records, SizeOfUsn, page.bytesRead);
        delivered == w.delivered && res == w.after
      ensures drive == old(drive) && nextUsn == old(nextUsn) && filter == old(filter)
      ensures fs == old(fs) && journal == old(journal) && device == old(device) && requests == old(requests)
    {
      var getInfo := LeafFlag(getFileLength);
      ghost var whole := Walk(name, res, page.records, SizeOfUsn, page.bytesRead);
      var off: int := SizeOfUsn;
      var idx := 0;
      delivered := [];
      while off < page.bytesRead
        invariant 0 <= idx <= |page.records|
        invariant Covers(page.records[idx..], off, page.bytesRead)
        invariant fs == old(fs) && journal == old(journal) && device == old(device) && requests == old(requests)
        invariant drive == old(drive) && nextUsn == old(nextUsn) && filter == old(filter)
        invariant var w := Walk(name, res, page.records[idx..], off, page.bytesRead);
          whole == Walked(delivered + w.delivered, w.after)
        decreases |page.records| - idx
      {
        WalkAccumulate(whole, delivered, name, res, page.records, idx, off, page.bytesRead);
        var u := page.records[idx];
        var record := BuildRecord(u, getInfo, getFileLength, getFullPath);
        delivered := delivered + [record];
        off := off + u.recordLength;
        idx := idx + 1;
      }
    }

    /** The read loop of GetJournal: reads until ReadJournal returns false. */
    method ReadPages(journalId: u64, getFileLength: bool, getFullPath: bool, ghost name: Namer)
      returns (delivered: seq<JournalRecord>)
      requires NamesAs(name, fs, getFileLength, getFullPath)
      modifies this
      ensures var p := ReadAll(name, old(res), old(device), old(nextUsn), filter, journalId);
        delivered == p.delivered && res == p.after && nextUsn == p.cursor
        && requests == old(requests) + p.requests && device == p.rest
      ensures drive == old(drive) && filter == old(filter) && fs == old(fs) && journal == old(journal)
    {
      ghost var whole := ReadAll(name, res, device, nextUsn, filter, journalId);
      ghost var issued: seq<ReadRequest> := [];
      delivered := [];
      while true
        invariant drive == old(drive) && filter == old(filter) && fs == old(fs) && journal == old(journal)
        invariant requests == old(requests) + issued
        invariant whole == Glue(delivered, issued, ReadAll(name, res, device, nextUsn, filter, journalId))
        decreases |device|
      {
        ghost var pages := device;
        ghost var cursor := nextUsn;
        ghost var res0 := res;
        var more, recs := ReadJournal(journalId, getFileLength, getFullPath, name);
        if !more {
          PassStops(whole, delivered, issued, name, res0, pages, cursor, filter, journalId, res, device, nextUsn, recs);
          issued := issued + [ReadRequest(cursor, filter, journalId, MaxMajorVersion)];
          return;
        }
        PassContinues(whole, delivered, issued, name, res0, pages, cursor, filter, journalId, res, device, nextUsn, recs);
        delivered := delivered + recs;
        issued := issued + [ReadRequest(cursor, filter, journalId, MaxMajorVersion)];
      }
    }

    /**
     * GetJournal (list overload): fails only when the journal query fails;
     * otherwise installs the filter, places the cursor and appends every record
     * read to the list.
     */
    method GetJournal(list: seq<JournalRecord>, startUsn: i64 := 0, filter: bv32 := 0,
                      getFileLength: bool := false, getFullPath: bool := true)
      returns (ok: bool, listOut: seq<JournalRecord>)
      modifies this
      ensures ok <==> old(journal).Some?
      ensures !ok ==> (listOut == list && res == old(res) && nextUsn == old(nextUsn) && this.filter == old(this.filter)
                       && device == old(device) && requests == old(requests))
      ensures ok ==> this.filter == EffectiveFilter(filter)
      ensures ok ==>
        var p := ReadAll(Naming(fs, getFileLength, getFullPath), old(res), old(device),
                         StartCursor(startUsn, old(journal).value), EffectiveFilter(filter), old(journal).value.usnJournalId);
        listOut == list + p.delivered && res == p.after && nextUsn == p.cursor
        && requests == old(requests) + p.requests && device == p.rest
      ensures drive == old(drive) && fs == old(fs) && journal == old(journal)
    {
      if journal.None? {
        return false, list;
      }
      SetFilter(if filter == 0 then DefaultFilter else filter);
      nextUsn := if startUsn == 0 then journal.value.firstUsn else startUsn;
      var recs := ReadPages(journal.value.usnJournalId, getFileLength, getFullPath, Naming(fs, getFileLength, getFullPath));
      return true, list + recs;
    }

    /**
     * GetJournal (callback overload): the same reads; `calls` lists the records
     * handed to the callback, in order.
     */
    method GetJournalCallback(startUsn: i64 := 0, filter: bv32 := 0,
                              getFileLength: bool := false, getFullPath: bool := true)
      returns (ok: bool, calls: seq<JournalRecord>)
      modifies this
      ensures ok <==> old(journal).Some?
      ensures !ok ==> (calls == [] && res == old(res) && nextUsn == old(nextUsn) && this.filter == old(this.filter)
                       && device == old(device) && requests == old(requests))
      ensures ok ==> this.filter == EffectiveFilter(filter)
      ensures ok ==>
        var p := ReadAll(Naming(fs, getFileLength, getFullPath), old(res), old(device),
                         StartCursor(startUsn, old(journal).value), EffectiveFilter(filter), old(journal).value.usnJournalId);
        calls == p.delivered && res == p.after && nextUsn == p.cursor
        && requests == old(requests) + p.requests && device == p.rest
      ensures drive == old(drive) && fs == old(fs) && journal == old(journal)
    {
      if journal.None? {
        return false, [];
      }
      SetFilter(if filter == 0 then DefaultFilter else filter);
      nextUsn := if startUsn == 0 then journal.value.firstUsn else startUsn;
      calls := ReadPages(journal.value.usnJournalId, getFileLength, getFullPath, Naming(fs, getFileLength, getFullPath));
      ok := true;
    }
  }

  // ---------------------------------------------------------------------------
  // Properties of the resolver.

  /** eGetPath = 0, eGetLength = 1, eCacheIt = 2: length and caching are independent bits. */
  lemma FlagBits()
    ensures !Caches(GetPath) && !WantsLength(GetPath)
    ensures WantsLength(GetLength) && !Caches(GetLength)
    ensures Caches(CacheIt) && !WantsLength(CacheIt)
    ensures Caches(GetLength | CacheIt) && WantsLength(GetLength | CacheIt)
  {
  }

  /** A cache hit answers from the cache, with true, and makes no lookup. */
  lemma CacheHit(fs: FileSystem, res: Resolver, fileId: u64, getInfo: bv8, fullPath: string)
    requires Caches(getInfo) && fileId in res.cache
    ensures var r := FileInfo(fs, res, fileId, getInfo, fullPath);
      r.ok && r.fullPath == res.cache[fileId].filePath && r.allocatedSize == res.cache[fileId].allocatedSize
      && r.after == res
  {
  }

  /** Without a hit exactly one lookup is made, and the answer is the oracle's. */
  lemma CacheMiss(fs: FileSystem, res: Resolver, fileId: u64, getInfo: bv8, fullPath: string)
    requires !(Caches(getInfo) && fileId in res.cache)
    ensures var r := FileInfo(fs, res, fileId, getInfo, fullPath);
      r.after.lookups == res.lookups + 1
      && (r.ok <==> !NtError(fs(fileId).openStatus) && fs(fileId).name.Some?)
      && (r.ok ==> r.fullPath == fs(fileId).name.value)
  {
  }

  /**
   * The cache changes only by storing a successful eCacheIt lookup under its
   * identifier; a failed lookup answers false, leaves the caller's path as it
   * was and reports size 0.
   */
  lemma CacheUpdate(fs: FileSystem, res: Resolver, fileId: u64, getInfo: bv8, fullPath: string)
    ensures var r := FileInfo(fs, res, fileId, getInfo, fullPath);
      r.after.cache == res.cache
      || (r.ok && Caches(getInfo) && r.after.cache == res.cache[fileId := InfoCache(r.fullPath, r.allocatedSize)])
    ensures var r := FileInfo(fs, res, fileId, getInfo, fullPath);
      !r.ok ==> r.fullPath == fullPath && r.allocatedSize == 0 && r.after.cache == res.cache
    ensures var r := FileInfo(fs, res, fileId, getInfo, fullPath);
      !Caches(getInfo) ==> r.after.cache == res.cache
  {
  }

  /** The size is 0 unless eGetLength was asked for (or a cached entry carried one). */
  lemma SizeNeedsLengthFlag(fs: FileSystem, res: Resolver, fileId: u64, getInfo: bv8, fullPath: string)
    requires !(Caches(getInfo) && fileId in res.cache)
    ensures var r := FileInfo(fs, res, fileId, getInfo, fullPath);
      r.allocatedSize != 0 ==> r.ok && WantsLength(getInfo) && r.allocatedSize == fs(fileId).standardInfo.value
  {
  }

  /** Memoisation: after a successful cached lookup the same identifier is answered from the cache. */
  lemma LookupThenHit(fs: FileSystem, res: Resolver, fileId: u64, g1: bv8, g2: bv8, p1: string, p2: string)
    requires Caches(g1) && Caches(g2)
    ensures var r1 := FileInfo(fs, res, fileId, g1, p1);
      r1.ok ==> FileInfo(fs, r1.after, fileId, g2, p2) == InfoResult(true, r1.fullPath, r1.allocatedSize, r1.after)
  {
  }

  /** GetDirInfo's lookup stores size 0 and the two-argument GetFileInfo never stores anything. */
  lemma WrapperFlags(fs: FileSystem, res: Resolver, fileId: u64, fullPath: string)
    ensures var r := FileInfo(fs, res, fileId, CacheIt, fullPath);
      fileId !in res.cache && r.ok ==> r.allocatedSize == 0 && r.after.cache == res.cache[fileId := InfoCache(r.fullPath, 0)]
    ensures FileInfo(fs, res, fileId, GetLength, fullPath).after.cache == res.cache
  {
  }

  // ---------------------------------------------------------------------------
  // Properties of the naming.

  /** The identifiers a directory record may add to the cache. */
  function ParentKeys(records: seq<UsnRecord>): set<u64>
  {
    set i | 0 <= i < |records| && IsDirectory(records[i].fileAttributes) :: records[i].parentRef
  }

  /**
   * With no resolution asked for the name is the bare record name; a directory
   * gets the resolved parent, a separator and the name, or the bare name when
   * the parent fails; a file gets its own resolved path, or the bare name.
   * A directory then gets exactly one trailing separator.
   */
  lemma NamingRules(fs: FileSystem, res: Resolver, u: UsnRecord, getFileLength: bool, getFullPath: bool)
    ensures var name := NameRecord(fs, res, u, getFileLength, getFullPath).rec.filename;
      var base := if IsDirectory(u.fileAttributes) then name[..|name| - 1] else name;
      (IsDirectory(u.fileAttributes) ==> |name| > 0 && name[|name| - 1] == '\\')
      && (!(getFullPath || getFileLength) ==> base == u.fileName)
      && (getFullPath || getFileLength ==>
            if IsDirectory(u.fileAttributes) then
              var r := FileInfo(fs, res, u.parentRef, CacheIt, "");
              base == if r.ok then r.fullPath + "\\" + u.fileName else u.fileName
            else
              var r := FileInfo(fs, res, u.fileRef, LeafFlag(getFileLength), "");
              base == if r.ok then r.fullPath else u.fileName)
  {
    var n := NameRecord(fs, res, u, getFileLength, getFullPath);
    var (r, b) := BaseName(fs, res, u, getFileLength, getFullPath);
    if IsDirectory(u.fileAttributes) {
      assert n.rec.filename == b + SlashStr;
      assert n.rec.filename[..|n.rec.filename| - 1] == b;
    }
  }

  /**
   * Leaf files never touch the cache, only a directory's parent lookup can add
   * an entry, no lookup is made when no resolution is asked for, and the
   * length stays 0 unless a file's size was read.
   */
  lemma NamingResolver(fs: FileSystem, res: Resolver, u: UsnRecord, getFileLength: bool, getFullPath: bool)
    ensures var n := NameRecord(fs, res, u, getFileLength, getFullPath);
      (!IsDirectory(u.fileAttributes) ==> n.after.cache == res.cache)
      && res.cache.Keys <= n.after.cache.Keys <= res.cache.Keys + {u.parentRef}
      && (!(getFullPath || getFileLength) ==> n.after == res)
      && n.after.lookups <= res.lookups + 1
      && (n.rec.length != 0 ==> !IsDirectory(u.fileAttributes) && getFileLength
                                && n.rec.length == fs(u.fileRef).standardInfo.value)
  {
    FlagBits();
  }

  /** The header fields are copied unchanged into the record. */
  lemma NamingCopiesFields(fs: FileSystem, res: Resolver, u: UsnRecord, getFileLength: bool, getFullPath: bool)
    ensures var rec := NameRecord(fs, res, u, getFileLength, getFullPath).rec;
      rec.usn == u.usn && rec.reason == u.reason && rec.fileId == u.fileRef
      && rec.timestamp == u.timeStamp && rec.fileAttr == u.fileAttributes
  {
  }

  // ---------------------------------------------------------------------------
  // Properties of the walk.

  /**
   * The walk delivers the page's records in buffer order: the `i`-th record
   * delivered is built from the `i`-th header.
   */
  lemma {:induction false} WalkInOrder(fs: FileSystem, res: Resolver, records: seq<UsnRecord>, off: int, bytesRead: int,
                                       getFileLength: bool, getFullPath: bool)
    ensures var w := Walk(Naming(fs, getFileLength, getFullPath), res, records, off, bytesRead);
      |w.delivered| <= |records|
      && forall i :: 0 <= i < |w.delivered| ==>
           w.delivered[i].usn == records[i].usn && w.delivered[i].fileId == records[i].fileRef
           && w.delivered[i].reason == records[i].reason && w.delivered[i].timestamp == records[i].timeStamp
           && w.delivered[i].fileAttr == records[i].fileAttributes
    decreases |records|
  {
    if off < bytesRead && records != [] {
      var n := NameRecord(fs, res, records[0], getFileLength, getFullPath);
      NamingCopiesFields(fs, res, records[0], getFileLength, getFullPath);
      WalkInOrder(fs, n.after, records[1..], off + records[0].recordLength, bytesRead, getFileLength, getFullPath);
      var rest := Walk(Naming(fs, getFileLength, getFullPath), n.after, records[1..], off + records[0].recordLength, bytesRead);
      var w := Walk(Naming(fs, getFileLength, getFullPath), res, records, off, bytesRead);
      assert w.delivered == [n.rec] + rest.delivered;
      forall i | 1 <= i < |w.delivered|
        ensures w.delivered[i] == rest.delivered[i - 1] && records[i] == records[1..][i - 1]
      {
      }
    }
  }

  /**
   * Every record the walk delivers starts below bytesRead, and the walk stops
   * at the first start at or beyond it.
   */
  lemma {:induction false} WalkStarts(name: Namer, res: Resolver, records: seq<UsnRecord>, off: int, bytesRead: int)
    requires Covers(records, off, bytesRead)
    ensures var k := |Walk(name, res, records, off, bytesRead).delivered|;
      k <= |records| && Offset(records, off, k) >= bytesRead
      && forall i :: 0 <= i < k ==> Offset(records, off, i) < bytesRead
    decreases |records|
  {
    if off < bytesRead {
      var n := name(res, records[0]);
      var next := off + records[0].recordLength;
      WalkStarts(name, n.after, records[1..], next, bytesRead);
      var k := |Walk(name, res, records, off, bytesRead).delivered|;
      assert k == 1 + |Walk(name, n.after, records[1..], next, bytesRead).delivered|;
      forall i | 1 <= i <= k
        ensures Offset(records, off, i) == Offset(records[1..], next, i - 1)
      {
      }
    }
  }

  /** Over a page, the cache only grows, and only by the parents of directory records. */
  lemma {:induction false} WalkCache(fs: FileSystem, res: Resolver, records: seq<UsnRecord>, off: int, bytesRead: int,
                                     getFileLength: bool, getFullPath: bool)
    ensures var w := Walk(Naming(fs, getFileLength, getFullPath), res, records, off, bytesRead);
      res.cache.Keys <= w.after.cache.Keys <= res.cache.Keys + ParentKeys(records)
      && res.lookups <= w.after.lookups <= res.lookups + |w.delivered|
    decreases |records|
  {
    if off < bytesRead && records != [] {
      var n := NameRecord(fs, res, records[0], getFileLength, getFullPath);
      NamingResolver(fs, res, records[0], getFileLength, getFullPath);
      WalkCache(fs, n.after, records[1..], off + records[0].recordLength, bytesRead, getFileLength, getFullPath);
      assert IsDirectory(records[0].fileAttributes) ==> records[0].parentRef in ParentKeys(records);
      assert ParentKeys(records[1..]) <= ParentKeys(records) by {
        forall k | k in ParentKeys(records[1..]) ensures k in ParentKeys(records) {
          var i :| 0 <= i < |records[1..]| && IsDirectory(records[1..][i].fileAttributes) && records[1..][i].parentRef == k;
          assert records[i + 1] == records[1..][i];
        }
      }
      if !IsDirectory(records[0].fileAttributes) {
        assert n.after.cache == res.cache;
      }
    }
  }

  // ---------------------------------------------------------------------------
  // Properties of the read loop.

  /**
   * GetJournal's reads: the first starts at the initial cursor, each next one
   * at the USN the previous page carried, every request carries the filter,
   * the journal identifier and version 2, and reading stops at the first read
   * that fails (or when the device has no more pages).
   */
  lemma {:induction false} ReadAllRequests(name: Namer, res: Resolver, pages: seq<Page>, cursor: i64, filter: bv32,
                                           journalId: u64)
    ensures var p := ReadAll(name, res, pages, cursor, filter, journalId);
      |p.requests| >= 1 && p.requests[0].startUsn == cursor
      && (forall i :: 0 <= i < |p.requests| ==>
            p.requests[i].reasonMask == filter && p.requests[i].usnJournalId == journalId
            && p.requests[i].maxMajorVersion == MaxMajorVersion)
      && |p.requests| - 1 <= |pages|
      && (forall i :: 0 <= i < |p.requests| - 1 ==>
            !ReadFails(pages[i]) && p.requests[i + 1].startUsn == pages[i].nextUsn)
      && (|p.requests| - 1 < |pages| ==> ReadFails(pages[|p.requests| - 1]))
      && p.rest == pages[(if |p.requests| - 1 < |pages| then |p.requests| else |pages|)..]
      && p.cursor == (if |p.requests| == 1 then cursor else pages[|p.requests| - 2].nextUsn)
    decreases |pages|
  {
    var s := ReadOnce(name, res, pages, cursor);
    if s.more {
      ReadAllRequests(name, s.after, pages[1..], s.cursor, filter, journalId);
      var p := ReadAll(name, res, pages, cursor, filter, journalId);
      var rest := ReadAll(name, s.after, pages[1..], s.cursor, filter, journalId);
      assert p.requests == [ReadRequest(cursor, filter, journalId, MaxMajorVersion)] + rest.requests;
      forall i | 1 <= i < |p.requests|
        ensures p.requests[i] == rest.requests[i - 1]
      {
      }
      forall i | 1 <= i < |p.requests| - 1
        ensures pages[i] == pages[1..][i - 1]
      {
      }
    }
  }
}
