/**
 * The file-system helpers: the drive letter of a path, the start sector of a
 * volume, and the legacy MBR partition walk that lists the partitions of a
 * physical drive.
 *
 * The walk reads the boot sector, decodes the four 16-byte partition records
 * at offset 0x1BE, stops at the first extended or empty record, and then
 * follows the chain of extended boot records (at most 50 tables of four
 * records each). This is the Legacy MBR layout of section 5.2.1 of the UEFI
 * Specification.
 *
 * The drive is an oracle: the error CreateFile reports, if any, and what a
 * seek to a byte position followed by a 512-byte ReadFile delivers.
 */
module FsUtil {
  import opened Win32Types

  const ErrorSuccess: u32 := 0
  /** ERROR_READ_FAULT: a logical table came back shorter than a sector. */
  const ErrorReadFault: u32 := 30

  const SectorSize: int := 512
  /** Offset of the first partition record in a boot sector. */
  const TableOffset: int := 0x1BE
  /** sizeof(Partition). */
  const EntrySize: int := 16
  /** Records in an extended boot record. */
  const LogicalEntries: nat := 4
  /** Most extended tables the walk follows. */
  const MaxLogicalTables: nat := 50

  /** DiskInfo.wType values. */
  const BootRecord: u16 := 1
  const ExtendedPart: u16 := 2

  /** FsBits: which file systems the caller asks for. */
  const FsDos12: bv32 := 1
  const FsDos16: bv32 := 2
  const FsDos32: bv32 := 4
  const FsNtfs: bv32 := 8
  const FsAll: bv32 := 15

  /** One packed 16-byte partition record. */
  datatype Partition = Partition(
    bootInd: u8, head: u8, sector: u8, cylinder: u8,
    partType: u8, lastHead: u8, lastSector: u8, lastCylinder: u8,
    relativeSector: u32, numberSectors: u32)

  /** One entry of the caller's DiskInfoList. */
  datatype DiskInfo = DiskInfo(
    cylinder: u16, head: u16, sector: u16, numSectors: u32, kind: u16,
    relativeSector: u32, ntRelativeSector: u32, bytesPerSector: u32)

  /** What one ReadFile into the 512-byte sector buffer can deliver. */
  type SectorData = s: seq<u8> | |s| <= 512

  datatype ReadResult = ReadFailed(error: u32) | ReadDone(data: SectorData)

  /**
   * A physical drive: the error opening it reports, if any, and the answer to
   * a seek to a byte position followed by a one-sector read (a failed seek and
   * a failed read both report GetLastError()).
   */
  datatype Drive = Drive(openError: Option<u32>, readAt: int -> ReadResult)

  // ---------------------------------------------------------------------------
  // Decoding the records

  /** A little-endian DWORD. */
  function LittleEndian32(b0: u8, b1: u8, b2: u8, b3: u8): u32
  {
    b0 + 0x100 * b1 + 0x1_0000 * b2 + 0x100_0000 * b3
  }

  /** The four bytes of a DWORD in memory order. */
  function Le32Bytes(x: u32): (bs: seq<u8>)
    ensures |bs| == 4
  {
    var q1 := x / 0x100;
    var q2 := q1 / 0x100;
    [x % 0x100, q1 % 0x100, q2 % 0x100, q2 / 0x100]
  }

  /** Splitting off the low byte of a + 256 * q. */
  lemma LowByte(a: int, q: int)
    requires 0 <= a < 0x100
    ensures (a + 0x100 * q) % 0x100 == a
    ensures (a + 0x100 * q) / 0x100 == q
  {
  }

  /** Reading back the bytes of a DWORD gives the DWORD. */
  lemma Le32RoundTrip(x: u32)
    ensures var bs := Le32Bytes(x); LittleEndian32(bs[0], bs[1], bs[2], bs[3]) == x
  {
    var q1 := x / 0x100;
    var q2 := q1 / 0x100;
    assert x == x % 0x100 + 0x100 * q1;
    assert q1 == q1 % 0x100 + 0x100 * q2;
    assert q2 == q2 % 0x100 + 0x100 * (q2 / 0x100);
  }

  /** Storing the DWORD that four bytes spell gives those bytes back. */
  lemma Le32BytesRoundTrip(b0: u8, b1: u8, b2: u8, b3: u8)
    ensures Le32Bytes(LittleEndian32(b0, b1, b2, b3)) == [b0, b1, b2, b3]
  {
    var x := LittleEndian32(b0, b1, b2, b3);
    LowByte(b0, b1 + 0x100 * b2 + 0x1_0000 * b3);
    LowByte(b1, b2 + 0x100 * b3);
    LowByte(b2, b3);
  }

  /** The partition record laid out at byte off. */
  function DecodeEntry(data: seq<u8>, off: nat): Partition
    requires off + EntrySize <= |data|
  {
    Partition(data[off], data[off + 1], data[off + 2], data[off + 3],
              data[off + 4], data[off + 5], data[off + 6], data[off + 7],
              LittleEndian32(data[off + 8], data[off + 9], data[off + 10], data[off + 11]),
              LittleEndian32(data[off + 12], data[off + 13], data[off + 14], data[off + 15]))
  }

  /** The 16 bytes of a partition record. */
  function EncodeEntry(p: Partition): (bs: seq<u8>)
    ensures |bs| == EntrySize
  {
    [p.bootInd, p.head, p.sector, p.cylinder,
     p.partType, p.lastHead, p.lastSector, p.lastCylinder]
    + Le32Bytes(p.relativeSector) + Le32Bytes(p.numberSectors)
  }

  /** A record written anywhere in a buffer decodes to itself. */
  lemma EntryRoundTrip(p: Partition, before: seq<u8>, after: seq<u8>)
    ensures DecodeEntry(before + EncodeEntry(p) + after, |before|) == p
  {
    var data := before + EncodeEntry(p) + after;
    var off := |before|;
    assert data[off..off + EntrySize] == EncodeEntry(p);
    Le32RoundTrip(p.relativeSector);
    Le32RoundTrip(p.numberSectors);
  }

  /** The first n records of a partition table lie within the bytes read. */
  predicate Fits(data: seq<u8>, n: nat)
  {
    n == 0 || TableOffset + EntrySize * n <= |data|
  }

  /** The i-th record of a partition table. */
  function EntryAt(data: seq<u8>, i: nat): Partition
    requires Fits(data, i + 1)
  {
    DecodeEntry(data, TableOffset + EntrySize * i)
  }

  /** The first n records of a partition table, decoded. */
  function Table(data: seq<u8>, n: nat): (t: seq<Partition>)
    requires Fits(data, n)
    ensures |t| == n
  {
    seq(n, k requires 0 <= k < n => EntryAt(data, k))
  }

  /**
   * How many records the MBR loop visits for a read of count bytes: the
   * whole records between offset 0x1BE and the end of the bytes read
   * (corrected: see AsWrittenPartCount for the unsigned subtraction).
   */
  function PartCount(count: nat): (n: nat)
    ensures n > 0 ==> TableOffset + EntrySize * n <= count
    ensures count >= TableOffset ==> count < TableOffset + EntrySize * (n + 1)
    ensures count <= SectorSize ==> n <= 4
    ensures count == SectorSize ==> n == 4
  {
    if count < TableOffset then 0 else (count - TableOffset) / EntrySize
  }

  /** The record count as the source computes it: DWORD arithmetic, so it wraps below 0x1BE. */
  function AsWrittenPartCount(count: u32): int
  {
    ToU32(count - TableOffset) / EntrySize
  }

  /**
   * A first read shorter than 0x1BE bytes makes the source visit about 2^28
   * records, far past the four that a 512-byte buffer holds; the corrected
   * count visits none.
   */
  lemma AsWrittenShortReadOverruns(count: u32)
    requires count < TableOffset
    ensures AsWrittenPartCount(count) >= 0x0FFF_FFE4
    ensures TableOffset + EntrySize * AsWrittenPartCount(count) > SectorSize
    ensures PartCount(count) == 0
  {
    assert ToU32(count - TableOffset) == count - TableOffset + Two32;
  }

  /** For reads of at least 0x1BE bytes both counts agree. */
  lemma PartCountAgrees(count: u32)
    requires TableOffset <= count
    ensures AsWrittenPartCount(count) == PartCount(count)
  {
  }

  // ---------------------------------------------------------------------------
  // Classification

  /** PART_EXTENDED (0x05) and PART_DOSX13X (0x0F). */
  predicate IsExtendedType(t: u8)
  {
    t == 0x05 || t == 0x0F
  }

  /** A record that neither ends the table nor chains to the next one. */
  predicate IsVolume(p: Partition)
  {
    !IsExtendedType(p.partType) && p.partType != 0
  }

  /**
   * Whether a volume record of type t is added for the requested file
   * systems: FAT12, FAT16, FAT32 and NTFS by their FsBits bit, any other
   * type only in the MBR and only when every bit is requested.
   */
  predicate Selected(t: u8, whichFs: bv32, primary: bool)
  {
    if t == 0x01 then Requests(whichFs, FsDos12)
    else if t == 0x04 || t == 0x06 || t == 0x0E then Requests(whichFs, FsDos16)
    else if t == 0x0B || t == 0x0C then Requests(whichFs, FsDos32)
    else if t == 0x07 then Requests(whichFs, FsNtfs)
    else primary && whichFs == FsAll
  }

  /** The FsBits value asks for the file system of the given bit. */
  predicate Requests(whichFs: bv32, bit: bv32)
  {
    whichFs & bit != 0
  }

  /** The list entry made from a volume record with the given absolute start sector. */
  function Info(p: Partition, nt: u32): DiskInfo
  {
    DiskInfo(p.cylinder, p.head, p.sector, p.numberSectors, BootRecord, 0, nt, 0)
  }

  // ---------------------------------------------------------------------------
  // The walk as functions

  /** Why the scan of one table ended. */
  datatype Stop = AllRead | EmptyRecord | Extended(relativeSector: u32)

  datatype Scan = Scan(found: seq<DiskInfo>, stop: Stop)

  /**
   * Records i..n-1 of one table: every selected volume record is added with
   * base + its own relative sector (DWORD sum); the scan ends at the first
   * extended record, which it reports, or at the first empty one.
   */
  function ScanTable(t: seq<Partition>, i: nat, base: u32, primary: bool, whichFs: bv32): (r: Scan)
    requires i <= |t|
    ensures |r.found| <= |t| - i
    decreases |t| - i
  {
    if i == |t| then Scan([], AllRead)
    else
      var p := t[i];
      if IsExtendedType(p.partType) then Scan([], Extended(p.relativeSector))
      else if p.partType == 0 then Scan([], EmptyRecord)
      else
        var rest := ScanTable(t, i + 1, base, primary, whichFs);
        var here := if Selected(p.partType, whichFs, primary)
                    then [Info(p, ToU32(base + p.relativeSector))] else [];
        Scan(here + rest.found, rest.stop)
  }

  /** What the walk returns and adds, and the byte positions it read. */
  datatype Outcome = Outcome(error: u32, found: seq<DiskInfo>, positions: seq<int>)

  /** What one turn of the extended-table loop gives: the read's error, or the table's scan. */
  datatype Turn = Failed(error: u32) | Scanned(s: Scan)

  /**
   * One turn of the extended-table loop: the table at sector nt is read (a
   * failed seek or read reports its error, a short read ERROR_READ_FAULT) and
   * its four records are scanned with their sectors offset by base.
   */
  function ReadTable(drive: Drive, whichFs: bv32, base: u32, nt: u32): (turn: Turn)
    ensures turn.Failed? <==>
      drive.readAt(nt * SectorSize).ReadFailed? || |drive.readAt(nt * SectorSize).data| != SectorSize
    ensures turn.Failed? ==>
      turn.error == if drive.readAt(nt * SectorSize).ReadFailed? then drive.readAt(nt * SectorSize).error else ErrorReadFault
    ensures turn.Scanned? ==> |turn.s.found| <= LogicalEntries
  {
    match drive.readAt(nt * SectorSize)
    case ReadFailed(e) => Failed(e)
    case ReadDone(data) =>
      if |data| != SectorSize then Failed(ErrorReadFault)
      else Scanned(ScanTable(Table(data, LogicalEntries), 0, base, false, whichFs))
  }

  /**
   * The chain of logical tables from the one at sector nt, with at most
   * tables of them left to read. mainPrev is the start of the extended
   * partition, prev the offset of the current table within it.
   */
  function Chain(drive: Drive, whichFs: bv32, mainPrev: u32, prev: u32, nt: u32, tables: nat): Outcome
    decreases tables
  {
    if tables == 0 then Outcome(ErrorSuccess, [], [])
    else
      var pos := nt * SectorSize;
      match ReadTable(drive, whichFs, ToU32(mainPrev + prev), nt)
      case Failed(e) => Outcome(e, [], [pos])
      case Scanned(s) =>
        if s.stop.Extended? then
          var r := s.stop.relativeSector;
          var rest := Chain(drive, whichFs, mainPrev, r, ToU32(r + mainPrev), tables - 1);
          Outcome(rest.error, s.found + rest.found, [pos] + rest.positions)
        else Outcome(ErrorSuccess, s.found, [pos])
  }

  /** The chain still to walk: none once the last record seen was not extended. */
  function Pending(drive: Drive, whichFs: bv32, extended: bool, mainPrev: u32, prev: u32, nt: u32, tables: nat): Outcome
  {
    if extended then Chain(drive, whichFs, mainPrev, prev, nt, tables)
    else Outcome(ErrorSuccess, [], [])
  }

  /** The whole walk of a physical drive. */
  function Walk(drive: Drive, whichFs: bv32): Outcome
  {
    match drive.openError
    case Some(e) => Outcome(e, [], [])
    case None =>
      match drive.readAt(0)
      case ReadFailed(e) => Outcome(e, [], [0])
      case ReadDone(data) => AfterBootSector(drive, whichFs, ScanTable(Table(data, PartCount(|data|)), 0, 0, true, whichFs))
  }

  /**
   * After the MBR scan s: success with what the MBR gave when every record
   * was read, otherwise the extended-table loop, which follows the chain
   * only when the scan stopped at an extended record.
   */
  function AfterBootSector(drive: Drive, whichFs: bv32, s: Scan): Outcome
  {
    if s.stop == AllRead then Outcome(ErrorSuccess, s.found, [0])
    else
      var mainPrev := if s.stop.Extended? then s.stop.relativeSector else 0;
      var c := Pending(drive, whichFs, s.stop.Extended?, mainPrev, 0, mainPrev, MaxLogicalTables);
      Outcome(c.error, s.found + c.found, [0] + c.positions)
  }

  // ---------------------------------------------------------------------------
  // The walk as the source performs it

  /** The records before i gave found; the rest of the scan is still to come. */
  ghost predicate ScannedUpTo(t: seq<Partition>, i: nat, base: u32, primary: bool, whichFs: bv32, found: seq<DiskInfo>)
    requires i <= |t|
  {
    var rest := ScanTable(t, i, base, primary, whichFs);
    ScanTable(t, 0, base, primary, whichFs) == Scan(found + rest.found, rest.stop)
  }

  lemma ScanStart(t: seq<Partition>, base: u32, primary: bool, whichFs: bv32)
    ensures ScannedUpTo(t, 0, base, primary, whichFs, [])
  {
  }

  /** Past a volume record i: it is added when selected, and the scan moves on. */
  lemma ScanStep(t: seq<Partition>, i: nat, base: u32, primary: bool, whichFs: bv32, found: seq<DiskInfo>)
    requires i < |t| && IsVolume(t[i])
    requires ScannedUpTo(t, i, base, primary, whichFs, found)
    ensures ScannedUpTo(t, i + 1, base, primary, whichFs,
                        found + if Selected(t[i].partType, whichFs, primary) then [Info(t[i], ToU32(base + t[i].relativeSector))] else [])
  {
    var p := t[i];
    var here := if Selected(p.partType, whichFs, primary) then [Info(p, ToU32(base + p.relativeSector))] else [];
    AppendAssoc(found, here, ScanTable(t, i + 1, base, primary, whichFs).found);
  }

  /** At record i the scan stops: an extended or empty record, or the end of the table. */
  lemma ScanEnd(t: seq<Partition>, i: nat, base: u32, primary: bool, whichFs: bv32, found: seq<DiskInfo>)
    requires i <= |t|
    requires ScannedUpTo(t, i, base, primary, whichFs, found)
    requires i < |t| ==> !IsVolume(t[i])
    ensures ScanTable(t, 0, base, primary, whichFs)
         == Scan(found, if i == |t| then AllRead
                        else if IsExtendedType(t[i].partType) then Extended(t[i].relativeSector)
                        else EmptyRecord)
  {
    AppendNil(found);
  }

  /**
   * The record loop shared by the MBR and the logical tables: steps the
   * Partition pointer (an index into the decoded records) over the table,
   * appending selected volumes, until an extended or empty record.
   */
  method ScanEntries(t: seq<Partition>, base: u32, primary: bool, whichFs: bv32)
    returns (found: seq<DiskInfo>, stop: Stop)
    ensures Scan(found, stop) == ScanTable(t, 0, base, primary, whichFs)
  {
    var n := |t|;
    found := [];
    ScanStart(t, base, primary, whichFs);
    var patIdx := 0;
    while patIdx < n
      invariant 0 <= patIdx <= n
      invariant ScannedUpTo(t, patIdx, base, primary, whichFs, found)
    {
      var p := t[patIdx];
      if IsExtendedType(p.partType) {
        ScanEnd(t, patIdx, base, primary, whichFs, found);
        return found, Extended(p.relativeSector);
      }
      if p.partType == 0 {
        ScanEnd(t, patIdx, base, primary, whichFs, found);
        return found, EmptyRecord;
      }
      ScanStep(t, patIdx, base, primary, whichFs, found);
      if Selected(p.partType, whichFs, primary) {
        found := found + [Info(p, ToU32(base + p.relativeSector))];
      } else {
        found := found + [];
      }
      patIdx := patIdx + 1;
    }
    ScanEnd(t, patIdx, base, primary, whichFs, found);
    stop := AllRead;
  }

  /**
   * The loop state of the extended-table loop accounts for the whole chain:
   * what was gathered so far followed by what the remaining turns give.
   */
  ghost predicate FollowedSoFar(total: Outcome, drive: Drive, whichFs: bv32, extended: bool,
                                mainPrev: u32, prev: u32, nt: u32, tables: nat,
                                found: seq<DiskInfo>, positions: seq<int>)
  {
    var rest := Pending(drive, whichFs, extended, mainPrev, prev, nt, tables);
    total == Outcome(rest.error, found + rest.found, positions + rest.positions)
  }

  lemma FollowStart(drive: Drive, whichFs: bv32, extended: bool, mainPrev: u32, tables: nat)
    ensures FollowedSoFar(Pending(drive, whichFs, extended, mainPrev, 0, mainPrev, tables),
                          drive, whichFs, extended, mainPrev, 0, mainPrev, tables, [], [])
  {
  }

  /** A turn while the last record seen was not extended changes nothing. */
  lemma FollowIdle(total: Outcome, drive: Drive, whichFs: bv32, mainPrev: u32, prev: u32, nt: u32, tables: nat,
                   found: seq<DiskInfo>, positions: seq<int>)
    requires tables > 0
    requires FollowedSoFar(total, drive, whichFs, false, mainPrev, prev, nt, tables, found, positions)
    ensures FollowedSoFar(total, drive, whichFs, false, mainPrev, prev, nt, tables - 1, found, positions)
  {
  }

  /** No turn left, or nothing to follow: the chain is complete and succeeded. */
  lemma FollowDone(total: Outcome, drive: Drive, whichFs: bv32, extended: bool, mainPrev: u32, prev: u32, nt: u32,
                   found: seq<DiskInfo>, positions: seq<int>)
    requires FollowedSoFar(total, drive, whichFs, extended, mainPrev, prev, nt, 0, found, positions)
    ensures total == Outcome(ErrorSuccess, found, positions)
  {
    AppendNil(found);
    AppendNil(positions);
  }

  /**
   * One turn while the last record was extended: a failed read ends the
   * chain with its error, a table whose records are all volumes ends it with
   * success, and otherwise the chain goes on from the table's last record.
   */
  lemma FollowTurn(total: Outcome, drive: Drive, whichFs: bv32, mainPrev: u32, prev: u32, nt: u32, tables: nat,
                   found: seq<DiskInfo>, positions: seq<int>, turn: Turn)
    requires tables > 0
    requires FollowedSoFar(total, drive, whichFs, true, mainPrev, prev, nt, tables, found, positions)
    requires turn == ReadTable(drive, whichFs, ToU32(mainPrev + prev), nt)
    ensures turn.Failed? ==> total == Outcome(turn.error, found, positions + [nt * SectorSize])
    ensures turn.Scanned? && turn.s.stop == AllRead ==>
      total == Outcome(ErrorSuccess, found + turn.s.found, positions + [nt * SectorSize])
    ensures turn.Scanned? && turn.s.stop == EmptyRecord ==>
      FollowedSoFar(total, drive, whichFs, false, mainPrev, prev, nt, tables - 1,
                    found + turn.s.found, positions + [nt * SectorSize])
    ensures turn.Scanned? && turn.s.stop.Extended? ==>
      var r := turn.s.stop.relativeSector;
      FollowedSoFar(total, drive, whichFs, true, mainPrev, r, ToU32(r + mainPrev), tables - 1,
                    found + turn.s.found, positions + [nt * SectorSize])
  {
    var pos := nt * SectorSize;
    if turn.Failed? {
      AppendNil(found);
    } else if turn.s.stop.Extended? {
      var r := turn.s.stop.relativeSector;
      var rest := Chain(drive, whichFs, mainPrev, r, ToU32(r + mainPrev), tables - 1);
      AppendAssoc(found, turn.s.found, rest.found);
      AppendAssoc(positions, [pos], rest.positions);
    } else {
      AppendNil(found + turn.s.found);
      AppendNil(positions + [pos]);
    }
  }

  /** Reading and scanning the logical table at sector nt. */
  method ReadLogicalTable(drive: Drive, whichFs: bv32, base: u32, nt: u32) returns (turn: Turn)
    ensures turn == ReadTable(drive, whichFs, base, nt)
  {
    var table := drive.readAt(nt * SectorSize);
    if table.ReadFailed? {
      return Failed(table.error);
    }
    if |table.data| != SectorSize {
      return Failed(ErrorReadFault);
    }
    var found, stop := ScanEntries(Table(table.data, LogicalEntries), base, false, whichFs);
    turn := Scanned(Scan(found, stop));
  }

  /**
   * One turn of the extended-table loop while the last record was extended:
   * reads and scans the table at sector nt, and either ends the walk (done,
   * with its error) or hands on the last record's state.
   */
  method FollowOne(ghost total: Outcome, drive: Drive, whichFs: bv32, mainPrev: u32, prev: u32, nt: u32, ghost tables: nat,
                   found: seq<DiskInfo>, ghost positions: seq<int>)
    returns (done: bool, error: u32, found': seq<DiskInfo>, ghost positions': seq<int>, extended: bool, prev': u32, nt': u32)
    requires tables > 0
    requires FollowedSoFar(total, drive, whichFs, true, mainPrev, prev, nt, tables, found, positions)
    ensures done ==> total == Outcome(error, found', positions')
    ensures !done ==> FollowedSoFar(total, drive, whichFs, extended, mainPrev, prev', nt', tables - 1, found', positions')
  {
    var pos := nt * SectorSize;
    var turn := ReadLogicalTable(drive, whichFs, ToU32(mainPrev + prev), nt);
    FollowTurn(total, drive, whichFs, mainPrev, prev, nt, tables, found, positions, turn);
    positions' := positions + [pos];
    prev', nt' := prev, nt;
    if turn.Failed? {
      return true, turn.error, found, positions', false, prev', nt';
    }
    found' := found + turn.s.found;
    if turn.s.stop == AllRead {
      return true, ErrorSuccess, found', positions', false, prev', nt';
    }
    done, error, extended := false, ErrorSuccess, false;
    if turn.s.stop.Extended? {
      prev' := turn.s.stop.relativeSector;
      nt' := ToU32(prev' + mainPrev);
      extended := true;
    }
  }

  /**
   * The extended-table loop of GetLogicalDrives after the MBR scan stopped
   * early: up to 50 turns, each reading the table at the last record's
   * sector while that record was extended.
   */
  method FollowChain(drive: Drive, whichFs: bv32, stop: Stop)
    returns (error: u32, found: seq<DiskInfo>, ghost positions: seq<int>)
    ensures var mainPrev := if stop.Extended? then stop.relativeSector else 0;
      Outcome(error, found, positions) == Pending(drive, whichFs, stop.Extended?, mainPrev, 0, mainPrev, MaxLogicalTables)
  {
    var mainPrev: u32 := 0;
    // The last record seen: whether it was extended (diskInfo.wType) and its
    // absolute sector (diskInfo.dwNTRelativeSector).
    var kind := BootRecord;
    var nt: u32 := 0;
    if stop.Extended? {
      mainPrev := stop.relativeSector;
      nt := mainPrev;
      kind := ExtendedPart;
    }
    ghost var total := Pending(drive, whichFs, kind == ExtendedPart, mainPrev, 0, nt, MaxLogicalTables);
    FollowStart(drive, whichFs, kind == ExtendedPart, mainPrev, MaxLogicalTables);
    found, positions := [], [];
    var prev: u32 := 0;
    var logiHard := 0;
    ghost var left: nat := MaxLogicalTables;
    while logiHard < MaxLogicalTables
      invariant 0 <= logiHard <= MaxLogicalTables && left == MaxLogicalTables - logiHard
      invariant FollowedSoFar(total, drive, whichFs, kind == ExtendedPart, mainPrev, prev, nt, left, found, positions)
    {
      if kind == ExtendedPart {
        var done, err, extended;
        done, err, found, positions, extended, prev, nt := FollowOne(total, drive, whichFs, mainPrev, prev, nt, left, found, positions);
        if done {
          return err, found, positions;
        }
        kind := if extended then ExtendedPart else BootRecord;
      } else {
        FollowIdle(total, drive, whichFs, mainPrev, prev, nt, left, found, positions);
      }
      logiHard := logiHard + 1;
      left := left - 1;
    }
    FollowDone(total, drive, whichFs, kind == ExtendedPart, mainPrev, prev, nt, found, positions);
    error := ErrorSuccess;
  }

  /**
   * GetLogicalDrives: appends the selected partitions of the drive to
   * diskInfoList and returns the error code, keeping what it appended before
   * an error.
   */
  method GetLogicalDrives(drive: Drive, diskInfoList: seq<DiskInfo>, whichFs: bv32)
    returns (error: u32, list: seq<DiskInfo>, ghost positions: seq<int>)
    ensures error == Walk(drive, whichFs).error
    ensures list == diskInfoList + Walk(drive, whichFs).found
    ensures positions == Walk(drive, whichFs).positions
  {
    list := diskInfoList;
    positions := [];
    if drive.openError.Some? {
      return drive.openError.value, list, positions;
    }
    var sector := drive.readAt(0);
    positions := [0];
    if sector.ReadFailed? {
      return sector.error, list, positions;
    }
    // dwMainPrevRelSector is still 0 for every MBR record the loop adds.
    var partCount := PartCount(|sector.data|);
    var found, stop := ScanEntries(Table(sector.data, partCount), 0, true, whichFs);
    list := list + found;
    if stop == AllRead {
      return ErrorSuccess, list, positions;
    }
    var more;
    ghost var chainPositions;
    error, more, chainPositions := FollowChain(drive, whichFs, stop);
    AppendAssoc(diskInfoList, found, more);
    list := list + more;
    positions := positions + chainPositions;
  }

  /** Concatenation regroups (stated for any element type, which keeps the proof small). */
  lemma AppendAssoc<T>(a: seq<T>, b: seq<T>, c: seq<T>)
    ensures (a + b) + c == a + (b + c)
  {
  }

  /** Appending nothing changes nothing. */
  lemma AppendNil<T>(a: seq<T>)
    ensures a + [] == a
  {
  }

  // ---------------------------------------------------------------------------
  // Properties of the walk

  /** Records i..j-1 are all volumes. */
  predicate VolumesBetween(t: seq<Partition>, i: nat, j: nat)
    requires i <= j <= |t|
  {
    forall k :: i <= k < j ==> IsVolume(t[k])
  }

  /** Record j is a volume of a requested type. */
  predicate Wanted(t: seq<Partition>, j: nat, primary: bool, whichFs: bv32)
    requires j < |t|
  {
    IsVolume(t[j]) && Selected(t[j].partType, whichFs, primary)
  }

  /** The list entry record j becomes in a table whose records are offset by base. */
  function Listed(t: seq<Partition>, j: nat, base: u32): DiskInfo
    requires j < |t|
  {
    Info(t[j], ToU32(base + t[j].relativeSector))
  }

  /**
   * What one table scan adds comes from its records: every entry is a wanted
   * volume record at or after i, placed with base + its own relative sector;
   * extended records are never added.
   */
  lemma {:induction false} ScanTableSound(t: seq<Partition>, i: nat, base: u32, primary: bool, whichFs: bv32)
    requires i <= |t|
    ensures forall d :: d in ScanTable(t, i, base, primary, whichFs).found ==>
      exists j :: i <= j < |t| && Wanted(t, j, primary, whichFs) && d == Listed(t, j, base)
    decreases |t| - i
  {
    if i < |t| && IsVolume(t[i]) {
      ScanTableSound(t, i + 1, base, primary, whichFs);
      var rest := ScanTable(t, i + 1, base, primary, whichFs);
      forall d | d in ScanTable(t, i, base, primary, whichFs).found
        ensures exists j :: i <= j < |t| && Wanted(t, j, primary, whichFs) && d == Listed(t, j, base)
      {
        if d !in rest.found {
          assert Wanted(t, i, primary, whichFs) && d == Listed(t, i, base);
        }
      }
    }
  }

  /**
   * And every wanted volume record that the scan reaches (all records before
   * it are volumes) is added.
   */
  lemma {:induction false} ScanTableComplete(t: seq<Partition>, i: nat, j: nat, base: u32, primary: bool, whichFs: bv32)
    requires i <= j < |t|
    requires VolumesBetween(t, i, j) && Wanted(t, j, primary, whichFs)
    ensures Listed(t, j, base) in ScanTable(t, i, base, primary, whichFs).found
    decreases j - i
  {
    if i < j {
      assert IsVolume(t[i]);
      ScanTableComplete(t, i + 1, j, base, primary, whichFs);
    }
  }

  /** The first record at or after i that is not a volume, or |t| if there is none. */
  function FirstStop(t: seq<Partition>, i: nat): (j: nat)
    requires i <= |t|
    ensures i <= j <= |t| && VolumesBetween(t, i, j)
    ensures j < |t| ==> !IsVolume(t[j])
    decreases |t| - i
  {
    if i == |t| || !IsVolume(t[i]) then i else FirstStop(t, i + 1)
  }

  /**
   * Why a table scan ended: it stops at the first record that is not a
   * volume, with Extended and that record's relative sector when it is an
   * extended record and EmptyRecord when it is empty; AllRead when every
   * record is a volume.
   */
  lemma {:induction false} ScanTableStop(t: seq<Partition>, i: nat, base: u32, primary: bool, whichFs: bv32)
    requires i <= |t|
    ensures var j := FirstStop(t, i);
      ScanTable(t, i, base, primary, whichFs).stop
        == if j == |t| then AllRead
           else if IsExtendedType(t[j].partType) then Extended(t[j].relativeSector)
           else EmptyRecord
    decreases |t| - i
  {
    if i < |t| && IsVolume(t[i]) {
      ScanTableStop(t, i + 1, base, primary, whichFs);
    }
  }

  /** The scan reads every record exactly when all of them are volumes. */
  lemma AllReadIffVolumes(t: seq<Partition>, base: u32, primary: bool, whichFs: bv32)
    ensures ScanTable(t, 0, base, primary, whichFs).stop == AllRead <==> VolumesBetween(t, 0, |t|)
  {
    ScanTableStop(t, 0, base, primary, whichFs);
    var j := FirstStop(t, 0);
    if j < |t| {
      assert !IsVolume(t[j]);
    }
  }

  /** In the MBR every added entry's absolute sector is its own relative sector. */
  lemma PrimaryKeepsOwnSector(t: seq<Partition>, whichFs: bv32)
    ensures forall d :: d in ScanTable(t, 0, 0, true, whichFs).found ==>
      exists j :: 0 <= j < |t| && Wanted(t, j, true, whichFs) && d == Info(t[j], t[j].relativeSector)
  {
    ScanTableSound(t, 0, 0, true, whichFs);
    forall d | d in ScanTable(t, 0, 0, true, whichFs).found
      ensures exists j :: 0 <= j < |t| && Wanted(t, j, true, whichFs) && d == Info(t[j], t[j].relativeSector)
    {
      var j :| 0 <= j < |t| && Wanted(t, j, true, whichFs) && d == Listed(t, j, 0);
      assert ToU32(0 + t[j].relativeSector) == t[j].relativeSector;
    }
  }

  /**
   * Unknown record types are never added from a logical table, and in the MBR
   * only when every file system is requested.
   */
  lemma UnknownTypes(t: seq<Partition>, i: nat, base: u32, primary: bool, whichFs: bv32)
    requires i <= |t|
    requires !primary || whichFs != FsAll
    ensures forall d :: d in ScanTable(t, i, base, primary, whichFs).found ==>
      exists j :: i <= j < |t| && t[j].partType in {0x01, 0x04, 0x06, 0x07, 0x0B, 0x0C, 0x0E}
                  && d == Listed(t, j, base)
  {
    ScanTableSound(t, i, base, primary, whichFs);
  }

  /** The chain reads at most one table per remaining turn, each at a sector boundary. */
  lemma {:induction false} ChainBounded(drive: Drive, whichFs: bv32, mainPrev: u32, prev: u32, nt: u32, tables: nat)
    ensures var c := Chain(drive, whichFs, mainPrev, prev, nt, tables);
      && |c.positions| <= tables
      && |c.found| <= LogicalEntries * |c.positions|
      && forall k :: 0 <= k < |c.positions| ==> c.positions[k] % SectorSize == 0 && 0 <= c.positions[k] < Two32 * SectorSize
    decreases tables
  {
    if tables > 0 {
      assert (nt * SectorSize) % SectorSize == 0;
      var turn := ReadTable(drive, whichFs, ToU32(mainPrev + prev), nt);
      if turn.Scanned? && turn.s.stop.Extended? {
        var r := turn.s.stop.relativeSector;
        ChainBounded(drive, whichFs, mainPrev, r, ToU32(r + mainPrev), tables - 1);
      }
    }
  }

  /**
   * An error from the chain is the error of its last read: that read failed
   * and reported it, or it delivered less than a sector and the error is
   * ERROR_READ_FAULT. On success every table read was a whole sector.
   */
  lemma {:induction false} ChainErrors(drive: Drive, whichFs: bv32, mainPrev: u32, prev: u32, nt: u32, tables: nat)
    ensures var c := Chain(drive, whichFs, mainPrev, prev, nt, tables);
      && (c.error != ErrorSuccess ==>
            |c.positions| > 0
            && var last := drive.readAt(c.positions[|c.positions| - 1]);
               (last.ReadFailed? && c.error == last.error)
               || (last.ReadDone? && |last.data| != SectorSize && c.error == ErrorReadFault))
      && (forall k :: 0 <= k < |c.positions| - 1 ==>
            drive.readAt(c.positions[k]).ReadDone? && |drive.readAt(c.positions[k]).data| == SectorSize)
    decreases tables
  {
    if tables > 0 {
      var turn := ReadTable(drive, whichFs, ToU32(mainPrev + prev), nt);
      if turn.Scanned? && turn.s.stop.Extended? {
        var r := turn.s.stop.relativeSector;
        ChainErrors(drive, whichFs, mainPrev, r, ToU32(r + mainPrev), tables - 1);
      }
    }
  }

  /**
   * The walk reads the boot sector first and then at most 50 logical tables;
   * when every MBR record it visits is a volume it succeeds without reading
   * further.
   */
  lemma WalkReads(drive: Drive, whichFs: bv32)
    requires drive.openError.None?
    ensures var w := Walk(drive, whichFs);
      && 1 <= |w.positions| <= 1 + MaxLogicalTables
      && w.positions[0] == 0
      && (drive.readAt(0).ReadDone? &&
          (var data := drive.readAt(0).data; var n := PartCount(|data|); VolumesBetween(Table(data, n), 0, n))
          ==> w.error == ErrorSuccess && w.positions == [0])
  {
    match drive.readAt(0)
    case ReadFailed(_) =>
    case ReadDone(data) =>
      var t := Table(data, PartCount(|data|));
      var s := ScanTable(t, 0, 0, true, whichFs);
      AllReadIffVolumes(t, 0, true, whichFs);
      if s.stop.Extended? {
        ChainBounded(drive, whichFs, s.stop.relativeSector, 0, s.stop.relativeSector, MaxLogicalTables);
      }
  }

  /**
   * The first logical table is read at the extended partition's start; if it
   * delivers less than a sector the walk fails with ERROR_READ_FAULT, keeping
   * only what the MBR gave.
   */
  lemma ShortLogicalTable(drive: Drive, whichFs: bv32, data: SectorData, j: nat)
    requires drive.openError.None? && drive.readAt(0) == ReadDone(data)
    requires j < PartCount(|data|) && IsExtendedType(EntryAt(data, j).partType)
    requires forall k :: 0 <= k < j ==> IsVolume(EntryAt(data, k))
    requires var t := drive.readAt(EntryAt(data, j).relativeSector * SectorSize);
      t.ReadDone? && |t.data| != SectorSize
    ensures Walk(drive, whichFs).error == ErrorReadFault
    ensures Walk(drive, whichFs).positions == [0, EntryAt(data, j).relativeSector * SectorSize]
    ensures Walk(drive, whichFs).found == ScanTable(Table(data, PartCount(|data|)), 0, 0, true, whichFs).found
  {
    var t := Table(data, PartCount(|data|));
    assert VolumesBetween(t, 0, j) by {
      forall k | 0 <= k < j ensures IsVolume(t[k]) {
        assert t[k] == EntryAt(data, k);
      }
    }
    assert !IsVolume(t[j]);
    assert FirstStop(t, 0) == j by {
      FirstStopAt(t, 0, j);
    }
    ScanTableStop(t, 0, 0, true, whichFs);
  }

  /** The first stop at or after i is the first non-volume record. */
  lemma {:induction false} FirstStopAt(t: seq<Partition>, i: nat, j: nat)
    requires i <= j < |t| && VolumesBetween(t, i, j) && !IsVolume(t[j])
    ensures FirstStop(t, i) == j
    decreases j - i
  {
    if i < j {
      FirstStopAt(t, i + 1, j);
    }
  }

  // ---------------------------------------------------------------------------
  // Drive letter and start sector

  /** wcscspn with a single rejected character: the length of the prefix without c. */
  function CharSpan(s: seq<char>, c: char): (n: nat)
    ensures n <= |s|
    ensures forall k :: 0 <= k < n ==> s[k] != c
    ensures n < |s| ==> s[n] == c
  {
    if |s| == 0 || s[0] == c then 0 else 1 + CharSpan(s[1..], c)
  }

  /**
   * GetDriveLetter: the first character of a path written "X:..." (or a
   * one-character path), otherwise the first character of the current
   * directory.
   */
  function GetDriveLetter(path: seq<char>, currentDir: seq<char>): (r: char)
    requires |currentDir| > 0
    ensures |path| > 0 && path[0] != ':' && (|path| == 1 || path[1] == ':') ==> r == path[0]
    ensures !(|path| > 0 && path[0] != ':' && (|path| == 1 || path[1] == ':')) ==> r == currentDir[0]
  {
    if CharSpan(path, ':') == 1 then path[0] else currentDir[0]
  }

  /** The first extent of a volume: its byte offset and length on the disk. */
  datatype Extent = Extent(startingOffset: i64, extentLength: i64)

  /** LONGLONG division: truncates toward zero. */
  function TruncDiv(a: int, d: int): (q: int)
    requires d > 0
    ensures a >= 0 ==> q * d <= a < q * d + d
    ensures a < 0 ==> q * d - d < a <= q * d
  {
    if a >= 0 then a / d else -((-a) / d)
  }

  /**
   * The record GetDriveStartSector appends for the volume's extents: none
   * without an extent, otherwise one whose start sector and sector count are
   * the first extent's offset and length over 512, stored as DWORDs.
   */
  function DriveStartSector(extents: seq<Extent>): (r: seq<DiskInfo>)
    ensures |r| == (if |extents| == 0 then 0 else 1)
    ensures |extents| > 0 && 0 <= extents[0].startingOffset < Two32 * SectorSize ==>
      r[0].ntRelativeSector * SectorSize <= extents[0].startingOffset < (r[0].ntRelativeSector + 1) * SectorSize
    ensures |extents| > 0 && 0 <= extents[0].extentLength < Two32 * SectorSize ==>
      r[0].numSectors * SectorSize <= extents[0].extentLength < (r[0].numSectors + 1) * SectorSize
    ensures |extents| > 0 ==> r[0].kind == 0 && r[0].relativeSector == 0 && r[0].bytesPerSector == 0
  {
    if |extents| == 0 then []
    else
      var e := extents[0];
      [DiskInfo(0, 0, 0, ToU32(TruncDiv(e.extentLength, SectorSize)), 0, 0,
                ToU32(TruncDiv(e.startingOffset, SectorSize)), 0)]
  }
}
