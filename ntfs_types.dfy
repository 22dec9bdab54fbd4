/**
 * Declarations of the journal access class that are plain values: the change
 * reason bits, the default reason filter, the journal record handed to
 * callers, the lookup flags, and the NT status classification macros.
 */
module NtfsTypes {
  import opened Win32Types

  // Change reason bits of a USN record (DWORD masks).
  const ReasonDataOverwrite: bv32 := 0x0000_0001
  const ReasonDataExtend: bv32 := 0x0000_0002
  const ReasonDataTruncation: bv32 := 0x0000_0004
  const ReasonNamedDataOverwrite: bv32 := 0x0000_0010
  const ReasonNamedDataExtend: bv32 := 0x0000_0020
  const ReasonNamedDataTruncation: bv32 := 0x0000_0040
  const ReasonFileCreate: bv32 := 0x0000_0100
  const ReasonFileDelete: bv32 := 0x0000_0200
  const ReasonEaChange: bv32 := 0x0000_0400
  const ReasonSecurityChange: bv32 := 0x0000_0800
  const ReasonRenameOldName: bv32 := 0x0000_1000
  const ReasonRenameNewName: bv32 := 0x0000_2000
  const ReasonIndexableChange: bv32 := 0x0000_4000
  const ReasonBasicInfoChange: bv32 := 0x0000_8000
  const ReasonHardLinkChange: bv32 := 0x0001_0000
  const ReasonCompressionChange: bv32 := 0x0002_0000
  const ReasonEncryptionChange: bv32 := 0x0004_0000
  const ReasonObjectIdChange: bv32 := 0x0008_0000
  const ReasonReparsePointChange: bv32 := 0x0010_0000
  const ReasonStreamChange: bv32 := 0x0020_0000
  const ReasonTransactedChange: bv32 := 0x0040_0000
  const ReasonClose: bv32 := 0x8000_0000

  /** The reasons requested from the journal when the caller asks for none. */
  const DefaultFilter: bv32 :=
    ReasonDataOverwrite | ReasonDataExtend | ReasonDataTruncation
    | ReasonEaChange | ReasonEncryptionChange | ReasonFileCreate | ReasonFileDelete
    | ReasonHardLinkChange | ReasonRenameOldName | ReasonRenameNewName
    | ReasonSecurityChange

  /** FILE_ATTRIBUTE_DIRECTORY. */
  const AttrDirectory: bv32 := 0x10
  /** Characters in a path buffer, terminator included. */
  const MaxPath: nat := 260

  predicate IsDirectory(attr: bv32) {
    attr & AttrDirectory != 0
  }

  /** What the journal reports about one change, after names have been resolved. */
  datatype JournalRecord = JournalRecord(
    usn: i64,
    reason: bv32,
    fileId: u64,
    timestamp: i64,
    length: i64,
    fileAttr: bv32,
    filename: string)

  // Lookup flags of GetFileInfo: the path is always fetched; the two bits are independent.
  const GetPath: bv8 := 0
  const GetLength: bv8 := 1
  const CacheIt: bv8 := 2

  /**
   * NT_SUCCESS: the status read as a signed NTSTATUS is not negative, i.e.
   * its top bit is clear.
   */
  function NtSuccess(status: bv32): (r: bool)
    ensures r <==> status < 0x8000_0000
  {
    status & 0x8000_0000 == 0
  }

  /** NT_ERROR: the two severity bits are both set. */
  function NtError(status: bv32): (r: bool)
    ensures r <==> 0xC000_0000 <= status
  {
    status >> 30 == 3
  }

  /**
   * An error status is never a success, and the warning and informational
   * range 0x80000000..0xBFFFFFFF is neither: those statuses pass the error
   * test that GetFileInfo applies.
   */
  lemma StatusClasses(status: bv32)
    ensures NtError(status) ==> !NtSuccess(status)
    ensures 0x8000_0000 <= status < 0xC000_0000 ==> !NtError(status) && !NtSuccess(status)
  {
  }

  /** The default filter has exactly the eleven listed bits. */
  lemma DefaultFilterBits()
    ensures DefaultFilter == 0x0005_3F07
    ensures DefaultFilter & ReasonClose == 0 && DefaultFilter & ReasonBasicInfoChange == 0
  {
  }
}
