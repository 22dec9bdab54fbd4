# NTFS change-journal lister, modelled in Dafny

This project models the core of NtfsJournal. NtfsJournal is a Windows command-line tool, with a companion library, that reads the NTFS change journal (the USN journal) of a volume and prints what changed. Its core has these parts:

- **Journal reader** (`ntfs.dfy`, class `Ntfs.Ntfs`):
  - `GetJournal` places a cursor at the requested USN (or at the journal's first USN).
  - `ReadJournal` issues `FSCTL_READ_USN_JOURNAL` reads. It walks each page from byte 8, record by record, until a record starts at or beyond the byte count. It moves the cursor to the USN the page starts with.
  - Each record is named. A directory gets its parent's resolved path, a separator, its own name and a trailing separator. A file gets its own resolved path, or its bare name when resolution fails.
  - `GetFileInfo` resolves a file identifier to a path. It keeps a memo cache that is consulted and filled only under `eCacheIt`.
- **Reason codec** (`reason_codec.dfy`):
  - `GetReasonString` turns a reason mask into "Name+Name" text, lowest bit first.
  - `ParseReason` turns a keyword list into a mask, by substring search over a ten-entry keyword table.
- **Filters** (`pattern.dfy`, `fs_filter.dfy`):
  - the `*`/`?` wildcard matcher `Pattern::Compare`, including its backtracking scan after `*`;
  - the date, name, regular-expression and size rules with their `matchOn` inversion;
  - `OneFilter` and the AND-chain `MultiFilter`.
- **Time arithmetic** (`fs_time.dfy`): conversion of Unix time and seconds to FILETIME, the 64-bit quad view of a FILETIME, and FILETIME ± span.
- **Report** (`report_config.dfy`, `formatter.dfy`, `report.dfy`):
  - the column report and the `%`-directive `FormatOutput` interpreter;
  - `HandleRecordCb`, which filters, selects directories or files, and suppresses repeated deletions by name hash;
  - `HandleDupRecordCb`, which keeps the newest record per file identifier and optionally merges reasons;
  - `ListJournal`, in detail mode and in summary mode.
- **Disk utilities** (`fs_util.dfy`):
  - `GetLogicalDrives`: the MBR partition-table walk. It scans the MBR records at 0x1BE, then follows the chain of extended (logical) partition tables, at most 50 of them, and lists the partitions of the requested file systems.
  - `GetDriveLetter`;
  - the start-sector arithmetic of `GetDriveStartSector`.

Each imperative routine of the source is a Dafny `method`. It is proved equal to a specification function, and the properties the program promises are proved as lemmas about that function. Examples:

- `ReadJournal`/`GetJournal` against `ReadOnce`/`ReadAll`;
- `Compare` against `Match`;
- `FormatOutput` against the lexer/renderer `LexAt`/`FormatFrom`;
- `GetLogicalDrives` against `Walk`.

The reader and the reporter are classes whose fields are updated in place. The process-wide statics `sJournalMap` and `sDeletedSet` are the two fields of one `Report.Reporter` object.

The outside world is given as values:

- **Journal volume:** the journal query's answer, the sequence of pages the device returns, and a lookup oracle that answers what `NtCreateFile` and `GetFileInformationByHandleEx` return for an identifier.
- **Physical drive:** the open error and a function from byte position to the result of a seek plus a one-sector read.
- **Other inputs:** time-stamp text, locale-formatted size text, the regular-expression engine and the name hash are parameters.

Behaviours of the code worth noting:

- **Summary order.** Summary mode replays the stored records in ascending file-identifier order, because `std::map` iterates that way (`NtfsJournal.cpp:462-467`).
- **`%s` and `%a`.** They print their own text and then the previous field again, padded to their width, because they do not assign `field` (`NtfsJournal.cpp:262-276`, `307-309`). The usage text's example `%10s` (`NtfsJournal.cpp:51`) therefore prints the size text followed by the previous field padded to ten characters, not the size alone in a ten-character column.
- **`IsName`.** It is case-insensitive like `IsNameIcase`, because both entry points call the same `Compare`, and that compares through `NCaseChrCmp` (`Pattern.h:44-58`, `Pattern.cpp:34`).
- **Date rules.** The time stamp is compared as an unsigned 64-bit FILETIME, read through a pointer cast. A negative stamp is read as 2^64 plus the stamp, which is at least 2^63, so it counts as later than every FILETIME below 2^63.

## Model

| member | source | states |
|---|---|---|
| NtfsTypes.NtError | NtfsJournal/ntfs/ntfs.h:167-168 | NT_ERROR holds exactly when both severity bits of the status are set |
| NtfsTypes.NtSuccess | NtfsJournal/ntfs/ntfs.h:163-164 | NT_SUCCESS holds exactly when the status read as a signed NTSTATUS is non-negative |
| NtfsTypes.StatusClasses | NtfsJournal/ntfs/ntfs.cpp:554-559 | an error status is never a success; warning statuses 0x80000000..0xBFFFFFFF pass GetFileInfo's error test |
| NtfsTypes.DefaultFilterBits | NtfsJournal/ntfs/ntfs.h:63-74 | the default reason filter is exactly the eleven listed USN_REASON bits (0x00053F07) |
| ReasonCodec.GetReasonString | NtfsJournal/ntfs/ntfs.cpp:351-402 | the shift loop produces the names of the set bits, lowest first, joined by "+" (ReasonText) |
| ReasonCodec.ReasonTextEmpty | NtfsJournal/ntfs/ntfs.cpp:390-399 | the reason text is empty iff no bit other than the close bit 0x80000000 is set |
| ReasonCodec.CloseBitText | NtfsJournal/ntfs/ntfs.cpp:387-397 | the close bit has an empty name, so with other bits set the text ends in a dangling "+" |
| ReasonCodec.SingleBitText | NtfsJournal/ntfs/ntfs.cpp:354-388 | a mask with one bit set renders as that bit's table name alone |
| ReasonCodec.ReservedBit3Text | NtfsJournal/ntfs/ntfs.cpp:354-388 | reserved bit 3 renders as its hexadecimal value "0x00000008" |
| ReasonCodec.ReservedBit30Text | NtfsJournal/ntfs/ntfs.cpp:386 | reserved bit 30 renders as "0x40000000" |
| ReasonCodec.CloseAloneText | NtfsJournal/ntfs/ntfs.cpp:387 | the close bit alone renders as the empty text |
| ReasonCodec.FindFrom | NtfsJournal/NtfsJournal.cpp:182 | wcsstr: the first index at or after the start where the word occurs, none when it does not occur |
| ReasonCodec.Contains | NtfsJournal/NtfsJournal.cpp:182 | the substring test is true exactly when the keyword occurs in the text |
| ReasonCodec.ParseReason | NtfsJournal/NtfsJournal.cpp:157-189 | the table loop ORs the filter of every keyword found; the mask is ParsedFilter and the diagnostic is written iff the mask is 0 |
| ReasonCodec.ParsedFilterHasKeyword | NtfsJournal/NtfsJournal.cpp:180-184 | every keyword occurring in the input contributes all of its bits |
| ReasonCodec.AllSelectsEverything | NtfsJournal/NtfsJournal.cpp:176 | "all" anywhere in the input selects every reason bit |
| ReasonCodec.ParsedFilterWithin | NtfsJournal/NtfsJournal.cpp:179-184 | the mask has no bit that no occurring keyword selects |
| ReasonCodec.WithoutAllOnlyNamedBits | NtfsJournal/NtfsJournal.cpp:167-175 | without "all" only the bits of the nine named keywords (0x0011BB07) can be selected |
| ReasonCodec.ParsedFilterZero | NtfsJournal/NtfsJournal.cpp:186-187 | the mask is 0, and the diagnostic written, exactly when no keyword occurs |
| ReasonCodec.OccursTransitive | NtfsJournal/NtfsJournal.cpp:182 | an occurrence inside an occurrence is an occurrence of the substring search |
| ReasonCodec.ParseMonotone | NtfsJournal/NtfsJournal.cpp:180-184 | text containing s selects at least every bit s selects |
| Pattern.ToLower | NtfsJournal/Support/Pattern.h:62 | tolower in the C locale maps exactly A-Z to a-z and fixes every other character |
| Pattern.ChrCmpProperties | NtfsJournal/Support/Pattern.h:61-62 | the bound comparator is reflexive, symmetric and transitive, and contains equality |
| Pattern.ChrCmpNonLetter | NtfsJournal/Support/Pattern.cpp:34 | a non-letter compares equal only to itself under the bound comparator |
| Pattern.Compare | NtfsJournal/Support/Pattern.cpp:43-91 | the loop with its '*' scan and recursion answers exactly Match(pattern, subject, wildOff, rawOff) |
| Pattern.CompareCase | NtfsJournal/Support/Pattern.h:44-48 | the case-sensitive entry point answers Matches(pattern, subject), the same as CompareNoCase |
| Pattern.CompareNoCase | NtfsJournal/Support/Pattern.h:54-58 | the case-insensitive entry point answers Matches(pattern, subject) |
| Pattern.LiteralMatch | NtfsJournal/Support/Pattern.cpp:78-90 | without wildcards the rest of the pattern matches exactly a same-length, case-equal rest of subject |
| Pattern.EmptyPattern | NtfsJournal/Support/Pattern.cpp:90 | the empty pattern matches only the empty subject |
| Pattern.LiteralPattern | NtfsJournal/Support/Pattern.cpp:78-90 | a wildcard-free pattern matches exactly the same-length subjects equal to it under the comparator |
| Pattern.QuestionRun | NtfsJournal/Support/Pattern.cpp:72-77 | a run of '?' from an offset matches exactly a rest of the same length |
| Pattern.QuestionMarks | NtfsJournal/Support/Pattern.cpp:72-77 | n question marks match exactly the subjects of length n |
| Pattern.PrefixMatch | NtfsJournal/Support/Pattern.cpp:51-54 | a literal run ending in a final '*' matches iff the subject starts with the run (case-folded) |
| Pattern.TrailingStar | NtfsJournal/Support/Pattern.cpp:51-54 | "lit*" accepts exactly the subjects starting with lit, the empty remainder included |
| Pattern.ExhaustedAtStar | NtfsJournal/Support/Pattern.cpp:48-49 | a subject used up when the pattern reaches '*' is a match, whatever follows the '*' |
| Pattern.LiteralThenStar | NtfsJournal/Support/Pattern.cpp:48-49 | a subject equal to the literal text before the first '*' matches whatever comes after it |
| Pattern.StarAtEndOfSubject | NtfsJournal/Support/Pattern.cpp:48-49 | "a*b" matches "a" |
| Pattern.StarLiteralScan | NtfsJournal/Support/Pattern.cpp:56-70 | after '*' and a literal run, the scan succeeds iff the subject ends with the run |
| Pattern.StarThenLiteral | NtfsJournal/Support/Pattern.cpp:56-70 | "*lit" accepts the empty subject and exactly the subjects that end with lit |
| Pattern.DoubleStarScan | NtfsJournal/Support/Pattern.cpp:56-70 | after "**" the scan looks for a literal '*', so a subject without one matches |
| Pattern.DoubleStar | NtfsJournal/Support/Pattern.cpp:56-70 | a pattern starting with "**" matches every subject with no '*', whatever follows |
| Pattern.StarQuestionScan | NtfsJournal/Support/Pattern.cpp:56-70 | after "*?" the scan succeeds iff the subject ends in a literal '?' |
| Pattern.StarQuestion | NtfsJournal/Support/Pattern.cpp:56-70 | "*?" looks for '?' literally: it matches the empty subject and those ending in '?' |
| FsTime.Int32x32To64 | NtfsJournal/Support/FsTime.cpp:45 | both operands are cut to signed 32 bits and their product fits a LONGLONG |
| FsTime.Split | NtfsJournal/Support/FsTime.cpp:47-48 | the FILETIME's high*2^32+low is the LONGLONG modulo 2^64 |
| FsTime.Quad | NtfsJournal/Support/FsTime.h:84-87 | the quad is the FILETIME's two DWORDs read as a signed 64-bit value |
| FsTime.Days | NtfsJournal/Support/FsTime.h:74-77 | a span of d days is d*86400 seconds |
| FsTime.SplitQuad | NtfsJournal/Support/FsTime.cpp:47-48 | splitting a LONGLONG into DWORDs and reading it back as a quad is the identity |
| FsTime.QuadSplit | NtfsJournal/Support/FsTime.h:84-87 | a FILETIME is determined by its quad: splitting the quad gives the FILETIME back |
| FsTime.SecondsTicks | NtfsJournal/Support/FsTime.cpp:53-66 | the quad of SecondsToFileTime(t) is t cut to signed 32 bits times 10^7 |
| FsTime.UnixEpoch | NtfsJournal/Support/FsTime.cpp:37-50 | Unix time 0 is 116444736000000000 ticks, the 1970 epoch |
| FsTime.UnixIsSecondsPlusEpoch | NtfsJournal/Support/FsTime.cpp:37-66 | UnixTimeToFileTime is SecondsToFileTime shifted by the epoch |
| FsTime.SecondsTruncated | NtfsJournal/Support/FsTime.cpp:45 | only the low 32 bits of the seconds matter |
| FsTime.UnixMonotone | NtfsJournal/Support/FsTime.cpp:37-50 | within the signed 32-bit range a later Unix time gives a larger quad |
| FsTime.DaysTicks | NtfsJournal/Support/FsTime.h:62-77 | d days are d*86400*10^7 ticks |
| FsTime.AddTicks | NtfsJournal/Support/FsTime.h:92-99 | FILETIME + span moves the quad by the span's ticks, wrapping at 64 bits |
| FsTime.SubThenAdd | NtfsJournal/Support/FsTime.h:92-108 | subtracting a span then adding it back restores the FILETIME |
| FsTime.AddThenSub | NtfsJournal/Support/FsTime.h:92-108 | adding a span then subtracting it restores the FILETIME |
| FsFilter.CompareFileTime | NtfsJournal/Support/FsFilter.cpp:44 | -1, 0, 1 exactly as the first FILETIME's ticks are below, equal to or above the second's |
| FsFilter.StampAsFileTime | NtfsJournal/Support/FsFilter.cpp:44 | the LARGE_INTEGER stamp seen through a FILETIME pointer has ticks stamp mod 2^64 |
| FsFilter.CStr | NtfsJournal/Support/FsFilter.cpp:63 | c_str() as the matcher sees it: the longest NUL-free prefix, ending just before the first NUL |
| FsFilter.NewMatchDate | NtfsJournal/Support/FsFilter.h:139-142 | MatchDate stores the FILETIME, the test (default IsDateModifyGreater) and matchOn (default true) |
| FsFilter.NewMatchName | NtfsJournal/Support/FsFilter.h:168-171 | the pattern MatchName stores the name, the test (default IsNameIcase) and matchOn (default true) |
| FsFilter.NewMatchRegex | NtfsJournal/Support/FsFilter.h:173-176 | the regex MatchName stores the expression and matchOn (default true) |
| FsFilter.NewMatchSize | NtfsJournal/Support/FsFilter.h:215-218 | MatchSize stores the size, the test (default IsSizeGreater) and matchOn (default true) |
| FsFilter.OneFilter.IsMatchOne | NtfsJournal/Support/FsFilter.h:63-66 | a single-rule filter answers its rule's IsMatch |
| FsFilter.OneFilter.SetMatch | NtfsJournal/Support/FsFilter.h:60-61 | after SetMatch the filter is valid and answers the new rule for every record |
| FsFilter.MultiFilter.constructor | NtfsJournal/Support/FsFilter.h:90-91 | a new chain has no rules |
| FsFilter.MultiFilter.FromList | NtfsJournal/Support/FsFilter.h:93-94 | the chain holds the given list |
| FsFilter.MultiFilter.SetMatch | NtfsJournal/Support/FsFilter.h:96-97 | the chain's list is replaced by the given one |
| FsFilter.MultiFilter.Add | NtfsJournal/Support/FsFilter.h:99-100 | List().push_back appends the rule at the end |
| FsFilter.MultiFilter.IsMatchAll | NtfsJournal/Support/FsFilter.h:102-110 | the loop answers AllMatch; on false the last rule consulted failed and all before it held |
| FsFilter.MultiFilter.IsValid | NtfsJournal/Support/FsFilter.h:112-113 | the chain is valid iff it holds at least one rule |
| FsFilter.AllMatchEvery | NtfsJournal/Support/FsFilter.h:102-110 | the chain holds iff every rule holds; the empty chain holds for every record |
| FsFilter.AddNarrows | NtfsJournal/Support/FsFilter.h:78-82 | after adding a rule the chain holds iff the old chain and the new rule hold |
| FsFilter.MatchOnNegates | NtfsJournal/Support/FsFilter.h:144-147 | a rule with matchOn false selects exactly what the same rule with matchOn true rejects |
| FsFilter.RuleReadsOneField | NtfsJournal/Support/FsFilter.h:144-223 | date rules read only the time stamp, name rules only the name, size rules only the length |
| FsFilter.SizeTrichotomy | NtfsJournal/Support/FsFilter.cpp:82-95 | exactly one of the size tests greater, equal, less holds (signed 64-bit) |
| FsFilter.DateTrichotomy | NtfsJournal/Support/FsFilter.cpp:42-55 | exactly one of the date tests greater, equal, less holds |
| FsFilter.DateTestsByTicks | NtfsJournal/Support/FsFilter.cpp:42-55 | the date tests compare stamp mod 2^64 with the FILETIME's ticks; for non-negative stamps, plainly |
| FsFilter.StampOfQuad | NtfsJournal/Support/FsFilter.cpp:47-50 | the quad of a FILETIME, used as a stamp, is IsDateModifyEqual to it |
| FsFilter.NameTestsAgree | NtfsJournal/Support/FsFilter.cpp:60-70 | IsName and IsNameIcase agree on every name |
| FsFilter.CStrOfNoNul | NtfsJournal/Support/FsFilter.cpp:63 | a NUL-free string is its own c_str() view |
| FsFilter.NameIcaseIsMatches | NtfsJournal/Support/FsFilter.cpp:60-64 | for NUL-free strings IsNameIcase is the wildcard matcher with the pattern first |
| FsFilter.DefaultNameRule | NtfsJournal/Support/FsFilter.h:168-184 | a default name rule selects exactly the matching names; with matchOn false exactly the others |
| ReportConfig.DefaultCfg | NtfsJournal/NtfsJournal.cpp:116-124 | the report constructor's defaults: directory and name columns, '\\', '%', "D", " ", dd-MMM-yyyy, HH:mm, no format |
| ReportConfig.Attributes | NtfsJournal/NtfsJournal.cpp:264-268 | the attribute text is dirAttr, S, H, R for the directory, system, hidden, read-only bits, in that order |
| ReportConfig.PadLeft | NtfsJournal/NtfsJournal.cpp:366 | setw right-justifies: the text ends the field, spaces before it, never cut |
| ReportConfig.PadRight | NtfsJournal/NtfsJournal.cpp:307-308 | spaces are appended up to the width: the text starts the field, never cut |
| ReportConfig.NatText | NtfsJournal/NtfsJournal.cpp:366 | the decimal text of a number is non-empty and all digits |
| Ntfs.Ntfs.constructor | NtfsJournal/ntfs/ntfs.cpp:19-24 | drive 'c', cursor 0, default filter, empty cache |
| Ntfs.Ntfs.OpenDrive | NtfsJournal/ntfs/ntfs.cpp:32-67 | remembers the letter, empties the cache, and succeeds iff the volume opens |
| Ntfs.Ntfs.HasJournal | NtfsJournal/ntfs/ntfs.cpp:110-114 | true iff the journal query succeeds |
| Ntfs.Ntfs.SetFilter | NtfsJournal/ntfs/ntfs.cpp:166-194 | installs the reason filter and changes nothing else |
| Ntfs.Ntfs.GetFileInfo | NtfsJournal/ntfs/ntfs.cpp:480-602 | answers as FileInfo: cache hit under eCacheIt, else one lookup whose path, size (eGetLength) and cache entry (eCacheIt) follow |
| Ntfs.Ntfs.GetDirInfo | NtfsJournal/ntfs/ntfs.h:107-111 | a cached lookup (eCacheIt) whose size is discarded |
| Ntfs.Ntfs.GetFileInfoWithLength | NtfsJournal/ntfs/ntfs.h:114-117 | a lookup with eGetLength and no caching |
| Ntfs.Ntfs.BuildRecord | NtfsJournal/ntfs/ntfs.cpp:284-336 | the record built from one header is NameRecord's, and the cache changes as its lookups do |
| Ntfs.Ntfs.ReadJournal | NtfsJournal/ntfs/ntfs.cpp:224-348 | one request at the cursor with filter, journal id, version 2; a failed or short read delivers nothing; otherwise the cursor moves to the page's USN and the page is walked (ReadOnce) |
| Ntfs.Ntfs.WalkPage | NtfsJournal/ntfs/ntfs.cpp:278-345 | the buffer walk from byte 8 by RecordLength while below bytesRead delivers exactly Walk's records |
| Ntfs.Ntfs.ReadPages | NtfsJournal/ntfs/ntfs.cpp:153-160 | reads until ReadJournal returns false: delivers, logs and leaves the cursor as ReadAll |
| Ntfs.Ntfs.GetJournal | NtfsJournal/ntfs/ntfs.cpp:143-163 | fails iff the journal query fails; otherwise installs filter (0 means default), starts at startUsn (0 means the first USN) and appends every record read to the list |
| Ntfs.Ntfs.GetJournalCallback | NtfsJournal/ntfs/ntfs.cpp:118-140 | the same reads, handing every record to the callback in order |
| Ntfs.FlagBits | NtfsJournal/ntfs/ntfs.h:103 | eGetPath, eGetLength and eCacheIt are independent bits |
| Ntfs.CacheHit | NtfsJournal/ntfs/ntfs.cpp:486-495 | a hit under eCacheIt answers the cached path and size with true and makes no lookup |
| Ntfs.CacheMiss | NtfsJournal/ntfs/ntfs.cpp:497-580 | without a hit exactly one lookup is made; success iff the open and the name query succeed, and the path is the name |
| Ntfs.CacheUpdate | NtfsJournal/ntfs/ntfs.cpp:554-597 | the cache changes only by storing a successful eCacheIt lookup; a failure keeps the caller's path and reports size 0 |
| Ntfs.SizeNeedsLengthFlag | NtfsJournal/ntfs/ntfs.cpp:581-591 | a non-zero size on a miss needs eGetLength and is the standard-info allocation size |
| Ntfs.LookupThenHit | NtfsJournal/ntfs/ntfs.cpp:486-596 | memoisation: after a successful cached lookup, the same identifier is answered from the cache |
| Ntfs.WrapperFlags | NtfsJournal/ntfs/ntfs.h:107-117 | GetDirInfo's lookup stores size 0; the two-argument GetFileInfo never stores |
| Ntfs.NamingRules | NtfsJournal/ntfs/ntfs.cpp:308-336 | bare name without resolution; directory: parent path + "\\" + name or bare name; file: own path or bare name; a directory ends in one "\\" |
| Ntfs.NamingResolver | NtfsJournal/ntfs/ntfs.cpp:308-325 | files never touch the cache, only a directory's parent can be added, no lookup without resolution, length non-zero only for a file's read size |
| Ntfs.NamingCopiesFields | NtfsJournal/ntfs/ntfs.cpp:300-306 | usn, reason, file id, time stamp and attributes are copied unchanged |
| Ntfs.WalkInOrder | NtfsJournal/ntfs/ntfs.cpp:282-345 | the i-th record delivered is built from the i-th header of the page |
| Ntfs.WalkStarts | NtfsJournal/ntfs/ntfs.cpp:279-282 | every delivered record starts below bytesRead and the walk stops at the first start at or beyond it |
| Ntfs.WalkCache | NtfsJournal/ntfs/ntfs.cpp:282-345 | over a page the cache only grows, only by directory parents, with at most one lookup per record |
| Ntfs.ReadAllRequests | NtfsJournal/ntfs/ntfs.cpp:253-276 | requests start at the cursor, each next at the previous page's USN, all carry filter/id/version 2; reading stops at the first failed read |
| Formatter.Wcstol | NtfsJournal/NtfsJournal.cpp:255-258 | wcstol base 10: no digit means value 0 and end at the start; otherwise end is just past the digit run |
| Formatter.ClampLong | NtfsJournal/NtfsJournal.cpp:256 | out-of-range values saturate to LONG_MIN or LONG_MAX |
| Formatter.WcstolReadsIntText | NtfsJournal/NtfsJournal.cpp:256 | wcstol reads back every long written in decimal and stops right after it |
| Formatter.WidthReadBack | NtfsJournal/NtfsJournal.cpp:255-260 | a width written in decimal after the escape is read back exactly, with the letter after it |
| Formatter.LastIndex | NtfsJournal/NtfsJournal.cpp:287 | find_last_of: the last index holding the character, -1 when there is none |
| Formatter.PathSplit | NtfsJournal/NtfsJournal.cpp:286-293 | %d, the slash and %f make up the path; %f holds no slash; without a slash %d is empty and %f the path |
| Formatter.NameExtSplit | NtfsJournal/NtfsJournal.cpp:294-301 | when the file name has a dot, %n "." %e is the file name; without one %n is the file name |
| Formatter.ExtOfDottedDirectory | NtfsJournal/NtfsJournal.cpp:298-300 | %e of "a.b\\c" is "b\\c": the extension is taken from the whole path |
| Formatter.LexAt | NtfsJournal/NtfsJournal.cpp:245-260 | each directive consumes at least one character and stays within the format |
| Formatter.Narrow | NtfsJournal/NtfsJournal.cpp:279-280 | the reason mask is kept or loses its low byte |
| Formatter.FormatOutput | NtfsJournal/NtfsJournal.cpp:200-320 | the pointer loop prints exactly Formatted(cfg, rec) |
| Formatter.WriteDirective | NtfsJournal/NtfsJournal.cpp:245-315 | one pass of the loop body prints the text the renderer gives for the directive at i |
| Formatter.FieldDirective | NtfsJournal/NtfsJournal.cpp:253-310 | a width-and-letter directive prints what Conversion gives and resumes after the letter |
| Formatter.WriteField | NtfsJournal/NtfsJournal.cpp:260-309 | the switch plus padding prints Conversion's text and leaves its state |
| Formatter.SelectField | NtfsJournal/NtfsJournal.cpp:260-301 | %a/%s print their text and keep the field; the other letters assign theirs; %r narrows the mask first |
| Formatter.ReasonField | NtfsJournal/NtfsJournal.cpp:278-282 | %r narrows the mask on a create/delete-class reason and names the reasons left |
| Formatter.PadField | NtfsJournal/NtfsJournal.cpp:307-308 | the padding loop gives PadRight(field, width) |
| Formatter.PlainTextCopied | NtfsJournal/NtfsJournal.cpp:312-318 | a format without the escape prints as it is, followed by one newline |
| Formatter.TrailingEscapeNoNewline | NtfsJournal/NtfsJournal.cpp:247-250 | an escape as the last character ends the line there, without a newline |
| Formatter.DoubledEscape | NtfsJournal/NtfsJournal.cpp:251-252 | the escape written twice prints one escape and changes nothing else |
| Formatter.NoWidthIsZero | NtfsJournal/NtfsJournal.cpp:255-258 | a letter right after the escape gets width 0 |
| Formatter.TextFieldPadded | NtfsJournal/NtfsJournal.cpp:272-309 | a text letter prints its value padded right to the width, and the padded value becomes the field |
| Formatter.StaleFieldReprinted | NtfsJournal/NtfsJournal.cpp:262-309 | %a and %s print their own text, then the previous field again padded to their width |
| Formatter.UnknownLetterEchoed | NtfsJournal/NtfsJournal.cpp:302-304 | any other letter after the width is printed as it is, unpadded, state unchanged |
| Formatter.ReasonMaskSticky | NtfsJournal/NtfsJournal.cpp:278-281 | once a create/delete-class reason was printed, the low byte stays hidden for the rest of the line |
| Report.AscendingSpec | NtfsJournal/NtfsJournal.cpp:462-467 | the map's iteration order lists every key exactly once, strictly ascending |
| Report.Reporter.constructor | NtfsJournal/NtfsJournal.cpp:402-403 | the identifier map and the deleted-name set start empty |
| Report.Reporter.WriteColumns | NtfsJournal/NtfsJournal.cpp:362-398 | the column report prints ColumnLine: usn, time, size, attributes, name or short name, reasons, in that order |
| Report.Reporter.HandleRecordCb | NtfsJournal/NtfsJournal.cpp:326-400 | prints an accepted record unless it is a summary-mode deletion whose name hash was seen; the set grows by new hashes (Handle) |
| Report.Reporter.HandleDupRecordCb | NtfsJournal/NtfsJournal.cpp:406-435 | an accepted record is stored under its identifier (Dedup); others leave the map alone |
| Report.Reporter.Store | NtfsJournal/NtfsJournal.cpp:421-433 | first sighting stores the record; later ones replace it, with the reasons merged in merge-all mode |
| Report.Reporter.ReplaySummary | NtfsJournal/NtfsJournal.cpp:462-467 | every stored record goes through HandleRecordCb in ascending identifier order |
| Report.Reporter.ReplayDetail | NtfsJournal/NtfsJournal.cpp:455-458 | detail mode hands every delivered record to HandleRecordCb in order |
| Report.Reporter.ReduceAll | NtfsJournal/NtfsJournal.cpp:461 | summary mode hands every delivered record to HandleDupRecordCb in order |
| Report.Reporter.ListJournal | NtfsJournal/NtfsJournal.cpp:440-471 | open failure and missing journal return -1 with their messages; otherwise 1, with the detail or summary output of the records GetJournal reads |
| Report.DetailPrintsAllAccepted | NtfsJournal/NtfsJournal.cpp:342-360 | in detail mode every accepted record is printed, deletions included, and the set is untouched |
| Report.ReplayDeleted | NtfsJournal/NtfsJournal.cpp:342-354 | after a replay the set is the old set plus the hashes of the accepted summary-mode deletions |
| Report.DeletionReportedOnce | NtfsJournal/NtfsJournal.cpp:344-353 | a summary-mode deletion prints only if no earlier deletion of the same name hash was recorded |
| Report.DedupIdempotent | NtfsJournal/NtfsJournal.cpp:406-435 | handling the same record twice leaves the map as handling it once |
| Report.ReduceKeys | NtfsJournal/NtfsJournal.cpp:421-426 | an identifier is in the reduced map iff it was there or an accepted record carries it |
| Report.ReduceKeyed | NtfsJournal/NtfsJournal.cpp:425-432 | every entry stays stored under its own record's identifier |
| Report.ReduceMergesReasons | NtfsJournal/NtfsJournal.cpp:429-432 | in merge-all mode the stored reason is the union of every accepted reason for the identifier |
| Report.ReduceKeepsLast | NtfsJournal/NtfsJournal.cpp:425-432 | the stored record is the last accepted one for the identifier (except its reason in merge-all mode) |
| Report.SummaryAscending | NtfsJournal/NtfsJournal.cpp:462-467 | the summary lists each stored record once, in strictly ascending identifier order |
| Report.ThreeRecordSummary | NtfsJournal/NtfsJournal.cpp:421-467 | records for files 1, 1, 2 print file 1's newest (reasons merged in merge-all mode), then file 2's |
| Report.SummaryOfTwo | NtfsJournal/NtfsJournal.cpp:462-467 | a map holding files 1 and 2 is replayed as file 1's record then file 2's |
| Report.ThreeRecordReduce | NtfsJournal/NtfsJournal.cpp:421-433 | records for files 1, 1, 2 leave exactly two entries: file 1's newest and file 2's |
| Report.AbsorbFresh | NtfsJournal/NtfsJournal.cpp:423-426 | a record with a new identifier is stored as it is |
| Report.AbsorbOver | NtfsJournal/NtfsJournal.cpp:427-433 | a second record replaces the first, reasons ORed in merge-all mode |
| Report.ShortNameDropsDirectory | NtfsJournal/NtfsJournal.cpp:389-394 | with a slash past the first character, the name column is the text after the last slash |
| Report.ShortNameKeepsRootSlash | NtfsJournal/NtfsJournal.cpp:389-390 | a name whose only slash is its first character is printed whole |
| FsUtil.Le32RoundTrip | NtfsJournal/Support/fsutil.h:61-62 | reading back the four stored bytes of a DWORD gives the DWORD |
| FsUtil.Le32BytesRoundTrip | NtfsJournal/Support/fsutil.h:61-62 | storing the DWORD four bytes spell gives those bytes back |
| FsUtil.EntryRoundTrip | NtfsJournal/Support/fsutil.h:51-63 | a 16-byte partition record written anywhere in a buffer decodes to itself |
| FsUtil.Table | NtfsJournal/Support/fsutil.cpp:251 | the first n records at 0x1BE, decoded |
| FsUtil.PartCount | NtfsJournal/Support/fsutil.cpp:254 | the records visited are the whole 16-byte records between 0x1BE and the bytes read; four for a full sector |
| FsUtil.AsWrittenShortReadOverruns | NtfsJournal/Support/fsutil.cpp:254 | with fewer than 0x1BE bytes read the DWORD subtraction wraps: about 2^28 records, whose extent reaches past the 512-byte buffer |
| FsUtil.PartCountAgrees | NtfsJournal/Support/fsutil.cpp:254 | for reads of at least 0x1BE bytes the written and the corrected counts agree |
| FsUtil.ScanTable | NtfsJournal/Support/fsutil.cpp:268-337 | a table scan adds at most one entry per record it visits |
| FsUtil.ReadTable | NtfsJournal/Support/fsutil.cpp:344-384 | a failed seek or read reports its error, a short read ERROR_READ_FAULT, else the four logical records are scanned |
| FsUtil.ScanEntries | NtfsJournal/Support/fsutil.cpp:268-337 | the record loop adds and stops exactly as ScanTable |
| FsUtil.ReadLogicalTable | NtfsJournal/Support/fsutil.cpp:344-451 | reading and scanning one logical table gives ReadTable |
| FsUtil.FollowOne | NtfsJournal/Support/fsutil.cpp:344-454 | one extended-loop turn ends the walk or hands on the chain state consistently with Chain |
| FsUtil.FollowChain | NtfsJournal/Support/fsutil.cpp:342-456 | the 50-turn extended loop gives what Pending (the chain) gives |
| FsUtil.GetLogicalDrives | NtfsJournal/Support/fsutil.cpp:227-460 | appends exactly Walk's partitions to the list and returns Walk's error |
| FsUtil.ScanTableSound | NtfsJournal/Support/fsutil.cpp:309-334 | every added entry is a wanted volume record, placed at base + its own relative sector |
| FsUtil.ScanTableComplete | NtfsJournal/Support/fsutil.cpp:268-337 | every wanted volume record the scan reaches is added |
| FsUtil.FirstStop | NtfsJournal/Support/fsutil.cpp:279-295 | the first record that is not a volume, all records before it being volumes |
| FsUtil.ScanTableStop | NtfsJournal/Support/fsutil.cpp:279-295 | the scan stops at the first extended record (reporting its sector) or empty record; AllRead when there is none |
| FsUtil.AllReadIffVolumes | NtfsJournal/Support/fsutil.cpp:339-340 | the MBR scan reads every record exactly when all of them are volumes |
| FsUtil.PrimaryKeepsOwnSector | NtfsJournal/Support/fsutil.cpp:270-290 | each MBR entry's absolute sector is its own relative sector |
| FsUtil.UnknownTypes | NtfsJournal/Support/fsutil.cpp:329-333 | unknown types are added only from the MBR and only when every file system is requested |
| FsUtil.ChainBounded | NtfsJournal/Support/fsutil.cpp:342-456 | at most one sector-aligned table read per remaining turn, at most four entries per table |
| FsUtil.ChainErrors | NtfsJournal/Support/fsutil.cpp:344-378 | a chain error is its last read's failure or ERROR_READ_FAULT for a short read; earlier reads were whole sectors |
| FsUtil.WalkReads | NtfsJournal/Support/fsutil.cpp:244-340 | the boot sector is read first, then at most 50 tables; an all-volume MBR succeeds without further reads |
| FsUtil.ShortLogicalTable | NtfsJournal/Support/fsutil.cpp:373-378 | a short first logical table fails the walk with ERROR_READ_FAULT, keeping the MBR's entries |
| FsUtil.FirstStopAt | NtfsJournal/Support/fsutil.cpp:279-295 | the first non-volume record is where the scan stops |
| FsUtil.CharSpan | NtfsJournal/Support/fsutil.cpp:47 | wcscspn: the length of the prefix without the character, which stands right after it |
| FsUtil.GetDriveLetter | NtfsJournal/Support/fsutil.cpp:45-53 | "X:..." or a one-character path gives its first character, any other path the current directory's |
| FsUtil.TruncDiv | NtfsJournal/Support/fsutil.cpp:217-218 | LONGLONG division truncates toward zero |
| FsUtil.DriveStartSector | NtfsJournal/Support/fsutil.cpp:213-220 | no entry without an extent; otherwise one whose start sector and count are the first extent's bytes over 512 |

## Left out

- Device and system I/O are not computed; they are given as values:
  - `CreateFile`, `DeviceIoControl` (journal query, journal read, volume extents), `ReadFile`/`SetFilePointer`, `NtCreateFile` and `GetFileInformationByHandleEx`.
  - The journal is a sequence of decoded pages, each with `USN_RECORD_V2` headers and names. Raw page bytes and `FileNameOffset` decoding are not modelled.
  - `GetLastError`, `SaveLastError` and the error-message texts are parameters.
- The time-stamp text (`GetTimestamp`) and locale-formatted numbers (`LocaleFmt`) are parameters of `TextEnv`. Locale and calendar formatting is not modelled.
- The regular-expression engine used by `IsGrepIcase` (`std::regex_match`) is a parameter, and so is `std::hash` of names.
- `TimeSpan` is modelled in whole seconds. The source's `double` span and `TodayUTC` (the clock) are not modelled.
- These operations are not part of this model:
  - the registry (`ReadRegistry`, `WriteRegistry`);
  - command-line parsing (`wmain`, `GetOpts`);
  - `GetDriveAndPartitionNumber`, `GetNtfsDiskNumber`, `CloseDrive`;
  - the debug printing under `_DEBUG`;
  - the `BACKSLASH_SPECIAL` escapes of `FormatOutput`, which are compiled out.
- Concurrency: none in the source. The callback overload of `GetJournal` is modelled as the list of records handed to the callback, in order. The callbacks never touch the reader's state, so interleaving cannot be observed.
- ReasonCodec.FindFrom, ReasonCodec.Contains, FsUtil.CharSpan and Formatter.FormatOutput treat a NUL inside the text as an ordinary character, where `wcsstr`, `wcscspn` and the format loop stop at it. Strings from the command line and the registry hold no NUL, so the model leaves it out.
- Characters:
  - `wchar_t` text is Dafny `char`, so lone surrogates cannot be represented;
  - `tolower` is the "C" locale's: only A-Z are folded.
- Ntfs.Ntfs.ReadJournal: the buffer size (`maxRecords`, 100 records) is not modelled. The device decides how many records a page holds.
- Ntfs.Ntfs.WalkPage: a page must be well-formed, meaning every record starting below `bytesRead` is present, has a non-zero length and has a name under `MAX_PATH`. The source's behaviour on corrupt pages (an endless loop on a zero `RecordLength`, overruns) is not modelled.
- Formatter.FormatOutput: requires that the format does not end inside a field width. There the source reads past the terminating NUL, and `Formatted` answers None.
- Report.Reporter.ListJournal: requires the same of a custom format (`FormatOk`). In detail mode the printed text is stated as the replay of the delivered records, not interleaved with the reads.
- Report.Reporter.HandleRecordCb: requires the same of a custom format (`FormatOk`).
- FsFilter.OneFilter.IsMatchOne: requires a rule. The source dereferences a null pointer otherwise.
- FsUtil.GetDriveLetter: requires a non-empty current directory. `GetCurrentDirectory` is not modelled.
- FsUtil.GetLogicalDrives: the MBR scan uses the corrected record count `PartCount` (see Findings). The as-written count is modelled by `AsWrittenPartCount`.

## Findings

| source | as written | input that shows it | evidently intended | confidence | as-written member | corrected member |
|---|---|---|---|---|---|---|
| NtfsJournal/Support/fsutil.cpp:254 | the MBR record count is the DWORD difference of the bytes read and 0x1BE, divided by 16; below 0x1BE bytes the subtraction wraps | a boot-sector `ReadFile` that succeeds with fewer than 446 bytes (e.g. 0) gives about 2^28 records, so only the records themselves end the loop; it runs past the 512-byte buffer unless an empty or extended record stops it | no record is visited when the table was not read; at most four for a sector | not executed; a sector read normally returns 512 bytes | FsUtil.AsWrittenShortReadOverruns | FsUtil.PartCount |
