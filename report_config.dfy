/**
 * The report configuration shared by the lister's output functions, and the
 * text sources the report uses but does not compute itself.
 *
 * Both copies of the report code (the command-line program and the
 * `Ntfs_Journal` library) use the same structure; the library's copy has two
 * more flags, getFileLength and getFullPath, which the program's copy lacks
 * (it always uses GetJournal's defaults false and true).
 */
module ReportConfig {
  import opened Win32Types
  import FsFilter

  /** Which records the report shows. */
  datatype ShowFilter = ShowAll | ShowDir | ShowFile

  datatype ReportCfg = ReportCfg(
    filter: seq<FsFilter.Match>,
    startUsn: u64,
    reasonFilter: bv32,
    showDetail: bool,
    showFilter: ShowFilter,
    usn: bool,
    modifyTime: bool,
    size: bool,
    attribute: bool,
    directory: bool,
    name: bool,
    reason: bool,
    reasonMergeAll: bool,
    getFileLength: bool,
    getFullPath: bool,
    slash: char,
    fmtChr: char,
    dirAttr: string,
    separator: string,
    dateFmt: string,
    timeFmt: string,
    /** None stands for a NULL format: the column report is used. */
    outputFmt: Option<string>)

  /** The values the constructor installs. */
  function DefaultCfg(): (cfg: ReportCfg)
    ensures cfg.filter == [] && cfg.startUsn == 0 && cfg.reasonFilter == 0
    ensures !cfg.showDetail && cfg.showFilter == ShowAll
    ensures !cfg.usn && !cfg.modifyTime && !cfg.size && !cfg.attribute
    ensures cfg.directory && cfg.name && !cfg.reason && !cfg.reasonMergeAll
    ensures !cfg.getFileLength && cfg.getFullPath
    ensures cfg.slash == '\\' && cfg.fmtChr == '%' && cfg.dirAttr == "D" && cfg.separator == " "
    ensures cfg.dateFmt == "dd-MMM-yyyy" && cfg.timeFmt == "HH:mm" && cfg.outputFmt == None
  {
    ReportCfg([], 0, 0, false, ShowAll, false, false, false, false, true, true, false, false,
              false, true, '\\', '%', "D", " ", "dd-MMM-yyyy", "HH:mm", None)
  }

  /**
   * Text the report prints but does not compute: the time stamp rendered with
   * the date and time formats (GetTimestamp), and the size rendered with
   * locale digit grouping in a field of the given width (LocaleFmt::snprintf
   * with "%*lld"; the column report uses width 0, i.e. "%lld").
   */
  datatype TextEnv = TextEnv(
    timestamp: (i64, string, string) -> string,
    sizeText: (int, i64) -> string)

  // File attribute bits the report decodes.
  const AttrReadOnly: bv32 := 0x01
  const AttrHidden: bv32 := 0x02
  const AttrSystem: bv32 := 0x04
  const AttrDir: bv32 := 0x10

  /** The attribute letters: the directory text, then S, H and R, for the bits that are set. */
  function Attributes(attr: bv32, dirAttr: string): (r: string)
    ensures r == (if attr & AttrDir != 0 then dirAttr else "")
                 + (if attr & AttrSystem != 0 then "S" else "")
                 + (if attr & AttrHidden != 0 then "H" else "")
                 + (if attr & AttrReadOnly != 0 then "R" else "")
  {
    var d := if attr & AttrDir != 0 then dirAttr else "";
    var s := if attr & AttrSystem != 0 then "S" else "";
    var h := if attr & AttrHidden != 0 then "H" else "";
    var ro := if attr & AttrReadOnly != 0 then "R" else "";
    d + s + h + ro
  }

  function Spaces(n: nat): (r: string)
    ensures |r| == n && forall i :: 0 <= i < n ==> r[i] == ' '
  {
    if n == 0 then "" else Spaces(n - 1) + " "
  }

  /** `std::setw(w) << s`: right-justified in a field of `w` characters, never cut. */
  function PadLeft(s: string, w: int): (r: string)
    ensures |r| == if |s| < w then w else |s|
    ensures r[|r| - |s|..] == s
    ensures forall i :: 0 <= i < |r| - |s| ==> r[i] == ' '
  {
    if |s| < w then Spaces(w - |s|) + s else s
  }

  /** Appending spaces until the text is `w` characters long; never cut. */
  function PadRight(s: string, w: int): (r: string)
    ensures |r| == if |s| < w then w else |s|
    ensures r[..|s|] == s
    ensures forall i :: |s| <= i < |r| ==> r[i] == ' '
  {
    if |s| < w then s + Spaces(w - |s|) else s
  }

  function DigitChar(d: nat): char
    requires d < 10
  {
    "0123456789"[d]
  }

  /** The decimal digits of a natural number, most significant first, without leading zeros. */
  function NatText(n: nat): (r: string)
    ensures |r| >= 1 && forall i :: 0 <= i < |r| ==> '0' <= r[i] <= '9'
    decreases n
  {
    if n < 10 then [DigitChar(n)] else NatText(n / 10) + [DigitChar(n % 10)]
  }

  /** What `std::wcout << n` prints for a 64-bit integer. */
  function IntText(n: int): string
  {
    if n < 0 then "-" + NatText(-n) else NatText(n)
  }
}
