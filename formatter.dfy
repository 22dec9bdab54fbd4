/**
 * FormatOutput: one journal record printed through a user format string.
 *
 * The format is copied character by character. The escape character
 * (`cfg.fmtChr`, '%' by default) starts a directive: the escape written twice
 * prints one escape; the escape as the last character ends the line without a
 * newline; otherwise an optional field width (read with `wcstol`, base 10)
 * and a conversion letter follow. The letters are a (attributes), t (time),
 * s (size), r (reason), p (path), d (directory), f (file name), n (name
 * without extension) and e (extension); any other character is printed as
 * it is. Text fields are padded with spaces on the right up to the width.
 *
 * The padding is applied to one `field` variable that lives across the whole
 * line, and %a and %s do not assign it: they print their own text and then
 * the previous field again, padded to their width. The reason mask is sticky
 * in the same way: once a create/delete-class reason has been printed with
 * %r, later %r directives of the line hide the low byte of reasons too.
 *
 * The specification is a lexer (`LexAt`) and a renderer (`FormatFrom`) over
 * the state (field, reasonMask); the method `FormatOutput` walks the format
 * like the source's pointer loop and is proved to produce the same text.
 */
module Formatter {
  import opened Win32Types
  import opened NtfsTypes
  import opened ReportConfig
  import ReasonCodec

  // ---------------------------------------------------------------------------
  // wcstol(s, &end, 10)

  /** The white space `wcstol` skips before the number. */
  predicate IsSpace(c: char)
  {
    c == ' ' || c == '\t' || c == '\n' || c == '\U{000B}' || c == '\U{000C}' || c == '\r'
  }

  predicate IsDigit(c: char)
  {
    '0' <= c <= '9'
  }

  predicate AllDigits(s: string)
  {
    forall i :: 0 <= i < |s| ==> IsDigit(s[i])
  }

  /** The first position at or after `i` that does not hold white space. */
  function SkipSpaces(s: string, i: nat): (j: nat)
    requires i <= |s|
    ensures i <= j <= |s|
    ensures forall k :: i <= k < j ==> IsSpace(s[k])
    ensures j == |s| || !IsSpace(s[j])
    decreases |s| - i
  {
    if i < |s| && IsSpace(s[i]) then SkipSpaces(s, i + 1) else i
  }

  /** The end of the run of digits that starts at `i`. */
  function DigitsEnd(s: string, i: nat): (j: nat)
    requires i <= |s|
    ensures i <= j <= |s|
    ensures AllDigits(s[i..j])
    ensures j == |s| || !IsDigit(s[j])
    decreases |s| - i
  {
    if i < |s| && IsDigit(s[i]) then DigitsEnd(s, i + 1) else i
  }

  /** The value of a run of decimal digits, most significant first. */
  function DigitsValue(ds: string): nat
    requires AllDigits(ds)
  {
    if ds == [] then 0 else DigitsValue(ds[..|ds| - 1]) * 10 + (ds[|ds| - 1] as int - '0' as int)
  }

  /** A 32-bit `long` saturates: out-of-range values become LONG_MIN or LONG_MAX. */
  function ClampLong(v: int): (r: i32)
    ensures -0x8000_0000 <= v < 0x8000_0000 ==> r == v
    ensures v < -0x8000_0000 ==> r == -0x8000_0000
    ensures v >= 0x8000_0000 ==> r == 0x7FFF_FFFF
  {
    if v < -0x8000_0000 then -0x8000_0000 else if v >= 0x8000_0000 then 0x7FFF_FFFF else v
  }

  /** The value `wcstol` returns and the position it stores through its end pointer. */
  datatype Parsed = Parsed(value: i32, end: nat)

  /**
   * `wcstol(s + i, &end, 10)`: white space, an optional sign, then decimal
   * digits. Without a digit nothing is converted: the value is 0 and the end
   * pointer is the start, before any white space or sign.
   */
  function Wcstol(s: string, i: nat): (p: Parsed)
    requires i <= |s|
    ensures i <= p.end <= |s|
    ensures p.end == i ==> p.value == 0
    ensures p.end > i ==> IsDigit(s[p.end - 1]) && (p.end == |s| || !IsDigit(s[p.end]))
  {
    var j := SkipSpaces(s, i);
    var k := if j < |s| && (s[j] == '-' || s[j] == '+') then j + 1 else j;
    var e := DigitsEnd(s, k);
    if e == k then Parsed(0, i)
    else
      var v: int := DigitsValue(s[k..e]);
      Parsed(ClampLong(if j < k && s[j] == '-' then -v else v), e)
  }

  lemma {:induction false} DigitsValueAppend(ds: string, d: nat)
    requires AllDigits(ds) && d < 10
    ensures AllDigits(ds + [DigitChar(d)])
    ensures DigitsValue(ds + [DigitChar(d)]) == DigitsValue(ds) * 10 + d
  {
    var s := ds + [DigitChar(d)];
    assert s[..|s| - 1] == ds;
    assert s[|s| - 1] as int - '0' as int == d;
  }

  /** Reading back the digits `NatText` writes gives the number. */
  lemma {:induction false} DigitsValueNatText(n: nat)
    ensures AllDigits(NatText(n)) && DigitsValue(NatText(n)) == n
    decreases n
  {
    if n < 10 {
      assert NatText(n) == [] + [DigitChar(n)];
      DigitsValueAppend([], n);
    } else {
      DigitsValueNatText(n / 10);
      DigitsValueAppend(NatText(n / 10), n % 10);
    }
  }

  lemma DigitsEndAt(s: string, i: nat, e: nat)
    requires i <= e <= |s| && AllDigits(s[i..e]) && (e == |s| || !IsDigit(s[e]))
    ensures DigitsEnd(s, i) == e
    decreases e - i
  {
    if i < e {
      assert IsDigit(s[i..e][0]);
      assert s[i + 1..e] == s[i..e][1..];
      DigitsEndAt(s, i + 1, e);
    }
  }

  /** A run of digits after an optional sign, with no white space before it. */
  lemma WcstolDigitsAt(s: string, i: nat, k: nat, e: nat)
    requires i <= k < e <= |s| && !IsSpace(s[i])
    requires k == i || (k == i + 1 && (s[i] == '-' || s[i] == '+'))
    requires !IsDigit(s[i]) ==> k == i + 1
    requires AllDigits(s[k..e]) && (e == |s| || !IsDigit(s[e]))
    ensures Wcstol(s, i)
         == Parsed(ClampLong(if k == i + 1 && s[i] == '-' then -(DigitsValue(s[k..e]) as int) else DigitsValue(s[k..e])), e)
  {
    assert SkipSpaces(s, i) == i;
    DigitsEndAt(s, k, e);
  }

  /**
   * `wcstol` reads back what `std::wcout << n` writes for every `long` `n`,
   * and stops right after it when no digit follows.
   */
  lemma WcstolReadsIntText(s: string, i: nat, n: i32)
    requires i + |IntText(n)| <= |s| && s[i..i + |IntText(n)|] == IntText(n)
    requires i + |IntText(n)| == |s| || !IsDigit(s[i + |IntText(n)|])
    ensures Wcstol(s, i) == Parsed(n, i + |IntText(n)|)
  {
    var m: nat := if n < 0 then -(n as int) else n;
    var digits := NatText(m);
    var e := i + |IntText(n)|;
    DigitsValueNatText(m);
    if n < 0 {
      assert s[i..e] == "-" + digits;
      assert s[i] == s[i..e][0] == '-';
      assert s[i + 1..e] == s[i..e][1..] == digits;
      WcstolDigitsAt(s, i, i + 1, e);
    } else {
      assert s[i..e] == digits;
      assert s[i] == digits[0];
      WcstolDigitsAt(s, i, i, e);
    }
  }

  // ---------------------------------------------------------------------------
  // Path pieces

  /** `find_last_of(c)`, with npos as -1. */
  function LastIndex(s: string, c: char): (r: int)
    ensures -1 <= r < |s|
    ensures r >= 0 ==> s[r] == c && forall k :: r < k < |s| ==> s[k] != c
    ensures r < 0 ==> forall k :: 0 <= k < |s| ==> s[k] != c
  {
    if s == [] then -1 else if s[|s| - 1] == c then |s| - 1 else LastIndex(s[..|s| - 1], c)
  }

  /** %d: the text up to and including the last slash, without its last character. */
  function DirPart(path: string, slash: char): string
  {
    var head := path[..LastIndex(path, slash) + 1];
    if head != [] then head[..|head| - 1] else head
  }

  /** %f: the text after the last slash (the whole path when there is none). */
  function FilePart(path: string, slash: char): string
  {
    path[LastIndex(path, slash) + 1..]
  }

  /** %n: the file part cut at its last dot (whole when there is none). */
  function NamePart(file: string): string
  {
    var k := LastIndex(file, '.');
    if k < 0 then file else file[..k]
  }

  /** %e: the text after the last dot of the whole path, empty when there is none. */
  function ExtPart(path: string): string
  {
    var pos := LastIndex(path, '.');
    if pos >= 0 then path[pos + 1..] else ""
  }

  /** The directory and the file name are the path cut at its last slash. */
  lemma PathSplit(path: string, slash: char)
    ensures slash in path ==> DirPart(path, slash) + [slash] + FilePart(path, slash) == path
    ensures slash !in FilePart(path, slash)
    ensures slash !in path ==> DirPart(path, slash) == "" && FilePart(path, slash) == path
  {
    var k := LastIndex(path, slash);
    if slash in path {
      assert k >= 0;
      assert path == path[..k] + [slash] + path[k + 1..];
    }
  }

  /** The last occurrence in a suffix is the last occurrence in the whole text. */
  lemma LastIndexInSuffix(s: string, m: nat, c: char)
    requires m <= |s| && LastIndex(s[m..], c) >= 0
    ensures LastIndex(s, c) == m + LastIndex(s[m..], c)
  {
    var t := s[m..];
    var d := LastIndex(t, c);
    var r := LastIndex(s, c);
    assert s[m + d] == t[d] == c;
  }

  /**
   * When the file name has a dot, the name, a dot and the extension make up
   * the file name; without one the name is the whole file name. (The
   * extension is taken from the whole path, see `ExtOfDottedDirectory`.)
   */
  lemma NameExtSplit(path: string, slash: char)
    ensures '.' in FilePart(path, slash) ==>
              NamePart(FilePart(path, slash)) + "." + ExtPart(path) == FilePart(path, slash)
    ensures '.' !in FilePart(path, slash) ==> NamePart(FilePart(path, slash)) == FilePart(path, slash)
  {
    var m := LastIndex(path, slash) + 1;
    var f := path[m..];
    if '.' in f {
      var d := LastIndex(f, '.');
      LastIndexInSuffix(path, m, '.');
      assert ExtPart(path) == f[d + 1..];
      assert f == f[..d] + "." + f[d + 1..];
    }
  }

  /** When only a directory name has a dot, %e prints from that dot on, slash included. */
  lemma ExtOfDottedDirectory()
    ensures ExtPart("a.b\\c") == "b\\c"
    ensures NamePart(FilePart("a.b\\c", '\\')) == "c"
  {
    var p := "a.b\\c";
    assert p[0] == 'a' && p[1] == '.' && p[2] == 'b' && p[3] == '\\' && p[4] == 'c';
    assert LastIndex(p, '.') == 1;
    assert LastIndex(p, '\\') == 3;
    assert p[4..] == "c";
    assert LastIndex("c", '.') == -1;
  }

  // ---------------------------------------------------------------------------
  // The format language

  datatype Directive =
    | Literal(c: char)              // a character other than the escape
    | Escape                        // the escape written twice
    | Stop                          // the escape as the last character
    | Field(width: i32, letter: char) // a width and the character after it

  /**
   * The directive at position `i` and the position after it; None when a
   * width runs to the end of the format, where the source reads past the
   * terminating NUL.
   */
  function LexAt(fmtChr: char, fmt: string, i: nat): (r: Option<(Directive, nat)>)
    requires i < |fmt|
    ensures r.Some? ==> i < r.value.1 <= |fmt|
  {
    if fmt[i] != fmtChr then Some((Literal(fmt[i]), i + 1))
    else if i + 1 == |fmt| then Some((Stop, i + 1))
    else if fmt[i + 1] == fmtChr then Some((Escape, i + 2))
    else
      var p := Wcstol(fmt, i + 1);
      if p.end == |fmt| then None
      else Some((Field(if p.end == i + 1 then 0 else p.value, fmt[p.end]), p.end + 1))
  }

  /** Every directive from `i` on is complete. */
  predicate Lexable(fmtChr: char, fmt: string, i: nat)
    decreases |fmt| - i
  {
    i >= |fmt| || (LexAt(fmtChr, fmt, i).Some? && Lexable(fmtChr, fmt, LexAt(fmtChr, fmt, i).value.1))
  }

  /** What lives across the directives of one line. */
  datatype State = State(field: string, reasonMask: bv32)

  const AllReasons: bv32 := 0xFFFF_FFFF

  /** Reasons with a create/delete-class bit (0xF00) hide the low byte from now on. */
  function Narrow(reason: bv32, mask: bv32): (m: bv32)
    ensures m == mask || m == mask & 0xFFFF_FF00
  {
    if reason & 0xF00 != 0 then mask & 0xFFFF_FF00 else mask
  }

  /**
   * The texts a record offers to the format: its attribute letters, its time
   * stamp, its size in a field of a given width, its reason bits and the
   * function that names reason bits, and its path cut into directory, file
   * name, name and extension.
   */
  datatype Pieces = Pieces(
    attributes: string,
    dateTime: string,
    size: int -> string,
    reason: bv32,
    reasonText: bv32 -> string,
    path: string,
    dir: string,
    file: string,
    name: string,
    ext: string)

  function PiecesOf(cfg: ReportCfg, env: TextEnv, rec: JournalRecord): Pieces
  {
    Pieces(Attributes(rec.fileAttr, cfg.dirAttr),
           env.timestamp(rec.timestamp, cfg.dateFmt, cfg.timeFmt),
           (w: int) => env.sizeText(w, rec.length),
           rec.reason,
           ReasonCodec.ReasonText,
           rec.filename,
           DirPart(rec.filename, cfg.slash),
           FilePart(rec.filename, cfg.slash),
           NamePart(FilePart(rec.filename, cfg.slash)),
           ExtPart(rec.filename))
  }

  /**
   * `p` holds the texts of `rec`. The reason names are related to the reason
   * codec only where a reason text is already being computed, so that a
   * proof about the other letters does not unfold the codec.
   */
  ghost predicate Describes(p: Pieces, cfg: ReportCfg, env: TextEnv, rec: JournalRecord)
  {
    && p.attributes == Attributes(rec.fileAttr, cfg.dirAttr)
    && p.dateTime == env.timestamp(rec.timestamp, cfg.dateFmt, cfg.timeFmt)
    && p.size == ((w: int) => env.sizeText(w, rec.length))
    && p.reason == rec.reason
    && (forall x {:trigger ReasonCodec.ReasonText(x)} :: p.reasonText(x) == ReasonCodec.ReasonText(x))
    && p.path == rec.filename
    && p.dir == DirPart(rec.filename, cfg.slash)
    && p.file == FilePart(rec.filename, cfg.slash)
    && p.name == NamePart(FilePart(rec.filename, cfg.slash))
    && p.ext == ExtPart(rec.filename)
  }

  lemma PiecesOfDescribes(cfg: ReportCfg, env: TextEnv, rec: JournalRecord)
    ensures Describes(PiecesOf(cfg, env, rec), cfg, env, rec)
  {
  }

  /** Prints `before`, then the field padded to the width; the padded field is kept. */
  function Show(before: string, field: string, width: int, mask: bv32): (string, State)
  {
    var padded := PadRight(field, width);
    (before + padded, State(padded, mask))
  }

  /** The letters that print a field; any other character after the width is printed as it is. */
  predicate IsConversion(letter: char)
  {
    letter in "atsrpdfne"
  }

  /** What %a and %s print before the field; the other letters print nothing before it. */
  function Prefix(p: Pieces, width: i32, letter: char): string
  {
    if letter == 'a' then PadLeft(p.attributes, 4)
    else if letter == 's' then p.size(width)
    else ""
  }

  /** The value a text letter assigns to the field, under the reason mask `mask`; "" for the others. */
  function TextOf(p: Pieces, letter: char, mask: bv32): string
  {
    if letter == 't' then p.dateTime
    else if letter == 'r' then p.reasonText(p.reason & mask)
    else if letter == 'p' then p.path
    else if letter == 'd' then p.dir
    else if letter == 'f' then p.file
    else if letter == 'n' then p.name
    else if letter == 'e' then p.ext
    else ""
  }

  /**
   * The text a conversion letter prints and the state it leaves: %r first
   * narrows the mask; %a and %s keep the previous field, the other letters
   * assign theirs; the field is padded and printed after the prefix.
   */
  function Conversion(p: Pieces, width: i32, letter: char, st: State): (string, State)
  {
    if IsConversion(letter) then
      var mask := if letter == 'r' then Narrow(p.reason, st.reasonMask) else st.reasonMask;
      var field := if letter == 'a' || letter == 's' then st.field else TextOf(p, letter, mask);
      Show(Prefix(p, width, letter), field, width, mask)
    else ([letter], st)
  }

  /** The text printed for the format from position `i` on, in state `st`. */
  function FormatFrom(p: Pieces, fmtChr: char, fmt: string, i: nat, st: State): string
    requires Lexable(fmtChr, fmt, i)
    decreases |fmt| - i
  {
    if i >= |fmt| then "\n"
    else
      var (d, next) := LexAt(fmtChr, fmt, i).value;
      match d
      case Stop => ""
      case Literal(c) => [c] + FormatFrom(p, fmtChr, fmt, next, st)
      case Escape => [fmtChr] + FormatFrom(p, fmtChr, fmt, next, st)
      case Field(w, letter) =>
        var (text, st') := Conversion(p, w, letter, st);
        text + FormatFrom(p, fmtChr, fmt, next, st')
  }

  /** The line printed for a record; None when the format makes the source read past its end. */
  function Formatted(cfg: ReportCfg, env: TextEnv, rec: JournalRecord): Option<string>
    requires cfg.outputFmt.Some?
  {
    if Lexable(cfg.fmtChr, cfg.outputFmt.value, 0) then
      Some(FormatFrom(PiecesOf(cfg, env, rec), cfg.fmtChr, cfg.outputFmt.value, 0, State("", AllReasons)))
    else None
  }

  // ---------------------------------------------------------------------------
  // The method

  /** The switch on the conversion letter, with the padding loop. */
  method WriteField(cfg: ReportCfg, env: TextEnv, rec: JournalRecord, ghost p: Pieces, dateTime: string,
                    fieldWidth: i32, letter: char, field0: string, mask0: bv32)
    returns (text: string, field: string, reasonMask: bv32)
    requires Describes(p, cfg, env, rec) && dateTime == p.dateTime
    ensures (text, State(field, reasonMask)) == Conversion(p, fieldWidth, letter, State(field0, mask0))
  {
    if !IsConversion(letter) {
      text, field, reasonMask := [letter], field0, mask0;
      return;
    }
    text, field, reasonMask := SelectField(cfg, env, rec, p, dateTime, fieldWidth, letter, field0, mask0);
    field := PadField(field, fieldWidth);
    text := text + field;
  }

  /** The cases of the switch: what is printed before the field, and the field's new value. */
  method SelectField(cfg: ReportCfg, env: TextEnv, rec: JournalRecord, ghost p: Pieces, dateTime: string,
                     fieldWidth: i32, letter: char, field0: string, mask0: bv32)
    returns (text: string, field: string, reasonMask: bv32)
    requires Describes(p, cfg, env, rec) && dateTime == p.dateTime && IsConversion(letter)
    ensures reasonMask == if letter == 'r' then Narrow(p.reason, mask0) else mask0
    ensures text == Prefix(p, fieldWidth, letter)
    ensures field == if letter == 'a' || letter == 's' then field0 else TextOf(p, letter, reasonMask)
  {
    field, reasonMask := field0, mask0;
    text := "";
    if letter == 'a' {
      text := PadLeft(Attributes(rec.fileAttr, cfg.dirAttr), 4);
    } else if letter == 't' {
      field := dateTime;
    } else if letter == 's' {
      text := env.sizeText(fieldWidth, rec.length);
    } else if letter == 'r' {
      field, reasonMask := ReasonField(rec, reasonMask);
    } else if letter == 'p' {
      field := rec.filename;
    } else if letter == 'd' {
      field := DirPart(rec.filename, cfg.slash);
    } else if letter == 'f' {
      field := FilePart(rec.filename, cfg.slash);
    } else if letter == 'n' {
      field := NamePart(FilePart(rec.filename, cfg.slash));
    } else {
      field := ExtPart(rec.filename);
    }
  }

  /** The %r case: a create/delete-class reason narrows the mask, then the reasons left are named. */
  method ReasonField(rec: JournalRecord, mask0: bv32) returns (field: string, reasonMask: bv32)
    ensures reasonMask == Narrow(rec.reason, mask0)
    ensures field == ReasonCodec.ReasonText(rec.reason & reasonMask)
  {
    reasonMask := mask0;
    if rec.reason & 0xF00 != 0 {
      reasonMask := reasonMask & 0xFFFF_FF00;
    }
    field := ReasonCodec.GetReasonString(rec.reason & reasonMask);
  }

  /** The padding loop: spaces are appended while the field is shorter than the width. */
  method PadField(field0: string, fieldWidth: i32) returns (field: string)
    ensures field == PadRight(field0, fieldWidth)
  {
    field := field0;
    while |field| < fieldWidth
      invariant |field0| <= |field|
      invariant field == PadRight(field0, |field|)
      invariant |field| <= fieldWidth || field == field0
      decreases fieldWidth - |field|
    {
      field := field + " ";
    }
  }

  /**
   * Prints one record through `cfg.outputFmt`. The format must not end inside
   * a width (the source would read past its end).
   */
  method FormatOutput(cfg: ReportCfg, env: TextEnv, rec: JournalRecord) returns (out: string)
    requires cfg.outputFmt.Some? && Lexable(cfg.fmtChr, cfg.outputFmt.value, 0)
    ensures Formatted(cfg, env, rec) == Some(out)
  {
    var fmt := cfg.outputFmt.value;
    var dateTime := env.timestamp(rec.timestamp, cfg.dateFmt, cfg.timeFmt);
    ghost var p := PiecesOf(cfg, env, rec);
    PiecesOfDescribes(cfg, env, rec);
    ghost var whole := FormatFrom(p, cfg.fmtChr, fmt, 0, State("", AllReasons));
    var field := "";
    var reasonMask := AllReasons;
    out := "";
    var i := 0;
    while i < |fmt|
      invariant i <= |fmt| && Lexable(cfg.fmtChr, fmt, i)
      invariant out + FormatFrom(p, cfg.fmtChr, fmt, i, State(field, reasonMask)) == whole
      decreases |fmt| - i
    {
      var text, next, stop;
      ghost var rest := FormatFrom(p, cfg.fmtChr, fmt, i, State(field, reasonMask));
      text, next, stop, field, reasonMask := WriteDirective(cfg, env, rec, p, dateTime, i, field, reasonMask);
      if stop {
        assert out + "" == out;
        return;
      }
      assert (out + text) + FormatFrom(p, cfg.fmtChr, fmt, next, State(field, reasonMask)) == out + rest;
      out := out + text;
      i := next;
    }
    EndStep(p, cfg.fmtChr, fmt, i, State(field, reasonMask));
    out := out + "\n";
    assert out == whole;
  }

  /**
   * One pass of the loop body at position `i` of the format: the text
   * printed, where the next directive starts, and whether the line stops
   * here (an escape as the last character).
   */
  method WriteDirective(cfg: ReportCfg, env: TextEnv, rec: JournalRecord, ghost p: Pieces, dateTime: string,
                        i: nat, field0: string, mask0: bv32)
    returns (text: string, next: nat, stop: bool, field: string, reasonMask: bv32)
    requires cfg.outputFmt.Some? && i < |cfg.outputFmt.value| && Lexable(cfg.fmtChr, cfg.outputFmt.value, i)
    requires Describes(p, cfg, env, rec) && dateTime == p.dateTime
    ensures i < next <= |cfg.outputFmt.value|
    ensures stop ==> FormatFrom(p, cfg.fmtChr, cfg.outputFmt.value, i, State(field0, mask0)) == ""
    ensures !stop ==> Lexable(cfg.fmtChr, cfg.outputFmt.value, next)
                      && FormatFrom(p, cfg.fmtChr, cfg.outputFmt.value, i, State(field0, mask0))
                         == text + FormatFrom(p, cfg.fmtChr, cfg.outputFmt.value, next, State(field, reasonMask))
  {
    var fmt := cfg.outputFmt.value;
    ghost var st := State(field0, mask0);
    field, reasonMask, stop := field0, mask0, false;
    if fmt[i] == cfg.fmtChr {
      if i + 1 == |fmt| {
        StopStep(p, cfg.fmtChr, fmt, i, st);
        text, next, stop := "", i + 1, true;
      } else if fmt[i + 1] == cfg.fmtChr {
        EscapeStep(p, cfg.fmtChr, fmt, i, st);
        text, next := [cfg.fmtChr], i + 2;
      } else {
        text, next, field, reasonMask := FieldDirective(cfg, env, rec, p, dateTime, i, field0, mask0);
      }
    } else {
      LiteralStep(p, cfg.fmtChr, fmt, i, st);
      text, next := [fmt[i]], i + 1;
    }
  }

  /** An escape followed by a width and a letter: the width is read with `wcstol`, 0 when absent. */
  method FieldDirective(cfg: ReportCfg, env: TextEnv, rec: JournalRecord, ghost p: Pieces, dateTime: string,
                        i: nat, field0: string, mask0: bv32)
    returns (text: string, next: nat, field: string, reasonMask: bv32)
    requires cfg.outputFmt.Some? && i + 1 < |cfg.outputFmt.value| && Lexable(cfg.fmtChr, cfg.outputFmt.value, i)
    requires cfg.outputFmt.value[i] == cfg.fmtChr && cfg.outputFmt.value[i + 1] != cfg.fmtChr
    requires Describes(p, cfg, env, rec) && dateTime == p.dateTime
    ensures i < next <= |cfg.outputFmt.value| && Lexable(cfg.fmtChr, cfg.outputFmt.value, next)
    ensures FormatFrom(p, cfg.fmtChr, cfg.outputFmt.value, i, State(field0, mask0))
            == text + FormatFrom(p, cfg.fmtChr, cfg.outputFmt.value, next, State(field, reasonMask))
  {
    var fmt := cfg.outputFmt.value;
    FieldStep(p, cfg.fmtChr, fmt, i, State(field0, mask0));
    var parsed := Wcstol(fmt, i + 1);
    var fieldWidth := parsed.value;
    if parsed.end == i + 1 {
      fieldWidth := 0;
    }
    text, field, reasonMask := WriteField(cfg, env, rec, p, dateTime, fieldWidth, fmt[parsed.end], field0, mask0);
    next := parsed.end + 1;
  }

  // The steps of FormatFrom, one per kind of directive.

  lemma LiteralStep(p: Pieces, fmtChr: char, fmt: string, i: nat, st: State)
    requires i < |fmt| && fmt[i] != fmtChr && Lexable(fmtChr, fmt, i)
    ensures Lexable(fmtChr, fmt, i + 1)
    ensures FormatFrom(p, fmtChr, fmt, i, st) == [fmt[i]] + FormatFrom(p, fmtChr, fmt, i + 1, st)
  {
  }

  lemma StopStep(p: Pieces, fmtChr: char, fmt: string, i: nat, st: State)
    requires i + 1 == |fmt| && fmt[i] == fmtChr
    ensures Lexable(fmtChr, fmt, i)
    ensures FormatFrom(p, fmtChr, fmt, i, st) == ""
  {
  }

  lemma EscapeStep(p: Pieces, fmtChr: char, fmt: string, i: nat, st: State)
    requires i + 1 < |fmt| && fmt[i] == fmtChr && fmt[i + 1] == fmtChr && Lexable(fmtChr, fmt, i)
    ensures Lexable(fmtChr, fmt, i + 2)
    ensures FormatFrom(p, fmtChr, fmt, i, st) == [fmtChr] + FormatFrom(p, fmtChr, fmt, i + 2, st)
  {
  }

  lemma FieldStep(p: Pieces, fmtChr: char, fmt: string, i: nat, st: State)
    requires i + 1 < |fmt| && fmt[i] == fmtChr && fmt[i + 1] != fmtChr && Lexable(fmtChr, fmt, i)
    ensures Wcstol(fmt, i + 1).end < |fmt|
    ensures var q := Wcstol(fmt, i + 1);
            var c := Conversion(p, if q.end == i + 1 then 0 else q.value, fmt[q.end], st);
            && Lexable(fmtChr, fmt, q.end + 1)
            && FormatFrom(p, fmtChr, fmt, i, st) == c.0 + FormatFrom(p, fmtChr, fmt, q.end + 1, c.1)
  {
    var q := Wcstol(fmt, i + 1);
    assert LexAt(fmtChr, fmt, i) == Some((Field(if q.end == i + 1 then 0 else q.value, fmt[q.end]), q.end + 1));
  }

  lemma EndStep(p: Pieces, fmtChr: char, fmt: string, i: nat, st: State)
    requires i == |fmt|
    ensures FormatFrom(p, fmtChr, fmt, i, st) == "\n"
  {
  }

  // ---------------------------------------------------------------------------
  // Properties of the format language

  /** A format without the escape is printed as it is, followed by one newline. */
  lemma {:induction false} PlainTextCopied(p: Pieces, fmtChr: char, fmt: string, i: nat, st: State)
    requires i <= |fmt|
    requires forall k :: i <= k < |fmt| ==> fmt[k] != fmtChr
    ensures Lexable(fmtChr, fmt, i)
    ensures FormatFrom(p, fmtChr, fmt, i, st) == fmt[i..] + "\n"
    decreases |fmt| - i
  {
    if i < |fmt| {
      PlainTextCopied(p, fmtChr, fmt, i + 1, st);
      assert fmt[i..] == [fmt[i]] + fmt[i + 1..];
    }
  }

  /** A format that ends with a lone escape ends the line there, without a newline. */
  lemma TrailingEscapeNoNewline(p: Pieces, fmtChr: char, text: string, st: State)
    requires forall k :: 0 <= k < |text| ==> text[k] != fmtChr
    ensures Lexable(fmtChr, text + [fmtChr], 0)
    ensures FormatFrom(p, fmtChr, text + [fmtChr], 0, st) == text
  {
    var fmt := text + [fmtChr];
    var i := |text|;
    assert LexAt(fmtChr, fmt, i) == Some((Stop, i + 1));
    assert FormatFrom(p, fmtChr, fmt, i, st) == "";
    while i > 0
      invariant 0 <= i <= |text|
      invariant Lexable(fmtChr, fmt, i)
      invariant FormatFrom(p, fmtChr, fmt, i, st) == text[i..]
    {
      i := i - 1;
      assert LexAt(fmtChr, fmt, i) == Some((Literal(text[i]), i + 1));
      assert text[i..] == [text[i]] + text[i + 1..];
    }
  }

  /** The escape written twice prints one escape and changes nothing else. */
  lemma DoubledEscape(p: Pieces, fmtChr: char, fmt: string, i: nat, st: State)
    requires i + 1 < |fmt| && fmt[i] == fmtChr && fmt[i + 1] == fmtChr
    requires Lexable(fmtChr, fmt, i + 2)
    ensures Lexable(fmtChr, fmt, i)
    ensures FormatFrom(p, fmtChr, fmt, i, st) == [fmtChr] + FormatFrom(p, fmtChr, fmt, i + 2, st)
  {
    assert LexAt(fmtChr, fmt, i) == Some((Escape, i + 2));
  }

  /** A character right after the escape that cannot start a number gets width 0. */
  lemma NoWidthIsZero(fmtChr: char, fmt: string, i: nat)
    requires i + 1 < |fmt| && fmt[i] == fmtChr && fmt[i + 1] != fmtChr
    requires !IsSpace(fmt[i + 1]) && !IsDigit(fmt[i + 1]) && fmt[i + 1] != '-' && fmt[i + 1] != '+'
    ensures LexAt(fmtChr, fmt, i) == Some((Field(0, fmt[i + 1]), i + 2))
  {
    assert SkipSpaces(fmt, i + 1) == i + 1;
    assert DigitsEnd(fmt, i + 1) == i + 1;
  }

  /** A width written as `std::wcout << n` writes it is read back exactly. */
  lemma WidthReadBack(fmtChr: char, fmt: string, i: nat, n: i32)
    requires fmtChr != '-' && !IsDigit(fmtChr)
    requires i + 1 + |IntText(n)| < |fmt| && fmt[i] == fmtChr
    requires fmt[i + 1..i + 1 + |IntText(n)|] == IntText(n) && !IsDigit(fmt[i + 1 + |IntText(n)|])
    ensures LexAt(fmtChr, fmt, i)
         == Some((Field(n, fmt[i + 1 + |IntText(n)|]), i + 2 + |IntText(n)|))
  {
    assert fmt[i + 1] == IntText(n)[0];
    WcstolReadsIntText(fmt, i + 1, n);
  }

  /**
   * A text letter prints its value padded with spaces on the right to the
   * width, never cut, and that padded value becomes the field.
   */
  lemma TextFieldPadded(p: Pieces, width: i32, letter: char, st: State)
    requires IsConversion(letter) && letter != 'a' && letter != 's'
    ensures var mask := if letter == 'r' then Narrow(p.reason, st.reasonMask) else st.reasonMask;
            var padded := PadRight(TextOf(p, letter, mask), width);
            Conversion(p, width, letter, st) == (padded, State(padded, mask))
  {
    var mask := if letter == 'r' then Narrow(p.reason, st.reasonMask) else st.reasonMask;
    var padded := PadRight(TextOf(p, letter, mask), width);
    assert Prefix(p, width, letter) + padded == padded;
  }

  /** %a and %s print their own text, then the previous field again, padded to their width. */
  lemma StaleFieldReprinted(p: Pieces, width: i32, st: State)
    ensures Conversion(p, width, 'a', st)
         == (PadLeft(p.attributes, 4) + PadRight(st.field, width), State(PadRight(st.field, width), st.reasonMask))
    ensures Conversion(p, width, 's', st)
         == (p.size(width) + PadRight(st.field, width), State(PadRight(st.field, width), st.reasonMask))
  {
  }

  /** Any other character after the width is printed as it is, without padding. */
  lemma UnknownLetterEchoed(p: Pieces, width: i32, letter: char, st: State)
    requires letter !in "atsrpdfne"
    ensures Conversion(p, width, letter, st) == ([letter], st)
  {
  }

  /**
   * After %r has met a create/delete-class reason, the low byte stays hidden
   * for the rest of the line, whatever reasons follow.
   */
  lemma ReasonMaskSticky(r1: bv32, r2: bv32, mask: bv32)
    requires r1 & 0xF00 != 0
    ensures Narrow(r1, mask) & 0xFF == 0
    ensures Narrow(r2, Narrow(r1, mask)) == Narrow(r1, mask)
    ensures r2 & Narrow(r2, Narrow(r1, mask)) & 0xFF == 0
  {
  }
}
