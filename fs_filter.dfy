/**
 * The filter chain applied to journal records: the single-rule and
 * multi-rule filters, the date, name and size predicates, and the tests
 * they are built with.
 *
 * Every predicate returns "test result == matchOn", so a rule built with
 * matchOn = false selects exactly the records the same rule with
 * matchOn = true rejects.
 */
module FsFilter {
  import opened Win32Types
  import opened NtfsTypes
  import FsTime
  import Pattern

  // ---------------------------------------------------------------------------
  // Tests.

  /** The date tests a MatchDate can be built with. */
  datatype DateTest = DateModifyGreater | DateModifyEqual | DateModifyLess

  /** The wildcard tests a pattern MatchName can be built with. */
  datatype PatTest = NameIcase | Name

  /** The size tests a MatchSize can be built with. */
  datatype SizeTest = SizeGreater | SizeEqual | SizeLess

  /**
   * The regular-expression engine, supplied by the caller: whether the whole
   * name matches the expression.
   */
  type RegexEngine = (string, string) -> bool

  /** The 64-bit unsigned value of a FILETIME. */
  function Ticks(ft: FsTime.FileTime): u64
  {
    ft.high * Two32 + ft.low
  }

  /**
   * CompareFileTime: -1, 0 or 1 as the first FILETIME is earlier than, equal
   * to or later than the second, comparing the high DWORDs first.
   */
  function CompareFileTime(a: FsTime.FileTime, b: FsTime.FileTime): (r: int)
    ensures r == -1 <==> Ticks(a) < Ticks(b)
    ensures r == 0 <==> a == b
    ensures r == 1 <==> Ticks(a) > Ticks(b)
  {
    TicksOrder(a, b);
    if a.high < b.high then -1
    else if a.high > b.high then 1
    else if a.low < b.low then -1
    else if a.low > b.low then 1
    else 0
  }

  lemma TicksOrder(a: FsTime.FileTime, b: FsTime.FileTime)
    ensures a.high < b.high ==> Ticks(a) < Ticks(b)
    ensures a.high == b.high ==> Ticks(a) - Ticks(b) == a.low - b.low
  {
    if a.high < b.high {
      assert a.high * Two32 + Two32 <= b.high * Two32;
    }
  }

  /** The journal time stamp (a LARGE_INTEGER) read through a FILETIME pointer. */
  function StampAsFileTime(stamp: i64): (ft: FsTime.FileTime)
    ensures Ticks(ft) == stamp % Two64
  {
    FsTime.Split(stamp)
  }

  predicate IsDateModifyGreater(stamp: i64, known: FsTime.FileTime)
  {
    CompareFileTime(StampAsFileTime(stamp), known) > 0
  }

  predicate IsDateModifyEqual(stamp: i64, known: FsTime.FileTime)
  {
    CompareFileTime(StampAsFileTime(stamp), known) == 0
  }

  predicate IsDateModifyLess(stamp: i64, known: FsTime.FileTime)
  {
    CompareFileTime(StampAsFileTime(stamp), known) < 0
  }

  /** The part of a wide string that a C-string reader sees: up to the first NUL. */
  function CStr(s: string): (r: string)
    ensures Pattern.NoNul(r)
    ensures r <= s
    ensures |r| < |s| ==> s[|r|] == 0 as char
  {
    if s == [] || s[0] == 0 as char then [] else [s[0]] + CStr(s[1..])
  }

  /** IsNameIcase(name, pattern): the wildcard matcher with the pattern first. */
  predicate IsNameIcase(name: string, pattern: string)
  {
    Pattern.Matches(CStr(pattern), CStr(name))
  }

  /** IsName(name, pattern): the case-sensitive entry point of the same matcher. */
  predicate IsName(name: string, pattern: string)
  {
    Pattern.Matches(CStr(pattern), CStr(name))
  }

  /** IsGrepIcase: a whole-string match of the expression. */
  predicate IsGrepIcase(engine: RegexEngine, name: string, regPattern: string)
  {
    engine(name, regPattern)
  }

  predicate IsSizeGreater(size: i64, knownSize: i64)
  {
    size > knownSize
  }

  predicate IsSizeEqual(size: i64, knownSize: i64)
  {
    size == knownSize
  }

  predicate IsSizeLess(size: i64, knownSize: i64)
  {
    size < knownSize
  }

  // ---------------------------------------------------------------------------
  // Match rules.

  /** One rule of a filter. */
  datatype Match =
    | MatchDate(fileTime: FsTime.FileTime, dateTest: DateTest, matchOn: bool)
    | MatchNamePattern(name: string, patTest: PatTest, matchOn: bool)
    | MatchNameRegex(regPat: string, matchOn: bool)
    | MatchSize(size: i64, sizeTest: SizeTest, matchOn: bool)

  /** MatchDate's constructor, with its default test and matchOn. */
  function NewMatchDate(fileTime: FsTime.FileTime, test: DateTest := DateModifyGreater, matchOn: bool := true): (m: Match)
    ensures m.MatchDate? && m.fileTime == fileTime && m.dateTest == test && m.matchOn == matchOn
  {
    MatchDate(fileTime, test, matchOn)
  }

  /** MatchName's wildcard constructor, with its default test and matchOn. */
  function NewMatchName(name: string, test: PatTest := NameIcase, matchOn: bool := true): (m: Match)
    ensures m.MatchNamePattern? && m.name == name && m.patTest == test && m.matchOn == matchOn
  {
    MatchNamePattern(name, test, matchOn)
  }

  /** MatchName's regular-expression constructor, with its default matchOn. */
  function NewMatchRegex(regPat: string, matchOn: bool := true): (m: Match)
    ensures m.MatchNameRegex? && m.regPat == regPat && m.matchOn == matchOn
  {
    MatchNameRegex(regPat, matchOn)
  }

  /** MatchSize's constructor, with its default test and matchOn. */
  function NewMatchSize(size: i64, test: SizeTest := SizeGreater, matchOn: bool := true): (m: Match)
    ensures m.MatchSize? && m.size == size && m.sizeTest == test && m.matchOn == matchOn
  {
    MatchSize(size, test, matchOn)
  }

  /** The outcome of a rule's test before it is compared with matchOn. */
  predicate TestOf(m: Match, rec: JournalRecord, engine: RegexEngine)
  {
    match m
    case MatchDate(ft, test, _) =>
      (match test
       case DateModifyGreater => IsDateModifyGreater(rec.timestamp, ft)
       case DateModifyEqual => IsDateModifyEqual(rec.timestamp, ft)
       case DateModifyLess => IsDateModifyLess(rec.timestamp, ft))
    case MatchNamePattern(name, test, _) =>
      (match test
       case NameIcase => IsNameIcase(rec.filename, name)
       case Name => IsName(rec.filename, name))
    case MatchNameRegex(regPat, _) => IsGrepIcase(engine, rec.filename, regPat)
    case MatchSize(size, test, _) =>
      (match test
       case SizeGreater => IsSizeGreater(rec.length, size)
       case SizeEqual => IsSizeEqual(rec.length, size)
       case SizeLess => IsSizeLess(rec.length, size))
  }

  /** Match::IsMatch: the test's outcome equals matchOn. */
  predicate IsMatch(m: Match, rec: JournalRecord, engine: RegexEngine)
  {
    TestOf(m, rec, engine) == m.matchOn
  }

  // ---------------------------------------------------------------------------
  // Single-rule filter.

  /** OneFilter: holds at most one rule. */
  datatype OneFilter = OneFilter(rule: Option<Match>)
  {
    predicate IsValid()
    {
      rule.Some?
    }

    /** IsMatch dereferences the rule, so the filter must hold one. */
    function IsMatchOne(rec: JournalRecord, engine: RegexEngine): (r: bool)
      requires IsValid()
      ensures r == IsMatch(rule.value, rec, engine)
    {
      IsMatch(rule.value, rec, engine)
    }

    function SetMatch(m: Match): (f: OneFilter)
      ensures f.IsValid()
      ensures forall rec, engine :: f.IsMatchOne(rec, engine) == IsMatch(m, rec, engine)
    {
      OneFilter(Some(m))
    }
  }

  // ---------------------------------------------------------------------------
  // Multi-rule filter.

  /** All rules of the list hold, checked from the front. */
  predicate AllMatch(rules: seq<Match>, rec: JournalRecord, engine: RegexEngine)
  {
    rules == [] || (IsMatch(rules[0], rec, engine) && AllMatch(rules[1..], rec, engine))
  }

  /** MultiFilter: a list of rules that must all hold. */
  class MultiFilter {
    var testList: seq<Match>

    constructor()
      ensures testList == []
    {
      testList := [];
    }

    constructor FromList(matchList: seq<Match>)
      ensures testList == matchList
    {
      testList := matchList;
    }

    method SetMatch(matchList: seq<Match>)
      modifies this
      ensures testList == matchList
    {
      testList := matchList;
    }

    /** List().push_back(m). */
    method Add(m: Match)
      modifies this
      ensures testList == old(testList) + [m]
    {
      testList := testList + [m];
    }

    /**
     * The rules are tried in list order and the first one that fails ends the
     * scan; `consulted` counts the rules that were evaluated.
     */
    method IsMatchAll(rec: JournalRecord, engine: RegexEngine) returns (b: bool, ghost consulted: nat)
      ensures b == AllMatch(testList, rec, engine)
      ensures b ==> consulted == |testList|
      ensures !b ==> 0 < consulted <= |testList| && !IsMatch(testList[consulted - 1], rec, engine)
      ensures forall j :: 0 <= j < consulted - 1 ==> IsMatch(testList[j], rec, engine)
    {
      var mIdx := 0;
      consulted := 0;
      while mIdx < |testList|
        invariant mIdx <= |testList| && consulted == mIdx
        invariant forall j :: 0 <= j < mIdx ==> IsMatch(testList[j], rec, engine)
      {
        consulted := mIdx + 1;
        if !IsMatch(testList[mIdx], rec, engine) {
          AllMatchEvery(testList, rec, engine);
          return false, consulted;
        }
        mIdx := mIdx + 1;
      }
      AllMatchEvery(testList, rec, engine);
      return true, consulted;
    }

    function IsValid(): (r: bool)
      reads this
      ensures r <==> exists m :: m in testList
    {
      assert |testList| != 0 ==> testList[0] in testList;
      |testList| != 0
    }
  }

  // ---------------------------------------------------------------------------
  // Properties.

  /** The chain holds exactly when every rule holds; the empty chain holds for every record. */
  lemma {:induction false} AllMatchEvery(rules: seq<Match>, rec: JournalRecord, engine: RegexEngine)
    ensures AllMatch(rules, rec, engine) <==> forall j :: 0 <= j < |rules| ==> IsMatch(rules[j], rec, engine)
    decreases |rules|
  {
    if rules != [] {
      AllMatchEvery(rules[1..], rec, engine);
      assert forall j :: 1 <= j < |rules| ==> rules[j] == rules[1..][j - 1];
    }
  }

  /** Adding a rule narrows the chain: it holds iff the old chain and the new rule hold. */
  lemma AddNarrows(rules: seq<Match>, m: Match, rec: JournalRecord, engine: RegexEngine)
    ensures AllMatch(rules + [m], rec, engine) <==> AllMatch(rules, rec, engine) && IsMatch(m, rec, engine)
  {
    var all := rules + [m];
    AllMatchEvery(all, rec, engine);
    AllMatchEvery(rules, rec, engine);
    assert all[|rules|] == m;
    assert forall j :: 0 <= j < |rules| ==> all[j] == rules[j];
  }

  /** matchOn = false is the exact negation of the same rule with matchOn = true. */
  lemma MatchOnNegates(m: Match, rec: JournalRecord, engine: RegexEngine)
    ensures IsMatch(m.(matchOn := false), rec, engine) == !IsMatch(m.(matchOn := true), rec, engine)
  {
  }

  /** Date rules look at the time stamp only, name rules at the name only, size rules at the length only. */
  lemma RuleReadsOneField(m: Match, r1: JournalRecord, r2: JournalRecord, engine: RegexEngine)
    requires m.MatchDate? ==> r1.timestamp == r2.timestamp
    requires m.MatchNamePattern? || m.MatchNameRegex? ==> r1.filename == r2.filename
    requires m.MatchSize? ==> r1.length == r2.length
    ensures IsMatch(m, r1, engine) == IsMatch(m, r2, engine)
  {
  }

  /** Exactly one of the three size tests holds, comparing as signed 64-bit. */
  lemma SizeTrichotomy(size: i64, known: i64)
    ensures IsSizeGreater(size, known) <==> !IsSizeEqual(size, known) && !IsSizeLess(size, known)
    ensures IsSizeEqual(size, known) <==> !IsSizeLess(size, known) && !IsSizeGreater(size, known)
    ensures IsSizeLess(size, known) <==> !IsSizeGreater(size, known) && !IsSizeEqual(size, known)
  {
  }

  /** Exactly one of the three date tests holds. */
  lemma DateTrichotomy(stamp: i64, known: FsTime.FileTime)
    ensures IsDateModifyGreater(stamp, known) <==> !IsDateModifyEqual(stamp, known) && !IsDateModifyLess(stamp, known)
    ensures IsDateModifyEqual(stamp, known) <==> !IsDateModifyLess(stamp, known) && !IsDateModifyGreater(stamp, known)
    ensures IsDateModifyLess(stamp, known) <==> !IsDateModifyGreater(stamp, known) && !IsDateModifyEqual(stamp, known)
  {
  }

  /**
   * The date tests compare the time stamp as an unsigned 64-bit tick count:
   * a negative stamp counts as later than every FILETIME below 2^63.
   */
  lemma DateTestsByTicks(stamp: i64, known: FsTime.FileTime)
    ensures IsDateModifyGreater(stamp, known) <==> stamp % Two64 > Ticks(known)
    ensures IsDateModifyEqual(stamp, known) <==> stamp % Two64 == Ticks(known)
    ensures IsDateModifyLess(stamp, known) <==> stamp % Two64 < Ticks(known)
    ensures 0 <= stamp ==> (IsDateModifyGreater(stamp, known) <==> stamp > Ticks(known))
  {
    var ft := StampAsFileTime(stamp);
    if Ticks(ft) == Ticks(known) {
      FsTime.DigitsUnique(ft.low, ft.high, known.low, known.high);
    }
  }

  /** A date rule against a quad read back from the FILETIME sees the same tick count. */
  lemma StampOfQuad(known: FsTime.FileTime)
    ensures IsDateModifyEqual(FsTime.Quad(known), known)
  {
    FsTime.QuadSplit(known);
  }

  /**
   * IsName and IsNameIcase agree on every name: the matcher always compares
   * characters through the case-folding ChrCmp.
   */
  lemma NameTestsAgree(name: string, pattern: string)
    ensures IsName(name, pattern) == IsNameIcase(name, pattern)
  {
  }

  /** The name tests see the strings only up to their first NUL. */
  lemma {:induction false} CStrOfNoNul(s: string)
    requires Pattern.NoNul(s)
    ensures CStr(s) == s
    decreases |s|
  {
    if s != [] {
      assert Pattern.NoNul(s[1..]) by {
        forall i | 0 <= i < |s[1..]| ensures s[1..][i] != 0 as char {
          assert s[1..][i] == s[i + 1];
        }
      }
      CStrOfNoNul(s[1..]);
    }
  }

  /** For NUL-free strings, IsNameIcase is the wildcard matcher with the pattern first. */
  lemma NameIcaseIsMatches(name: string, pattern: string)
    requires Pattern.NoNul(name) && Pattern.NoNul(pattern)
    ensures IsNameIcase(name, pattern) <==> Pattern.Matches(pattern, name)
  {
    CStrOfNoNul(name);
    CStrOfNoNul(pattern);
  }

  /** A pattern rule built with the default test matches "*.txt"-style names case-insensitively. */
  lemma DefaultNameRule(pattern: string, rec: JournalRecord, engine: RegexEngine)
    requires Pattern.NoNul(pattern) && Pattern.NoNul(rec.filename)
    ensures IsMatch(NewMatchName(pattern), rec, engine) <==> Pattern.Matches(pattern, rec.filename)
    ensures IsMatch(NewMatchName(pattern, NameIcase, false), rec, engine) <==> !Pattern.Matches(pattern, rec.filename)
  {
    NameIcaseIsMatches(rec.filename, pattern);
  }
}
