/**
 * Reason masks as text: the "+"-joined names of the set bits (the journal
 * class's reason-string conversion) and the keyword parser that turns a
 * command-line reason list into a mask.
 *
 * Bit positions are kept as `bv32` values below 32 so that every fact about
 * a single bit stays inside the bit-vector theory.
 */
module ReasonCodec {
  import opened Win32Types
  import opened NtfsTypes

  /** Display name of each reason bit, bit 0 first; bit 31 (close) has an empty name. */
  const ReasonNames: seq<string> := [
    "DataOverwrite", "DataExtend", "DataTruncation", "0x00000008",
    "NamedDataOverwrite", "NamedDataExtend", "NamedDataTruncation", "0x00000080",
    "FileCreate", "FileDelete", "PropertyChange", "SecurityChange",
    "RenameOldName", "RenameNewName", "IndexableChange", "BasicInfoChange",
    "HardLinkChange", "CompressionChange", "EncryptionChange", "ObjectIdChange",
    "ReparsePointChange", "StreamChange", "0x00400000", "0x00800000",
    "0x01000000", "0x02000000", "0x04000000", "0x08000000",
    "0x10000000", "0x20000000", "0x40000000", ""]

  /** Bit `k` of `mask`, bit 0 being the lowest. */
  predicate BitSet(mask: bv32, k: bv32)
    requires k < 32
  {
    (mask >> k) & 1 == 1
  }

  /** The bits of `mask` below position `k`. */
  function LowBits(mask: bv32, k: bv32): bv32
    requires k <= 32
  {
    if k == 32 then mask else mask & ((1 << k) - 1)
  }

  /** Names of the set bits below position `k`, lowest bit first. */
  function NamesBelow(mask: bv32, k: bv32): seq<string>
    requires k <= 32
    decreases k
  {
    if k == 0 then []
    else NamesBelow(mask, k - 1) + (if BitSet(mask, k - 1) then [ReasonNames[(k - 1) as int]] else [])
  }

  /**
   * The text the conversion loop builds from a list of names: a "+" goes in
   * front of a name whenever the text so far is not empty.
   */
  function JoinPlus(ns: seq<string>): string
  {
    if |ns| == 0 then ""
    else if |ns| == 1 then ns[0]
    else JoinPlus(ns[..|ns| - 1]) + "+" + ns[|ns| - 1]
  }

  /** The text of a reason mask: the names of its set bits in ascending bit order. */
  function ReasonText(mask: bv32): string
  {
    JoinPlus(NamesBelow(mask, 32))
  }

  // ---------------------------------------------------------------------------
  // Single-bit facts, each kept in its own small proof obligation.

  lemma ShiftBound(reason: bv32, d: bv32, k: bv32)
    requires k <= 32 && d == reason >> k && d != 0
    ensures k < 32
  {
  }

  lemma NextPosition(k: bv32, i: int)
    requires k < 32 && k as int == i
    ensures (k + 1) as int == i + 1
  {
  }

  lemma LowBit(reason: bv32, d: bv32, k: bv32)
    requires k < 32 && d == reason >> k
    ensures d & 1 == 1 <==> BitSet(reason, k)
  {
  }

  lemma ShiftNext(reason: bv32, d: bv32, k: bv32)
    requires k < 32 && d == reason >> k
    ensures d >> 1 == reason >> (k + 1)
  {
  }

  lemma ShiftedZero(mask: bv32, k: bv32, j: bv32)
    requires k <= j < 32 && mask >> k == 0
    ensures !BitSet(mask, j)
  {
  }

  lemma LowBitsStep(a: bv32, b: bv32, k: bv32)
    requires k < 32 && LowBits(a, k + 1) == LowBits(b, k + 1)
    ensures LowBits(a, k) == LowBits(b, k)
    ensures BitSet(a, k) == BitSet(b, k)
  {
  }

  lemma LowBitsZeroStep(a: bv32, k: bv32)
    requires k < 32
    ensures LowBits(a, k + 1) == 0 <==> LowBits(a, k) == 0 && !BitSet(a, k)
  {
  }

  lemma CloseLowBits(mask: bv32)
    ensures LowBits(mask | ReasonClose, 31) == LowBits(mask & 0x7FFF_FFFF, 31)
    ensures LowBits(mask, 31) == mask & 0x7FFF_FFFF
    ensures (mask & 0x7FFF_FFFF) & 0x7FFF_FFFF == mask & 0x7FFF_FFFF
    ensures BitSet(mask | ReasonClose, 31) && !BitSet(mask & 0x7FFF_FFFF, 31)
  {
  }

  lemma SingleBitFacts(k: bv32)
    requires k < 32
    ensures LowBits(1 << k, k) == LowBits(0, k)
    ensures BitSet(1 << k, k)
    ensures (1 as bv32 << k) >> (k + 1) == 0
  {
  }

  // ---------------------------------------------------------------------------
  // Facts about the name list and its joined text.

  lemma NamesStep(mask: bv32, k: bv32)
    requires k < 32
    ensures NamesBelow(mask, k + 1)
         == NamesBelow(mask, k) + (if BitSet(mask, k) then [ReasonNames[k as int]] else [])
  {
    assert (k + 1) - 1 == k;
  }

  lemma NamedBitsNonEmpty(i: nat)
    requires i < 31
    ensures ReasonNames[i] != ""
  {
  }

  lemma JoinPlusSnoc(ns: seq<string>, n: string)
    ensures JoinPlus(ns + [n]) == if ns == [] then n else JoinPlus(ns) + "+" + n
  {
    assert (ns + [n])[..|ns|] == ns;
  }

  /** Below the close bit every name is non-empty, so the text is empty exactly when no name is. */
  lemma {:induction false} TextEmptyBelowClose(mask: bv32, k: bv32)
    requires k <= 31
    ensures JoinPlus(NamesBelow(mask, k)) == "" <==> NamesBelow(mask, k) == []
  {
    if k > 0 {
      TextEmptyBelowClose(mask, k - 1);
      NamesStep(mask, k - 1);
      if BitSet(mask, k - 1) {
        NamedBitsNonEmpty((k - 1) as int);
        JoinPlusSnoc(NamesBelow(mask, k - 1), ReasonNames[(k - 1) as int]);
      }
    }
  }

  /** Once the rest of the mask is zero, no further names are added. */
  lemma {:induction false} NoBitsFrom(mask: bv32, k: bv32, j: bv32)
    requires k <= j <= 32 && mask >> k == 0
    ensures NamesBelow(mask, j) == NamesBelow(mask, k)
    decreases j - k
  {
    if j > k {
      NoBitsFrom(mask, k, j - 1);
      ShiftedZero(mask, k, j - 1);
      NamesStep(mask, j - 1);
    }
  }

  /** The names below `k` depend only on the bits below `k`. */
  lemma {:induction false} SameLowBitsSameNames(a: bv32, b: bv32, k: bv32)
    requires k <= 32 && LowBits(a, k) == LowBits(b, k)
    ensures NamesBelow(a, k) == NamesBelow(b, k)
  {
    if k > 0 {
      LowBitsStep(a, b, k - 1);
      SameLowBitsSameNames(a, b, k - 1);
      NamesStep(a, k - 1);
      NamesStep(b, k - 1);
    }
  }

  /** No name below `k` exactly when no bit below `k` is set. */
  lemma {:induction false} NoNamesNoBits(mask: bv32, k: bv32)
    requires k <= 32
    ensures NamesBelow(mask, k) == [] <==> LowBits(mask, k) == 0
  {
    if k > 0 {
      NoNamesNoBits(mask, k - 1);
      LowBitsZeroStep(mask, k - 1);
      NamesStep(mask, k - 1);
    }
  }

  // ---------------------------------------------------------------------------
  // The conversion loop.

  /** A set bit appends its name, after a "+" when the text so far is not empty. */
  lemma NameAdded(reason: bv32, k: bv32)
    requires k < 32 && BitSet(reason, k)
    ensures JoinPlus(NamesBelow(reason, k + 1))
         == (if JoinPlus(NamesBelow(reason, k)) != "" then JoinPlus(NamesBelow(reason, k)) + "+" else "")
            + ReasonNames[k as int]
  {
    NamesStep(reason, k);
    TextEmptyBelowClose(reason, k);
    JoinPlusSnoc(NamesBelow(reason, k), ReasonNames[k as int]);
  }

  /** A clear bit adds nothing. */
  lemma NameSkipped(reason: bv32, k: bv32)
    requires k < 32 && !BitSet(reason, k)
    ensures NamesBelow(reason, k + 1) == NamesBelow(reason, k)
  {
    NamesStep(reason, k);
  }

  /**
   * Shift the mask right one bit at a time; for each set low bit append its
   * name, preceded by "+" when the text is not empty.
   */
  method GetReasonString(reason: bv32) returns (text: string)
    ensures text == ReasonText(reason)
  {
    var d := reason;
    var i: nat := 0;
    ghost var k: bv32 := 0;
    text := "";
    while d != 0
      invariant k <= 32 && k as int == i && d == reason >> k
      invariant text == JoinPlus(NamesBelow(reason, k))
      decreases 32 - i
    {
      ShiftBound(reason, d, k);
      NextPosition(k, i);
      LowBit(reason, d, k);
      ShiftNext(reason, d, k);
      if d & 1 == 1 {
        NameAdded(reason, k);
        if text != "" {
          text := text + "+";
        }
        text := text + ReasonNames[i];
      } else {
        NameSkipped(reason, k);
      }
      d := d >> 1;
      i := i + 1;
      k := k + 1;
    }
    NoBitsFrom(reason, k, 32);
  }

  // ---------------------------------------------------------------------------
  // What the text says about the mask.

  /** The text is empty exactly when no bit other than the close bit is set. */
  lemma ReasonTextEmpty(mask: bv32)
    ensures ReasonText(mask) == "" <==> mask & 0x7FFF_FFFF == 0
  {
    var low := NamesBelow(mask, 31);
    NamesStep(mask, 31);
    TextEmptyBelowClose(mask, 31);
    NoNamesNoBits(mask, 31);
    CloseLowBits(mask);
    if BitSet(mask, 31) {
      JoinPlusSnoc(low, "");
    }
  }

  /**
   * The close bit contributes an empty name: with it set the text is the text
   * of the other bits followed by a dangling "+", or empty if there are none.
   */
  lemma CloseBitText(mask: bv32)
    ensures ReasonText(mask | ReasonClose)
         == if mask & 0x7FFF_FFFF == 0 then "" else ReasonText(mask & 0x7FFF_FFFF) + "+"
  {
    var m := mask & 0x7FFF_FFFF;
    var low := NamesBelow(m, 31);
    CloseLowBits(mask);
    CloseLowBits(m);
    SameLowBitsSameNames(mask | ReasonClose, m, 31);
    NamesStep(mask | ReasonClose, 31);
    assert NamesBelow(mask | ReasonClose, 32) == low + [ReasonNames[31]];
    NamesStep(m, 31);
    assert NamesBelow(m, 32) == low;
    JoinPlusSnoc(low, "");
    NoNamesNoBits(m, 31);
    assert low == [] <==> m == 0;
  }

  /** A mask with a single bit set renders as that bit's name alone. */
  lemma SingleBitText(k: bv32)
    requires k < 32
    ensures ReasonText(1 << k) == ReasonNames[k as int]
  {
    SingleBitFacts(k);
    SameLowBitsSameNames(1 << k, 0, k);
    NoNamesNoBits(0, k);
    NamesStep(1 << k, k);
    NoBitsFrom(1 << k, k + 1, 32);
  }

  /** Reserved bit 3 renders as its hexadecimal value. */
  lemma ReservedBit3Text()
    ensures ReasonText(0x8) == "0x00000008"
  {
    SingleBitText(3);
  }

  /** Reserved bit 30 renders as its hexadecimal value. */
  lemma ReservedBit30Text()
    ensures ReasonText(0x4000_0000) == "0x40000000"
  {
    SingleBitText(30);
  }

  /** The close bit alone renders as nothing. */
  lemma CloseAloneText()
    ensures ReasonText(ReasonClose) == ""
  {
    SingleBitText(31);
  }

  // ---------------------------------------------------------------------------
  // Keyword parsing.

  /** A keyword of the reason option and the reason bits it selects. */
  datatype ReasonKeyword = ReasonKeyword(word: string, filter: bv32)

  /** The keyword table, in the order it is scanned. */
  const ReasonKeywords: seq<ReasonKeyword> := [
    ReasonKeyword("overwrite", ReasonDataOverwrite),
    ReasonKeyword("extend", ReasonDataExtend),
    ReasonKeyword("truncate", ReasonDataTruncation),
    ReasonKeyword("create", ReasonFileCreate),
    ReasonKeyword("delete", ReasonFileDelete),
    ReasonKeyword("rename", ReasonRenameOldName | ReasonRenameNewName),
    ReasonKeyword("security", ReasonSecurityChange),
    ReasonKeyword("basic", ReasonBasicInfoChange),
    ReasonKeyword("link", ReasonHardLinkChange | ReasonReparsePointChange),
    ReasonKeyword("all", !0)]

  /** Every reason bit a keyword other than "all" can select. */
  const NamedKeywordBits: bv32 := 0x0011_BB07

  /** `word` occurs in `text` starting at index `i`. */
  predicate OccursAt(word: string, text: string, i: nat)
  {
    i + |word| <= |text| && text[i..i + |word|] == word
  }

  /** `word` is a substring of `text` (case-sensitive). */
  predicate Occurs(word: string, text: string)
  {
    exists i: nat :: i <= |text| && OccursAt(word, text, i)
  }

  /** What table entry `j` adds for `text`: its filter if its word occurs, nothing otherwise. */
  function Contribution(table: seq<ReasonKeyword>, text: string, j: nat): bv32
    requires j < |table|
  {
    if Occurs(table[j].word, text) then table[j].filter else 0
  }

  /** The OR of the contributions of the first `n` table entries. */
  function FoldFilter(table: seq<ReasonKeyword>, text: string, n: nat): bv32
    requires n <= |table|
  {
    if n == 0 then 0 else FoldFilter(table, text, n - 1) | Contribution(table, text, n - 1)
  }

  /** The mask a reason list selects. */
  function ParsedFilter(text: string): bv32
  {
    FoldFilter(ReasonKeywords, text, |ReasonKeywords|)
  }

  /** The diagnostic written to the error stream when nothing was recognised. */
  function NoFilterMessage(text: string): string
  {
    "No Reason filters found for:" + text + "\n"
  }

  /**
   * The first index at or after `from` where `word` occurs, as the C
   * library's substring search finds it.
   */
  function FindFrom(word: string, text: string, from: nat): (r: Option<nat>)
    requires from <= |text|
    ensures r.Some? ==> from <= r.value && OccursAt(word, text, r.value)
    ensures r.None? ==> forall i: nat :: from <= i ==> !OccursAt(word, text, i)
    decreases |text| - from
  {
    if from + |word| > |text| then None
    else if text[from..from + |word|] == word then Some(from)
    else FindFrom(word, text, from + 1)
  }

  /** The substring search reports a match exactly when the word occurs. */
  function Contains(word: string, text: string): (r: bool)
    ensures r <==> Occurs(word, text)
  {
    var found := FindFrom(word, text, 0);
    if found.Some? then
      assert OccursAt(word, text, found.value);
      true
    else
      false
  }

  lemma OrZero(x: bv32)
    ensures x | 0 == x
  {
  }

  lemma FoldStep(table: seq<ReasonKeyword>, text: string, n: nat)
    requires n < |table|
    ensures FoldFilter(table, text, n + 1) == FoldFilter(table, text, n) | Contribution(table, text, n)
  {
  }

  lemma Contributes(table: seq<ReasonKeyword>, text: string, j: nat)
    requires j < |table| && Occurs(table[j].word, text)
    ensures Contribution(table, text, j) == table[j].filter
  {
  }

  lemma ContributesNothing(table: seq<ReasonKeyword>, text: string, j: nat)
    requires j < |table| && !Occurs(table[j].word, text)
    ensures Contribution(table, text, j) == 0
  {
  }

  lemma ScanAdds(table: seq<ReasonKeyword>, text: string, n: nat, acc: bv32)
    requires n < |table| && acc == FoldFilter(table, text, n) && Occurs(table[n].word, text)
    ensures FoldFilter(table, text, n + 1) == acc | table[n].filter
  {
    FoldStep(table, text, n);
    Contributes(table, text, n);
  }

  lemma ScanSkips(table: seq<ReasonKeyword>, text: string, n: nat, acc: bv32)
    requires n < |table| && acc == FoldFilter(table, text, n) && !Occurs(table[n].word, text)
    ensures FoldFilter(table, text, n + 1) == acc
  {
    FoldStep(table, text, n);
    ContributesNothing(table, text, n);
    OrZero(acc);
  }

  /**
   * Scan the keyword table and OR in the filter of every keyword found in
   * `reasons`; when nothing was found, write a diagnostic.
   */
  method ParseReason(reasons: string) returns (filter: bv32, diagnostic: string)
    ensures filter == ParsedFilter(reasons)
    ensures diagnostic == if filter == 0 then NoFilterMessage(reasons) else ""
  {
    var table := ReasonKeywords;
    filter := 0;
    var idx := 0;
    while idx < |table|
      invariant idx <= |table|
      invariant filter == FoldFilter(table, reasons, idx)
    {
      if Contains(table[idx].word, reasons) {
        ScanAdds(table, reasons, idx, filter);
        filter := filter | table[idx].filter;
      } else {
        ScanSkips(table, reasons, idx, filter);
      }
      idx := idx + 1;
    }
    diagnostic := if filter == 0 then NoFilterMessage(reasons) else "";
  }

  // Facts about the keyword scan.

  /** Every bit of `f` is set in `m`. */
  predicate Has(m: bv32, f: bv32)
  {
    m & f == f
  }

  lemma HasAdd(x: bv32, y: bv32, f: bv32)
    requires Has(x, f) || f == y
    ensures Has(x | y, f)
  {
  }

  lemma HasNone(x: bv32, y: bv32, bound: bv32)
    requires x & !bound == 0 && y & !bound == 0
    ensures (x | y) & !bound == 0
  {
  }

  lemma HasAsBound(f: bv32, m: bv32)
    requires Has(m, f)
    ensures f & !m == 0
  {
  }

  lemma OrZeroBoth(x: bv32, y: bv32)
    ensures x | y == 0 <==> x == 0 && y == 0
  {
  }

  lemma {:induction false} FoldHas(table: seq<ReasonKeyword>, text: string, n: nat, j: nat)
    requires j < n <= |table| && Occurs(table[j].word, text)
    ensures Has(FoldFilter(table, text, n), table[j].filter)
  {
    FoldStep(table, text, n - 1);
    if j < n - 1 {
      FoldHas(table, text, n - 1, j);
      HasAdd(FoldFilter(table, text, n - 1), Contribution(table, text, n - 1), table[j].filter);
    } else {
      Contributes(table, text, j);
      HasAdd(FoldFilter(table, text, n - 1), Contribution(table, text, n - 1), table[j].filter);
    }
  }

  lemma {:induction false} FoldWithin(table: seq<ReasonKeyword>, text: string, n: nat, bound: bv32)
    requires n <= |table|
    requires forall j :: 0 <= j < n && Occurs(table[j].word, text) ==> table[j].filter & !bound == 0
    ensures FoldFilter(table, text, n) & !bound == 0
  {
    if n > 0 {
      FoldWithin(table, text, n - 1, bound);
      FoldStep(table, text, n - 1);
      if Occurs(table[n - 1].word, text) {
        Contributes(table, text, n - 1);
      } else {
        ContributesNothing(table, text, n - 1);
      }
      HasNone(FoldFilter(table, text, n - 1), Contribution(table, text, n - 1), bound);
    }
  }

  lemma {:induction false} FoldZero(table: seq<ReasonKeyword>, text: string, n: nat)
    requires n <= |table|
    requires forall j :: 0 <= j < n ==> table[j].filter != 0
    ensures FoldFilter(table, text, n) == 0 <==> forall j :: 0 <= j < n ==> !Occurs(table[j].word, text)
  {
    if n > 0 {
      FoldZero(table, text, n - 1);
      FoldStep(table, text, n - 1);
      if Occurs(table[n - 1].word, text) {
        Contributes(table, text, n - 1);
      } else {
        ContributesNothing(table, text, n - 1);
      }
      OrZeroBoth(FoldFilter(table, text, n - 1), Contribution(table, text, n - 1));
    }
  }

  /** Every keyword that occurs in the input contributes all of its bits. */
  lemma ParsedFilterHasKeyword(text: string, j: nat)
    requires j < |ReasonKeywords| && Occurs(ReasonKeywords[j].word, text)
    ensures Has(ParsedFilter(text), ReasonKeywords[j].filter)
  {
    FoldHas(ReasonKeywords, text, |ReasonKeywords|, j);
  }

  /** "all" anywhere in the input selects every reason. */
  lemma AllSelectsEverything(text: string)
    requires Occurs("all", text)
    ensures ParsedFilter(text) == 0xFFFF_FFFF
  {
    ParsedFilterHasKeyword(text, 9);
  }

  /** The parsed mask has no bit that no occurring keyword selects. */
  lemma ParsedFilterWithin(text: string, bound: bv32)
    requires forall j :: 0 <= j < |ReasonKeywords| && Occurs(ReasonKeywords[j].word, text) ==> ReasonKeywords[j].filter & !bound == 0
    ensures ParsedFilter(text) & !bound == 0
  {
    FoldWithin(ReasonKeywords, text, |ReasonKeywords|, bound);
  }

  lemma KeywordBitsNamed(j: nat)
    requires j < |ReasonKeywords| - 1
    ensures ReasonKeywords[j].filter & !NamedKeywordBits == 0
  {
  }

  /** Without "all" only the bits of the nine other keywords can be selected. */
  lemma WithoutAllOnlyNamedBits(text: string)
    requires !Occurs("all", text)
    ensures ParsedFilter(text) & !NamedKeywordBits == 0
  {
    forall j | 0 <= j < |ReasonKeywords| && Occurs(ReasonKeywords[j].word, text)
      ensures ReasonKeywords[j].filter & !NamedKeywordBits == 0
    {
      KeywordBitsNamed(j);
    }
    ParsedFilterWithin(text, NamedKeywordBits);
  }

  lemma KeywordFiltersNonZero()
    ensures forall j :: 0 <= j < |ReasonKeywords| ==> ReasonKeywords[j].filter != 0
  {
  }

  /** The mask is zero, and the diagnostic written, exactly when no keyword occurs. */
  lemma ParsedFilterZero(text: string)
    ensures ParsedFilter(text) == 0 <==> forall j :: 0 <= j < |ReasonKeywords| ==> !Occurs(ReasonKeywords[j].word, text)
  {
    KeywordFiltersNonZero();
    FoldZero(ReasonKeywords, text, |ReasonKeywords|);
  }

  /** An occurrence inside an occurrence is an occurrence. */
  lemma OccursTransitive(w: string, s: string, t: string)
    requires Occurs(w, s) && Occurs(s, t)
    ensures Occurs(w, t)
  {
    var i: nat :| i <= |s| && OccursAt(w, s, i);
    var j: nat :| j <= |t| && OccursAt(s, t, j);
    forall m | 0 <= m < |w|
      ensures t[j + i + m] == w[m]
    {
      assert s[i..i + |w|][m] == w[m];
      assert t[j..j + |s|][i + m] == s[i + m];
    }
    assert t[j + i..j + i + |w|] == w;
    assert OccursAt(w, t, j + i);
  }

  lemma KeywordCarriesOver(s: string, t: string, j: nat)
    requires Occurs(s, t) && j < |ReasonKeywords| && Occurs(ReasonKeywords[j].word, s)
    ensures ReasonKeywords[j].filter & !ParsedFilter(t) == 0
  {
    OccursTransitive(ReasonKeywords[j].word, s, t);
    ParsedFilterHasKeyword(t, j);
    HasAsBound(ReasonKeywords[j].filter, ParsedFilter(t));
  }

  /** Parsing is monotone: text containing `s` selects at least what `s` selects. */
  lemma ParseMonotone(s: string, t: string)
    requires Occurs(s, t)
    ensures ParsedFilter(s) & !ParsedFilter(t) == 0
  {
    var bound := ParsedFilter(t);
    forall j | 0 <= j < |ReasonKeywords| && Occurs(ReasonKeywords[j].word, s)
      ensures ReasonKeywords[j].filter & !bound == 0
    {
      KeywordCarriesOver(s, t, j);
    }
    ParsedFilterWithin(s, bound);
  }
}
