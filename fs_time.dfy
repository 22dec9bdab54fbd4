/**
 * FILETIME arithmetic: conversion of Unix seconds to 100-nanosecond ticks
 * since 1601, the two-DWORD FILETIME layout, and adding or subtracting a
 * time span on the 64-bit quad.
 *
 * A time span holds whole seconds (the source keeps a double and truncates it
 * to time_t when converting).
 */
module FsTime {
  import opened Win32Types

  /** Ticks per second: 100-nanosecond units. */
  const TicksPerSecond: int := 10_000_000
  /** Ticks from 1601-01-01 to 1970-01-01. */
  const EpochTicks: int := 116_444_736_000_000_000
  const SecondsPerDay: int := 24 * 60 * 60

  /** FILETIME: a 64-bit tick count stored as two DWORDs. */
  datatype FileTime = FileTime(low: u32, high: u32)

  /** A time span in whole seconds. */
  datatype TimeSpan = TimeSpan(seconds: int)

  /** Int32x32To64: both operands are cut to 32-bit signed, then multiplied in 64 bits. */
  function Int32x32To64(a: int, b: int): (r: i64)
    ensures r == ToI32(a) * ToI32(b)
  {
    ProductBound(ToI32(a), ToI32(b));
    ToI32(a) * ToI32(b)
  }

  lemma ProductBound(x: i32, y: i32)
    ensures -0x8000_0000_0000_0000 <= x * y < 0x8000_0000_0000_0000
  {
    var ax: int := if x < 0 then 0 - x as int else x;
    var ay: int := if y < 0 then 0 - y as int else y;
    assert ax <= 0x8000_0000 && ay <= 0x8000_0000;
    MulBound(ax, ay);
    assert x * y == ax * ay || x * y == -(ax * ay);
  }

  lemma MulBound(a: nat, b: nat)
    requires a <= 0x8000_0000 && b <= 0x8000_0000
    ensures a * b <= 0x4000_0000_0000_0000
  {
    calc {
      a * b;
    <= { MulMono(a, b, 0x8000_0000); }
      0x8000_0000 * b;
    <= { MulMono(b, 0x8000_0000, 0x8000_0000); }
      0x8000_0000 * 0x8000_0000;
    }
  }

  lemma MulMono(a: nat, b: nat, c: nat)
    requires a <= c
    ensures a * b <= c * b
  {
  }

  /** Store a LONGLONG into a FILETIME: low DWORD, then the value shifted right by 32. */
  function Split(ll: i64): (ft: FileTime)
    ensures ft.high * Two32 + ft.low == ll % Two64
  {
    FileTime(ll % Two32, (ll / Two32) % Two32)
  }

  /** Quad(FILETIME): the two DWORDs read back as one signed 64-bit value. */
  function Quad(ft: FileTime): (q: i64)
    ensures (q - (ft.high * Two32 + ft.low)) % Two64 == 0
  {
    SignedOf64(ft.high * Two32 + ft.low)
  }

  /** Unix seconds to FILETIME: only the low 32 bits of `t`, read as signed, take part. */
  function UnixTimeToFileTime(t: int): FileTime
  {
    UnixTicksBound(ToI32(t));
    Split(Int32x32To64(t, TicksPerSecond) + EpochTicks)
  }

  /** Seconds to a FILETIME tick count (no epoch shift). */
  function SecondsToFileTime(t: int): FileTime
  {
    Split(Int32x32To64(t, TicksPerSecond))
  }

  /** A span converts through its whole seconds. */
  function SpanToFileTime(span: TimeSpan): FileTime
  {
    SecondsToFileTime(span.seconds)
  }

  /** TimeSpan::Days. */
  function Days(days: int): (span: TimeSpan)
    ensures span.seconds == days * 86_400
  {
    TimeSpan(days * SecondsPerDay)
  }

  /** FILETIME + span, on the 64-bit quad (a signed overflow wraps). */
  function Add(left: FileTime, right: TimeSpan): FileTime
  {
    Split(ToI64(Quad(left) + Quad(SpanToFileTime(right))))
  }

  /** FILETIME - span, on the 64-bit quad (a signed overflow wraps). */
  function Sub(left: FileTime, right: TimeSpan): FileTime
  {
    Split(ToI64(Quad(left) - Quad(SpanToFileTime(right))))
  }

  // ---------------------------------------------------------------------------
  // Properties.

  lemma UnixTicksBound(t: i32)
    ensures -0x8000_0000_0000_0000 <= t * TicksPerSecond + EpochTicks < 0x8000_0000_0000_0000
    ensures 0 < t * TicksPerSecond + EpochTicks
  {
  }

  /** Splitting a quad into DWORDs and reading it back gives the same quad. */
  lemma SplitQuad(ll: i64)
    ensures Quad(Split(ll)) == ll
  {
    var ft := Split(ll);
    var u := ft.high * Two32 + ft.low;
    assert u == ll % Two64;
    if ll >= 0 {
      assert u == ll;
    } else {
      assert u == ll + Two64;
    }
  }

  /** A FILETIME is determined by its quad. */
  lemma QuadSplit(ft: FileTime)
    ensures Split(Quad(ft)) == ft
  {
    var u := ft.high * Two32 + ft.low;
    var q := Quad(ft);
    assert q % Two64 == u;
    DigitsUnique(ft.low, ft.high, Split(q).low, Split(q).high);
  }

  lemma DigitsUnique(l1: u32, h1: u32, l2: u32, h2: u32)
    requires h1 * Two32 + l1 == h2 * Two32 + l2
    ensures l1 == l2 && h1 == h2
  {
  }

  /** Seconds become ticks: the quad is the 32-bit-truncated seconds times 10^7. */
  lemma SecondsTicks(t: int)
    ensures Quad(SecondsToFileTime(t)) == ToI32(t) * TicksPerSecond
  {
    SplitQuad(Int32x32To64(t, TicksPerSecond));
  }

  /** Unix time zero is the 1970 epoch in FILETIME ticks. */
  lemma UnixEpoch()
    ensures Quad(UnixTimeToFileTime(0)) == EpochTicks
  {
    SplitQuad(EpochTicks);
  }

  /** UnixTimeToFileTime is SecondsToFileTime shifted by the 1970 epoch. */
  lemma UnixIsSecondsPlusEpoch(t: int)
    ensures Quad(UnixTimeToFileTime(t)) == Quad(SecondsToFileTime(t)) + EpochTicks
  {
    UnixTicksBound(ToI32(t));
    SplitQuad(Int32x32To64(t, TicksPerSecond) + EpochTicks);
    SecondsTicks(t);
  }

  /** Only the low 32 bits of the seconds matter. */
  lemma SecondsTruncated(t: int)
    ensures SecondsToFileTime(t + Two32) == SecondsToFileTime(t)
    ensures UnixTimeToFileTime(t + Two32) == UnixTimeToFileTime(t)
  {
    assert ToI32(t + Two32) == ToI32(t);
  }

  /** Within the 32-bit signed range a later Unix time gives a later FILETIME. */
  lemma UnixMonotone(t1: i32, t2: i32)
    requires t1 <= t2
    ensures Quad(UnixTimeToFileTime(t1)) <= Quad(UnixTimeToFileTime(t2))
  {
    UnixIsSecondsPlusEpoch(t1);
    UnixIsSecondsPlusEpoch(t2);
    SecondsTicks(t1);
    SecondsTicks(t2);
  }

  /** A span of `d` days is `d` times 86400 seconds of ticks. */
  lemma DaysTicks(d: int)
    ensures Quad(SpanToFileTime(Days(d))) == ToI32(d * 86_400) * TicksPerSecond
  {
    SecondsTicks(d * 86_400);
  }

  /** Adding moves the quad by the span's ticks (modulo the 64-bit wrap). */
  lemma AddTicks(left: FileTime, right: TimeSpan)
    ensures (Quad(Add(left, right)) - (Quad(left) + ToI32(right.seconds) * TicksPerSecond)) % Two64 == 0
    ensures -0x8000_0000_0000_0000 <= Quad(left) + ToI32(right.seconds) * TicksPerSecond < 0x8000_0000_0000_0000
        ==> Quad(Add(left, right)) == Quad(left) + ToI32(right.seconds) * TicksPerSecond
  {
    SecondsTicks(right.seconds);
    SplitQuad(ToI64(Quad(left) + Quad(SpanToFileTime(right))));
  }

  /** Subtracting a span and adding it back restores the FILETIME. */
  lemma SubThenAdd(ft: FileTime, span: TimeSpan)
    ensures Add(Sub(ft, span), span) == ft
  {
    var d: int := Quad(SpanToFileTime(span));
    var q: int := Quad(ft);
    var s := ToI64(q - d);
    SplitQuad(s);
    WrapInverse(q, d);
    QuadSplit(ft);
  }

  lemma WrapInverse(q: i64, d: i64)
    ensures ToI64(ToI64(q - d) + d) == q
  {
    var s := ToI64(q - d);
    assert (s - (q - d)) % Two64 == 0;
    assert ((s + d) - q) % Two64 == 0;
  }

  /** Adding a span and subtracting it again restores the FILETIME. */
  lemma AddThenSub(ft: FileTime, span: TimeSpan)
    ensures Sub(Add(ft, span), span) == ft
  {
    var d: int := Quad(SpanToFileTime(span));
    var q: int := Quad(ft);
    SplitQuad(ToI64(q + d));
    WrapInverseAdd(q, d);
    QuadSplit(ft);
  }

  lemma WrapInverseAdd(q: i64, d: i64)
    ensures ToI64(ToI64(q + d) - d) == q
  {
    var s := ToI64(q + d);
    assert (s - (q + d)) % Two64 == 0;
    assert ((s - d) - q) % Two64 == 0;
  }
}
