/**
 * Clock readings: the datetime.now() a backup is named after, and the
 * LastModified the object store reports for each object.
 */
module Timestamps {
  import opened Digits

  // The field ranges of Python's datetime.datetime.
  type Year = y: int | 1 <= y <= 9999 witness 1
  type Month = m: int | 1 <= m <= 12 witness 1
  type Day = d: int | 1 <= d <= 31 witness 1
  type Hour = h: int | 0 <= h <= 23
  type Minute = m: int | 0 <= m <= 59
  type Second = s: int | 0 <= s <= 59
  type Microsecond = u: int | 0 <= u <= 999999

  datatype DateTime = DateTime(
    year: Year, month: Month, day: Day,
    hour: Hour, minute: Minute, second: Second, microsecond: Microsecond)

  /** t.strftime('%Y%m%d%H%M%S'): the reading to the second; microseconds are dropped. */
  function CompactStamp(t: DateTime): (s: string)
    ensures AllDigits(s)
  {
    var s := Decimal(t.year) + Pad2(t.month) + Pad2(t.day) + Pad2(t.hour) + Pad2(t.minute) + Pad2(t.second);
    AllDigitsAppend(Decimal(t.year), Pad2(t.month));
    AllDigitsAppend(Decimal(t.year) + Pad2(t.month), Pad2(t.day));
    AllDigitsAppend(Decimal(t.year) + Pad2(t.month) + Pad2(t.day), Pad2(t.hour));
    AllDigitsAppend(Decimal(t.year) + Pad2(t.month) + Pad2(t.day) + Pad2(t.hour), Pad2(t.minute));
    AllDigitsAppend(Decimal(t.year) + Pad2(t.month) + Pad2(t.day) + Pad2(t.hour) + Pad2(t.minute), Pad2(t.second));
    s
  }

  /**
   * The key the retention step sorts by, as the mixed-radix value of the
   * fields down to the second; SortKeyIsCompactStamp shows it is
   * int(t.strftime('%Y%m%d%H%M%S')).
   */
  function SortKey(t: DateTime): nat {
    Radix([t.year, t.month, t.day, t.hour, t.minute, t.second])
  }

  /** The value of a sequence of fields as digits in base 100, most significant first. */
  function Radix(fields: seq<nat>): nat {
    if fields == [] then 0 else Radix(fields[..|fields| - 1]) * 100 + fields[|fields| - 1]
  }

  lemma SortKeyExpanded(t: DateTime)
    ensures SortKey(t) == ((((t.year * 100 + t.month) * 100 + t.day) * 100 + t.hour) * 100 + t.minute) * 100 + t.second
  {
    var f1: seq<nat> := [t.year];
    var f2, f3 := f1 + [t.month], f1 + [t.month, t.day];
    var f4, f5 := f3 + [t.hour], f3 + [t.hour, t.minute];
    var f6 := f5 + [t.second];
    assert f1[..0] == [] && f2[..1] == f1 && f3[..2] == f2;
    assert f4[..3] == f3 && f5[..4] == f4 && f6[..5] == f5;
    assert Radix(f1) == t.year;
    assert Radix(f2) == Radix(f1) * 100 + t.month;
    assert Radix(f3) == Radix(f2) * 100 + t.day;
    assert Radix(f4) == Radix(f3) * 100 + t.hour;
    assert Radix(f5) == Radix(f4) * 100 + t.minute;
    assert Radix(f6) == Radix(f5) * 100 + t.second;
    assert f6 == [t.year, t.month, t.day, t.hour, t.minute, t.second];
  }

  /** t and u read the same when both are truncated to the second. */
  predicate SameSecond(t: DateTime, u: DateTime) {
    t.year == u.year && t.month == u.month && t.day == u.day &&
    t.hour == u.hour && t.minute == u.minute && t.second == u.second
  }

  /** t comes strictly before u when both are truncated to the second. */
  predicate EarlierSecond(t: DateTime, u: DateTime) {
    t.year < u.year || (t.year == u.year &&
    (t.month < u.month || (t.month == u.month &&
    (t.day < u.day || (t.day == u.day &&
    (t.hour < u.hour || (t.hour == u.hour &&
    (t.minute < u.minute || (t.minute == u.minute &&
    t.second < u.second)))))))))
  }

  /** int(t.strftime('%Y%m%d%H%M%S')) is the sort key: reading the digit string gives the fields' mixed-radix value. */
  lemma SortKeyIsCompactStamp(t: DateTime)
    ensures Value(CompactStamp(t)) == SortKey(t)
  {
    var y := Decimal(t.year);
    SortKeyExpanded(t);
    ValueOfDecimal(t.year);
    ValueOfPad2(t.month); ValueOfPad2(t.day); ValueOfPad2(t.hour); ValueOfPad2(t.minute); ValueOfPad2(t.second);
    assert Pow10(2) == 100;
    ValueAppend(y, Pad2(t.month));
    ValueAppend(y + Pad2(t.month), Pad2(t.day));
    ValueAppend(y + Pad2(t.month) + Pad2(t.day), Pad2(t.hour));
    ValueAppend(y + Pad2(t.month) + Pad2(t.day) + Pad2(t.hour), Pad2(t.minute));
    ValueAppend(y + Pad2(t.month) + Pad2(t.day) + Pad2(t.hour) + Pad2(t.minute), Pad2(t.second));
  }

  /** One step of the mixed-radix comparison: a lower digit below 100 cannot outweigh the higher part. */
  lemma Radix100(x: int, a: int, y: int, b: int)
    requires 0 <= a < 100 && 0 <= b < 100
    ensures x * 100 + a < y * 100 + b <==> x < y || (x == y && a < b)
    ensures x * 100 + a == y * 100 + b <==> x == y && a == b
  {
  }

  /**
   * Comparing sort keys is comparing the readings field by field, to the
   * second: objects within the same second get equal keys.
   */
  lemma SortKeyOrder(t: DateTime, u: DateTime)
    ensures SortKey(t) < SortKey(u) <==> EarlierSecond(t, u)
    ensures SortKey(t) == SortKey(u) <==> SameSecond(t, u)
  {
    var tm, um := t.year * 100 + t.month, u.year * 100 + u.month;
    var td, ud := tm * 100 + t.day, um * 100 + u.day;
    var th, uh := td * 100 + t.hour, ud * 100 + u.hour;
    var tn, un := th * 100 + t.minute, uh * 100 + u.minute;
    SortKeyExpanded(t);
    SortKeyExpanded(u);
    Radix100(t.year, t.month, u.year, u.month);
    Radix100(tm, t.day, um, u.day);
    Radix100(td, t.hour, ud, u.hour);
    Radix100(th, t.minute, uh, u.minute);
    Radix100(tn, t.second, un, u.second);
  }
}
