/**
 * The time-bucket namer: an instant and a time unit become a `-`-joined string
 * of unpadded decimal calendar fields whose precision depends on the unit.
 */
module DateName {
  import opened Decimal
  import opened Optional
  import opened Policy

  /**
   * The local-calendar reading of an instant, as the Date getters return it:
   * full year, zero-based month, day of month, hours, minutes, seconds.
   */
  datatype CalendarFields = CalendarFields(
    year: nat,
    month0: nat,
    date: nat,
    hours: nat,
    minutes: nat,
    seconds: nat)

  /** Local-time conversion from epoch milliseconds; left uninterpreted. */
  type LocalCalendar = int -> CalendarFields

  /**
   * Every field the namer can emit, in emission order: the year, the month
   * shifted to one-based, the day of month as is, and the hours, minutes and
   * seconds each shifted by one.
   */
  function AllFields(f: CalendarFields): seq<nat> {
    [f.year, f.month0 + 1, f.date, f.hours + 1, f.minutes + 1, f.seconds + 1]
  }

  /** How many fields a unit's bucket name carries: coarser units carry fewer. */
  function FieldCount(timeUnit: int): nat {
    if timeUnit >= DAY then 3
    else if timeUnit >= HOUR then 4
    else if timeUnit >= MINUTE then 5
    else 6
  }

  /**
   * The pieces array built before the join: three fields always, then one more
   * for each threshold the unit is finer than. The result is the leading
   * `FieldCount` fields of `AllFields`.
   */
  function DatePieces(f: CalendarFields, timeUnit: int): (pieces: seq<nat>)
    ensures |pieces| == FieldCount(timeUnit)
    ensures pieces == AllFields(f)[..FieldCount(timeUnit)]
  {
    var always := [f.year, f.month0 + 1, f.date];
    var withHours := if timeUnit < DAY then always + [f.hours + 1] else always;
    var withMinutes := if timeUnit < HOUR then withHours + [f.minutes + 1] else withHours;
    if timeUnit < MINUTE then withMinutes + [f.seconds + 1] else withMinutes
  }

  /** The bucket string of instant `t` at the given unit. */
  function DateStr(cal: LocalCalendar, t: int, timeUnit: int): string {
    Join(DatePieces(cal(t), timeUnit))
  }

  /**
   * Reading a bucket string back yields exactly the included calendar fields,
   * `FieldCount` of them, so the string carries the bucket and nothing else.
   */
  lemma DateStrDecodes(cal: LocalCalendar, t: int, timeUnit: int)
    ensures Decode(DateStr(cal, t, timeUnit)) == Some(AllFields(cal(t))[..FieldCount(timeUnit)])
    ensures |Split(DateStr(cal, t, timeUnit))| == FieldCount(timeUnit)
  {
    var pieces := DatePieces(cal(t), timeUnit);
    DecodeJoin(pieces);
    SplitJoin(pieces);
  }

  /** Two calendar readings fall in the same bucket: every included field agrees. */
  predicate SameBucket(a: CalendarFields, b: CalendarFields, timeUnit: int) {
    && a.year == b.year
    && a.month0 == b.month0
    && a.date == b.date
    && (timeUnit < DAY ==> a.hours == b.hours)
    && (timeUnit < HOUR ==> a.minutes == b.minutes)
    && (timeUnit < MINUTE ==> a.seconds == b.seconds)
  }

  /** Field count by unit range, and it never grows as the unit gets coarser. */
  lemma FieldCountByUnit(timeUnit: int, coarser: int)
    requires timeUnit <= coarser
    ensures DAY <= timeUnit ==> FieldCount(timeUnit) == 3
    ensures HOUR <= timeUnit < DAY ==> FieldCount(timeUnit) == 4
    ensures MINUTE <= timeUnit < HOUR ==> FieldCount(timeUnit) == 5
    ensures timeUnit < MINUTE ==> FieldCount(timeUnit) == 6
    ensures FieldCount(coarser) <= FieldCount(timeUnit)
  {
  }

  /**
   * Bucket names are a faithful key: two instants get the same name exactly
   * when their included calendar fields agree.
   */
  lemma DateStrSameIffSameBucket(cal: LocalCalendar, t1: int, t2: int, timeUnit: int)
    ensures DateStr(cal, t1, timeUnit) == DateStr(cal, t2, timeUnit)
        <==> SameBucket(cal(t1), cal(t2), timeUnit)
  {
    var p1 := DatePieces(cal(t1), timeUnit);
    var p2 := DatePieces(cal(t2), timeUnit);
    JoinInjective(p1, p2);
    if p1 == p2 {
      assert p1[0] == p2[0] && p1[1] == p2[1] && p1[2] == p2[2];
      if timeUnit < DAY { assert p1[3] == p2[3]; }
      if timeUnit < HOUR { assert p1[4] == p2[4]; }
      if timeUnit < MINUTE { assert p1[5] == p2[5]; }
    }
  }

  /** Instants that share a bucket at a fine unit share it at any coarser unit. */
  lemma SameNameAtCoarserUnit(cal: LocalCalendar, t1: int, t2: int, fine: int, coarse: int)
    requires fine <= coarse
    requires DateStr(cal, t1, fine) == DateStr(cal, t2, fine)
    ensures DateStr(cal, t1, coarse) == DateStr(cal, t2, coarse)
  {
    DateStrSameIffSameBucket(cal, t1, t2, fine);
    DateStrSameIffSameBucket(cal, t1, t2, coarse);
  }
}
