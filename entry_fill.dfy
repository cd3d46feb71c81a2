/**
 * Filling a new diary record from the local calendar time: the date text
 * `strftime` produces for the format `%Y-%m-%d`, the weekday name from a
 * seven-entry table, and the `strncpy` that copies that name into the
 * record's weekday buffer.
 *
 * The clock (`time`, `localtime`) is not modelled: the broken-down time is
 * an input. `diary_struct.h` defines neither the `weekday` field nor
 * `MAX_WEEKDAY_SIZE`; the field is read as `char weekday[MAX_WEEKDAY_SIZE]`,
 * and its width W is the length of the `weekday` array passed in.
 */
module EntryFill {
  import opened CStrings
  import opened DiaryStruct

  /** The fields of `struct tm` that the date and weekday are made from. */
  datatype Tm = Tm(tmYear: int, tmMon: int, tmMday: int, tmWday: int)

  /** The ranges `localtime` guarantees (`tm_year` is any year since 1900). */
  predicate TmNormal(tm: Tm)
    ensures TmNormal(tm) ==> 0 <= tm.tmWday < |WEEKDAY_NAMES| && 1 <= tm.tmMon + 1 <= 12
  {
    0 <= tm.tmMon <= 11 && 1 <= tm.tmMday <= 31 && 0 <= tm.tmWday <= 6
  }

  /** The calendar year a `struct tm` holds. */
  function Year(tm: Tm): int
  {
    tm.tmYear + 1900
  }

  // ---------------------------------------------------------------------
  // Weekday names
  // ---------------------------------------------------------------------

  /** The weekday table, indexed by `tm_wday` (0 is Sunday). */
  const WEEKDAY_NAMES: seq<string> :=
    ["Sunday", "Monday", "Tuesday", "Wednesday", "Thursday", "Friday", "Saturday"]

  /** The name the table gives for `tm_wday`, as the bytes of its literal. */
  function WeekdayName(wday: int): (name: seq<byte>)
    requires 0 <= wday <= 6
    ensures 6 <= |name| <= 9
    ensures NoNul(name)
    ensures name[|name| - 3..] == Ascii("day")
  {
    Ascii(WEEKDAY_NAMES[wday])
  }

  /** The length and first letter of each table entry, which tell the seven names apart. */
  lemma {:induction false} WeekdayNameShape(wday: int)
    requires 0 <= wday <= 6
    ensures |WeekdayName(wday)| == [6, 6, 7, 9, 8, 6, 8][wday]
    ensures WeekdayName(wday)[0] as int == "SMTWTFS"[wday] as int
  {
  }

  /** The table has seven entries, from Sunday at 0 to Saturday at 6, all different. */
  lemma WeekdayTable()
    ensures |WEEKDAY_NAMES| == 7
    ensures WeekdayName(0) == Ascii("Sunday") && WeekdayName(6) == Ascii("Saturday")
    ensures forall i, j | 0 <= i <= 6 && 0 <= j <= 6 && WeekdayName(i) == WeekdayName(j) :: i == j
  {
    forall i, j | 0 <= i <= 6 && 0 <= j <= 6 && WeekdayName(i) == WeekdayName(j)
      ensures i == j
    {
      WeekdayNameShape(i);
      WeekdayNameShape(j);
    }
  }

  // ---------------------------------------------------------------------
  // The text of `%Y-%m-%d`
  // ---------------------------------------------------------------------

  const DASH: byte := 45
  const ZERO_DIGIT: byte := 48

  predicate IsDigit(b: byte)
  {
    ZERO_DIGIT <= b <= ZERO_DIGIT + 9
  }

  predicate AllDigits(s: seq<byte>)
  {
    forall i | 0 <= i < |s| :: IsDigit(s[i])
  }

  function DigitChar(d: nat): (b: byte)
    requires d < 10
    ensures IsDigit(b) && (b - ZERO_DIGIT) as int == d
  {
    ZERO_DIGIT + d as byte
  }

  /** The number a run of decimal digits denotes, most significant first. */
  function Value(s: seq<byte>): nat
    requires AllDigits(s)
  {
    if s == [] then 0 else Value(s[..|s| - 1]) * 10 + (s[|s| - 1] - ZERO_DIGIT) as int
  }

  /** The decimal digits of `n`, without leading zeros. */
  function Digits(n: nat): (d: seq<byte>)
    ensures 1 <= |d| && AllDigits(d) && NoNul(d)
  {
    if n < 10 then [DigitChar(n)] else Digits(n / 10) + [DigitChar(n % 10)]
  }

  function Pow10(k: nat): (p: nat)
    ensures p >= 1
  {
    if k == 0 then 1 else 10 * Pow10(k - 1)
  }

  /** The digits of `n` denote `n`. */
  lemma {:induction false} DigitsValue(n: nat)
    ensures Value(Digits(n)) == n
  {
    if n >= 10 {
      var d := Digits(n);
      assert d[..|d| - 1] == Digits(n / 10);
      DigitsValue(n / 10);
    }
  }

  /** `n` needs at most `k` digits exactly when it is below `10^k`. */
  lemma {:induction false} DigitsFit(n: nat, k: nat)
    requires k >= 1
    ensures |Digits(n)| <= k <==> n < Pow10(k)
  {
    if k == 1 {
      if n >= 10 {
        assert |Digits(n)| == |Digits(n / 10)| + 1;
      }
    } else if n >= 10 {
      DigitsFit(n / 10, k - 1);
    } else {
      assert Pow10(k) == 10 * Pow10(k - 1);
    }
  }

  /** `%Y`: the year as a decimal number, with a minus sign before a year below zero. */
  function YearText(y: int): (s: seq<byte>)
    ensures NoNul(s)
  {
    if y < 0 then [DASH] + Digits(-y) else Digits(y)
  }

  /** `%m` and `%d`: a number below 100 as exactly two digits, zero-padded. */
  function TwoDigits(n: nat): (s: seq<byte>)
    requires n < 100
    ensures |s| == 2 && AllDigits(s) && NoNul(s) && Value(s) == n
  {
    var s := [DigitChar(n / 10), DigitChar(n % 10)];
    assert s[..1][..0] == [];
    assert s[..1] == [s[0]];
    assert Value(s[..1]) == n / 10;
    s
  }

  /** The characters `strftime` produces for `%Y-%m-%d`, before the terminator. */
  function FormatDate(tm: Tm): (s: seq<byte>)
    requires TmNormal(tm)
    ensures NoNul(s)
  {
    YearText(Year(tm)) + [DASH] + TwoDigits(tm.tmMon + 1) + [DASH] + TwoDigits(tm.tmMday)
  }

  /** Whether the text and its terminator fit the 11-byte date buffer. */
  predicate DateFits(tm: Tm)
    requires TmNormal(tm)
  {
    |FormatDate(tm)| + 1 <= DATE_SIZE
  }

  /** The date fits the buffer exactly for the years from -999 to 9999. */
  lemma DateFitsIff(tm: Tm)
    requires TmNormal(tm)
    ensures DateFits(tm) <==> -999 <= Year(tm) <= 9999
  {
    var y := Year(tm);
    assert |FormatDate(tm)| == |YearText(y)| + 6;
    assert Pow10(3) == 1000 && Pow10(4) == 10000;
    if y < 0 {
      DigitsFit(-y, 3);
    } else {
      DigitsFit(y, 4);
    }
  }

  /**
   * For a four-digit year the date is `YYYY-MM-DD`: ten characters, dashes at
   * 4 and 7, digits elsewhere, and the digit runs denote year, month and day.
   */
  lemma FormatDateShape(tm: Tm)
    requires TmNormal(tm) && 1000 <= Year(tm) <= 9999
    ensures var s := FormatDate(tm);
      && |s| == DATE_SIZE - 1
      && s[4] == DASH && s[7] == DASH
      && AllDigits(s[..4]) && AllDigits(s[5..7]) && AllDigits(s[8..])
      && Value(s[..4]) == Year(tm) && Value(s[5..7]) == tm.tmMon + 1 && Value(s[8..]) == tm.tmMday
  {
    var y := Year(tm);
    var s := FormatDate(tm);
    assert Pow10(3) == 1000 && Pow10(4) == 10000;
    DigitsFit(y, 4);
    DigitsFit(y, 3);
    DigitsValue(y);
    assert s[..4] == Digits(y);
    assert s[5..7] == TwoDigits(tm.tmMon + 1);
    assert s[8..] == TwoDigits(tm.tmMday);
  }

  /**
   * A record whose date field holds a four-digit-year date and its
   * terminator is found by a view of exactly that date text.
   */
  lemma FilledDateIsFound(tm: Tm, e: Entry)
    requires TmNormal(tm) && 1000 <= Year(tm) <= 9999
    requires e.date == FormatDate(tm) + [NUL]
    ensures StoredDate(e) == FormatDate(tm)
    ensures DateMatches(e, FormatDate(tm))
  {
    DateFieldLayout(e, FormatDate(tm));
    CStringOfText(FormatDate(tm));
  }

  /**
   * `strftime(s, maxsize, "%Y-%m-%d", &tm)`: when the text and its terminator
   * fit in `maxsize` bytes they are written and the text length is returned;
   * otherwise 0 is returned and the buffer's contents are indeterminate.
   */
  method StrftimeDate(s: array<byte>, maxsize: nat, tm: Tm) returns (count: nat)
    requires maxsize <= s.Length && TmNormal(tm)
    modifies s
    ensures var text := FormatDate(tm);
      if |text| + 1 <= maxsize then
        && count == |text|
        && s[..count] == text && s[count] == NUL
        && s[count + 1..] == old(s[count + 1..])
      else count == 0
  {
    var text := FormatDate(tm);
    if |text| + 1 <= maxsize {
      var i := 0;
      while i < |text|
        invariant 0 <= i <= |text|
        invariant s[..i] == text[..i]
        invariant s[i..] == old(s[i..])
      {
        s[i] := text[i];
        i := i + 1;
      }
      s[|text|] := NUL;
      count := |text|;
    } else {
      count := 0;
    }
  }

  // ---------------------------------------------------------------------
  // strncpy
  // ---------------------------------------------------------------------

  /**
   * The `n` bytes `strncpy(dst, src, n)` leaves in `dst`: the characters of
   * the string, then zeros up to `n` only when the string is shorter than `n`.
   */
  function StrncpyImage(src: seq<byte>, n: nat): (d: seq<byte>)
    ensures |d| == n
    ensures forall i | 0 <= i < n :: d[i] == if i < |CString(src)| then src[i] else NUL
  {
    var text := CString(src);
    if |text| >= n then text[..n] else text + seq(n - |text|, _ => NUL)
  }

  /**
   * The copy holds a terminator exactly when the string is shorter than `n`;
   * then it reads back as the string, and otherwise it is the first `n`
   * characters with no terminator.
   */
  lemma StrncpyTerminatedIff(src: seq<byte>, n: nat)
    ensures !NoNul(StrncpyImage(src, n)) <==> |CString(src)| < n
    ensures |CString(src)| < n ==> CString(StrncpyImage(src, n)) == CString(src)
    ensures |CString(src)| >= n ==> StrncpyImage(src, n) == CString(src)[..n]
  {
    var text := CString(src);
    var d := StrncpyImage(src, n);
    if |text| < n {
      assert d[|text|] == NUL;
      assert d == text + [NUL] + d[|text| + 1..];
      CStringOfTerminated(text, d[|text| + 1..]);
    }
  }

  /** `strncpy(dst, src, n)`, as section 7.24.2.4 of ISO/IEC 9899:2011 describes it. */
  method Strncpy(dst: array<byte>, src: seq<byte>, n: nat)
    requires n <= dst.Length
    modifies dst
    ensures dst[..n] == StrncpyImage(src, n)
    ensures dst[n..] == old(dst[n..])
  {
    ghost var image := StrncpyImage(src, n);
    var i := 0;
    while i < n && i < |src| && src[i] != NUL
      invariant 0 <= i <= n && i <= |src|
      invariant i <= |CString(src)|
      invariant dst[..i] == image[..i]
      invariant dst[i..] == old(dst[i..])
    {
      dst[i] := src[i];
      i := i + 1;
    }
    while i < n
      invariant 0 <= i <= n
      invariant i >= |CString(src)| || i == n
      invariant dst[..i] == image[..i]
      invariant dst[i..] == old(dst[i..])
    {
      dst[i] := NUL;
      i := i + 1;
    }
  }

  // ---------------------------------------------------------------------
  // The new record
  // ---------------------------------------------------------------------

  /**
   * The body of the entry program: the date buffer (11 bytes) receives the
   * formatted date and the weekday buffer the table's name, copied with
   * `strncpy(weekday, name, W - 1)`. The record is uninitialised, so both
   * buffers start with arbitrary bytes, and byte `W - 1` of the weekday
   * buffer keeps its arbitrary value.
   */
  method FillNewEntry(date: array<byte>, weekday: array<byte>, tm: Tm) returns (len: nat)
    requires date.Length == DATE_SIZE && 1 <= weekday.Length && TmNormal(tm)
    requires date != weekday
    modifies date, weekday
    ensures len == if DateFits(tm) then |FormatDate(tm)| else 0
    ensures len != 0 ==> date[..len] == FormatDate(tm) && date[len] == NUL && date[len + 1..] == old(date[len + 1..])
    ensures weekday[..weekday.Length - 1] == StrncpyImage(WeekdayName(tm.tmWday), weekday.Length - 1)
    ensures weekday[weekday.Length - 1] == old(weekday[weekday.Length - 1])
  {
    len := StrftimeDate(date, DATE_SIZE, tm);
    var name := WeekdayName(tm.tmWday);
    Strncpy(weekday, name, weekday.Length - 1);
  }

  /**
   * The weekday buffer left by `FillNewEntry` (the copy followed by the
   * untouched last byte) holds a terminator exactly when the name is shorter
   * than `W - 1` or the untouched byte happens to be zero.
   */
  lemma WeekdayFieldTerminatedIff(wday: int, w: nat, last: byte)
    requires 0 <= wday <= 6 && 1 <= w
    ensures !NoNul(StrncpyImage(WeekdayName(wday), w - 1) + [last])
      <==> |WeekdayName(wday)| < w - 1 || last == NUL
  {
    var name := WeekdayName(wday);
    CStringOfText(name);
    StrncpyTerminatedIff(name, w - 1);
    var image := StrncpyImage(name, w - 1);
    var field := image + [last];
    if last == NUL {
      assert field[w - 1] == NUL;
    } else if |name| < w - 1 {
      var k :| 0 <= k < |image| && image[k] == NUL;
      assert field[k] == NUL;
    } else {
      forall k | 0 <= k < |field|
        ensures field[k] != NUL
      {
        if k < w - 1 {
          assert field[k] == image[k];
        }
      }
    }
  }

  /**
   * With `W = 10` a Wednesday record's weekday buffer holds nine letters and
   * whatever byte the uninitialised record had at index 9: whenever that byte
   * is not zero, the buffer has no terminator at all.
   */
  lemma WednesdayLeftUnterminated(last: byte)
    requires last != NUL
    ensures WeekdayName(3) == Ascii("Wednesday")
    ensures NoNul(StrncpyImage(WeekdayName(3), 10 - 1) + [last])
  {
    WeekdayFieldTerminatedIff(3, 10, last);
  }

  /**
   * `FillNewEntry` with the weekday buffer terminated explicitly after the
   * copy: the buffer then always reads back as the name cut to `W - 1`
   * characters.
   */
  method FillNewEntryTerminated(date: array<byte>, weekday: array<byte>, tm: Tm) returns (len: nat)
    requires date.Length == DATE_SIZE && 1 <= weekday.Length && TmNormal(tm)
    requires date != weekday
    modifies date, weekday
    ensures len == if DateFits(tm) then |FormatDate(tm)| else 0
    ensures len != 0 ==> date[..len] == FormatDate(tm) && date[len] == NUL && date[len + 1..] == old(date[len + 1..])
    ensures weekday[weekday.Length - 1] == NUL
    ensures var name := WeekdayName(tm.tmWday);
      CString(weekday[..]) == if |name| < weekday.Length then name else name[..weekday.Length - 1]
  {
    len := StrftimeDate(date, DATE_SIZE, tm);
    var name := WeekdayName(tm.tmWday);
    var n := weekday.Length - 1;
    Strncpy(weekday, name, n);
    weekday[n] := NUL;
    ghost var buf := weekday[..];
    assert buf[..n] == weekday[..n] == StrncpyImage(name, n);
    TerminatedWeekdayReadsBack(name, buf);
  }

  /** A buffer holding a `strncpy` copy of `W - 1` bytes and then a zero reads back as the cut name. */
  lemma TerminatedWeekdayReadsBack(name: seq<byte>, buf: seq<byte>)
    requires NoNul(name) && 1 <= |buf| && buf[|buf| - 1] == NUL
    requires buf[..|buf| - 1] == StrncpyImage(name, |buf| - 1)
    ensures CString(buf) == if |name| < |buf| then name else name[..|buf| - 1]
  {
    var text := if |name| < |buf| - 1 then name else name[..|buf| - 1];
    CopyThenNulLayout(name, buf, text);
    CStringOfTerminated(text, buf[|text| + 1..]);
  }

  /** Such a buffer is the cut name, a zero, and then whatever `strncpy` padded with. */
  lemma CopyThenNulLayout(name: seq<byte>, buf: seq<byte>, text: seq<byte>)
    requires NoNul(name) && 1 <= |buf| && buf[|buf| - 1] == NUL
    requires buf[..|buf| - 1] == StrncpyImage(name, |buf| - 1)
    requires text == if |name| < |buf| - 1 then name else name[..|buf| - 1]
    ensures NoNul(text) && |text| < |buf|
    ensures buf == text + [NUL] + buf[|text| + 1..]
  {
    var n := |buf| - 1;
    CStringOfText(name);
    assert NoNul(text) by {
      forall k | 0 <= k < |text| ensures text[k] != NUL {
        assert text[k] == name[k];
      }
    }
    var tail := buf[|text| + 1..];
    var whole := text + [NUL] + tail;
    forall k | 0 <= k < |buf| ensures buf[k] == whole[k] {
      if k < |text| {
        assert buf[k] == buf[..n][k] == name[k];
        assert whole[k] == text[k];
      } else if k == |text| {
        assert whole[k] == NUL;
        if k < n {
          assert buf[k] == buf[..n][k];
        }
      } else {
        assert whole[k] == tail[k - |text| - 1];
      }
    }
  }
}
