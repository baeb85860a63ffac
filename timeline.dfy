/**
 * The timeline view (`generateTimeline` in scripts/calendar.js): campaign
 * events sorted by date, bucketed under their year written as an object key,
 * and the buckets listed in the order `Object.keys(...).sort()` gives.
 */
module Timeline {
  import opened Seqs
  import opened Calendar
  import opened Events

  /** The comparator handed to `sort`: year, then month, then day. */
  function CompareChronologically(a: Event, b: Event): (r: int)
    ensures r < 0 <==> a.year < b.year || (a.year == b.year && (a.month < b.month || (a.month == b.month && a.day < b.day)))
    ensures r == 0 <==> a.year == b.year && a.month == b.month && a.day == b.day
  {
    if a.year != b.year then a.year - b.year
    else if a.month != b.month then a.month - b.month
    else a.day - b.day
  }

  /** `sort` keeps `a` ahead of `b` exactly when the comparator is not positive. */
  predicate ChronoLe(a: Event, b: Event) {
    CompareChronologically(a, b) <= 0
  }

  lemma ChronoLeTotalPreorder()
    ensures TotalPreorder(ChronoLe)
  {
  }

  /** On shown dates the comparator orders events by their day count from the epoch. */
  lemma ChronoLeIsOrdinalOrder(a: Event, b: Event)
    requires ValidDate(a.month, a.day) && ValidDate(b.month, b.day)
    ensures ChronoLe(a, b) <==> Ordinal(a.year, a.month, a.day) <= Ordinal(b.year, b.month, b.day)
  {
    YearIsWholeWeeks();
    var wa := DaysBefore(a.month) + a.day - 1;
    var wb := DaysBefore(b.month) + b.day - 1;
    DayOfYearInRange(a.month, a.day);
    DayOfYearInRange(b.month, b.day);
    assert Ordinal(a.year, a.month, a.day) == a.year * 364 + wa;
    assert Ordinal(b.year, b.month, b.day) == b.year * 364 + wb;
    if a.year == b.year {
      if a.month < b.month {
        MonthDays(a.month);
        DaysBeforeMonotone(a.month, b.month);
      } else if b.month < a.month {
        MonthDays(b.month);
        DaysBeforeMonotone(b.month, a.month);
      }
    }
  }

  /** The day of the year of a shown date lies in [0, 364). */
  lemma DayOfYearInRange(month: int, day: int)
    requires ValidDate(month, day)
    ensures 0 <= DaysBefore(month) + day - 1 < 364
  {
    YearIsWholeWeeks();
    MonthTable();
    MonthDays(month);
    DaysBeforeIsWeeks(month);
    DaysBeforeMonotone(month, MonthCount);
  }

  /** The sorted copy of the store that the timeline walks. */
  function SortChronologically(events: seq<Event>): seq<Event> {
    SortBy(events, ChronoLe)
  }

  /**
   * The sort is a permutation into date order, and events on the same date
   * keep their store order.
   */
  lemma SortChronologicallySpec(events: seq<Event>)
    ensures SortedBy(SortChronologically(events), ChronoLe)
    ensures multiset(SortChronologically(events)) == multiset(events)
    ensures forall y, m, d :: OnDate(SortChronologically(events), y, m, d) == OnDate(events, y, m, d)
  {
    ChronoLeTotalPreorder();
    SortBySorted(events, ChronoLe);
    forall y, m, d ensures OnDate(SortChronologically(events), y, m, d) == OnDate(events, y, m, d) {
      SortByStable(events, ChronoLe, AtDate(y, m, d));
    }
  }

  function DigitChar(d: int): char
    requires 0 <= d < 10
  {
    (48 + d) as char
  }

  /** The number a decimal digit character stands for. */
  function DigitValue(c: char): int {
    c as int - 48
  }

  /** The number a string of decimal digits spells, most significant digit first. */
  function DecimalValue(s: string): int {
    if s == [] then 0 else 10 * DecimalValue(s[..|s| - 1]) + DigitValue(s[|s| - 1])
  }

  /** A natural number written in decimal, as `String(n)` writes it. */
  function NatToDecimal(n: nat): (s: string)
    ensures |s| >= 1
    ensures forall i :: 0 <= i < |s| ==> '0' <= s[i] <= '9'
    ensures DecimalValue(s) == n
    ensures s[0] != '0' || n == 0
    ensures (|s| == 1) == (n < 10)
  {
    if n < 10 then [DigitChar(n)]
    else
      var p := NatToDecimal(n / 10);
      assert (p + [DigitChar(n % 10)])[..|p|] == p;
      p + [DigitChar(n % 10)]
  }

  /** The property key `eventsByYear[event.year]` stores a year under: `String(year)`. */
  function YearKey(year: int): (k: string)
    ensures |k| >= 1 && (k[0] == '-' <==> year < 0)
  {
    if year < 0 then "-" + NatToDecimal(-year) else NatToDecimal(year)
  }

  /** A key spells its year: the number itself, or a minus sign and the year's magnitude. */
  lemma YearKeyValue(year: int)
    ensures year >= 0 ==> DecimalValue(YearKey(year)) == year
    ensures year < 0 ==> YearKey(year)[0] == '-' && DecimalValue(YearKey(year)[1..]) == -year
  {
    if year < 0 {
      assert YearKey(year)[1..] == NatToDecimal(-year);
    }
  }

  /** The default order of `sort` on strings: lexicographic by character. */
  predicate StrLe(a: string, b: string) {
    if a == [] then true
    else if b == [] then false
    else if a[0] != b[0] then a[0] < b[0]
    else StrLe(a[1..], b[1..])
  }

  /** `a` has a smaller character than `b` at the first place where they differ. */
  ghost predicate SmallerAtFirstDifference(a: string, b: string) {
    exists i :: 0 <= i < |a| && i < |b| && a[..i] == b[..i] && a[i] < b[i]
  }

  /**
   * The text order is the lexicographic order: `a` comes no later than `b`
   * when it is a prefix of `b` or is smaller at the first difference.
   */
  lemma {:induction false} StrLeLexicographic(a: string, b: string)
    ensures StrLe(a, b) <==> a <= b || SmallerAtFirstDifference(a, b)
  {
    if a != [] && b != [] {
      forall i | 0 < i <= |a| && i <= |b| && a[..i] == b[..i] ensures a[0] == b[0] {
        assert a[..i][0] == b[..i][0];
      }
      assert a[..0] == b[..0];
      if a[0] == b[0] {
        StrLeLexicographic(a[1..], b[1..]);
        assert a <= b <==> a[1..] <= b[1..] by {
          assert a == [a[0]] + a[1..] && b == [b[0]] + b[1..];
        }
        FirstDifferenceInTail(a, b);
      }
    }
  }

  /** Past a common first character, the first difference is the tails' first difference. */
  lemma FirstDifferenceInTail(a: string, b: string)
    requires a != [] && b != [] && a[0] == b[0]
    ensures SmallerAtFirstDifference(a, b) <==> SmallerAtFirstDifference(a[1..], b[1..])
  {
    if SmallerAtFirstDifference(a, b) {
      FirstDifferenceShiftsDown(a, b);
    }
    if SmallerAtFirstDifference(a[1..], b[1..]) {
      FirstDifferenceShiftsUp(a, b);
    }
  }

  lemma FirstDifferenceShiftsDown(a: string, b: string)
    requires a != [] && b != [] && a[0] == b[0] && SmallerAtFirstDifference(a, b)
    ensures SmallerAtFirstDifference(a[1..], b[1..])
  {
    var i :| 0 <= i < |a| && i < |b| && a[..i] == b[..i] && a[i] < b[i];
    assert i != 0;
    assert a[1..][..i - 1] == a[..i][1..] && b[1..][..i - 1] == b[..i][1..];
    assert a[1..][i - 1] < b[1..][i - 1];
  }

  lemma FirstDifferenceShiftsUp(a: string, b: string)
    requires a != [] && b != [] && a[0] == b[0] && SmallerAtFirstDifference(a[1..], b[1..])
    ensures SmallerAtFirstDifference(a, b)
  {
    var j :| 0 <= j < |a[1..]| && j < |b[1..]| && a[1..][..j] == b[1..][..j] && a[1..][j] < b[1..][j];
    assert a[..j + 1] == [a[0]] + a[1..][..j] && b[..j + 1] == [b[0]] + b[1..][..j];
    assert a[j + 1] < b[j + 1];
  }

  lemma {:induction false} StrLeTotal(a: string, b: string)
    ensures StrLe(a, b) || StrLe(b, a)
  {
    if a != [] && b != [] && a[0] == b[0] {
      StrLeTotal(a[1..], b[1..]);
    }
  }

  lemma {:induction false} StrLeTransitive(a: string, b: string, c: string)
    requires StrLe(a, b) && StrLe(b, c)
    ensures StrLe(a, c)
  {
    if a != [] && b != [] && c != [] && a[0] == b[0] && b[0] == c[0] {
      StrLeTransitive(a[1..], b[1..], c[1..]);
    }
  }

  lemma {:induction false} StrLeAntisymmetric(a: string, b: string)
    requires StrLe(a, b) && StrLe(b, a)
    ensures a == b
  {
    if a != [] && b != [] {
      StrLeAntisymmetric(a[1..], b[1..]);
      assert a == [a[0]] + a[1..] && b == [b[0]] + b[1..];
    }
  }

  lemma StrLeTotalPreorder()
    ensures TotalPreorder(StrLe)
  {
    forall a, b ensures StrLe(a, b) || StrLe(b, a) {
      StrLeTotal(a, b);
    }
    forall a, b, c | StrLe(a, b) && StrLe(b, c) ensures StrLe(a, c) {
      StrLeTransitive(a, b, c);
    }
  }

  /** Appending one character each to two equally long strings decides ties only. */
  lemma {:induction false} StrLeSnoc(p: string, x: char, q: string, y: char)
    requires |p| == |q|
    ensures StrLe(p + [x], q + [y]) <==> (StrLe(p, q) && p != q) || (p == q && x <= y)
  {
    var px, qy := p + [x], q + [y];
    if p == [] {
      assert px == [x] && qy == [y];
    } else {
      assert px[0] == p[0] && px[1..] == p[1..] + [x];
      assert qy[0] == q[0] && qy[1..] == q[1..] + [y];
      StrLeSnoc(p[1..], x, q[1..], y);
      if p[0] == q[0] {
        assert p == q <==> p[1..] == q[1..] by {
          assert p == [p[0]] + p[1..] && q == [q[0]] + q[1..];
        }
      } else {
        assert p != q;
      }
    }
  }

  /** Among numbers of the same width, decimal strings compare as the numbers do. */
  lemma {:induction false} DecimalOrder(a: nat, b: nat)
    requires |NatToDecimal(a)| == |NatToDecimal(b)|
    ensures StrLe(NatToDecimal(a), NatToDecimal(b)) <==> a <= b
    ensures NatToDecimal(a) == NatToDecimal(b) <==> a == b
  {
    if a >= 10 {
      DecimalOrder(a / 10, b / 10);
      StrLeSnoc(NatToDecimal(a / 10), DigitChar(a % 10), NatToDecimal(b / 10), DigitChar(b % 10));
      var pa, pb := NatToDecimal(a / 10), NatToDecimal(b / 10);
      if NatToDecimal(a) == NatToDecimal(b) {
        assert NatToDecimal(a)[..|pa|] == pa && NatToDecimal(b)[..|pb|] == pb;
        assert NatToDecimal(a)[|pa|] == DigitChar(a % 10) && NatToDecimal(b)[|pb|] == DigitChar(b % 10);
      }
    }
  }

  /** Distinct years get distinct keys. */
  lemma YearKeyInjective(a: int, b: int)
    requires YearKey(a) == YearKey(b)
    ensures a == b
  {
    YearKeyValue(a);
    YearKeyValue(b);
  }

  /** Bucket keys sort chronologically among non-negative years of the same width. */
  lemma YearKeyOrderSameWidth(a: int, b: int)
    requires a >= 0 && b >= 0 && |YearKey(a)| == |YearKey(b)|
    ensures StrLe(YearKey(a), YearKey(b)) <==> a <= b
  {
    DecimalOrder(a, b);
  }

  /** As written: the bucket of year 100 is listed before that of year 99. */
  lemma YearKeyOrderNotChronological()
    ensures YearKey(100) == "100" && YearKey(99) == "99"
    ensures StrLe(YearKey(100), YearKey(99)) && !StrLe(YearKey(99), YearKey(100))
  {
    assert NatToDecimal(10) == "10";
    assert NatToDecimal(100) == "10" + ['0'];
    assert NatToDecimal(99) == "9" + ['9'];
  }

  /** The keys of the buckets: one per year that occurs. */
  function YearKeys(events: seq<Event>): set<string> {
    set e | e in events :: YearKey(e.year)
  }

  function InYear(key: string): Event -> bool {
    (e: Event) => YearKey(e.year) == key
  }

  /** The events filed under `key`, in the order the walk meets them. */
  function YearBucket(events: seq<Event>, key: string): seq<Event> {
    Filter(events, InYear(key))
  }

  /** Every event lands in its own year's bucket and in no other. */
  lemma YearBucketOwnYear(events: seq<Event>, year: int)
    ensures forall e :: e in YearBucket(events, YearKey(year)) <==> e in events && e.year == year
  {
    forall e | e in events && YearKey(e.year) == YearKey(year) ensures e.year == year {
      YearKeyInjective(e.year, year);
    }
  }

  predicate IntLe(a: int, b: int) {
    a <= b
  }

  /** The bucket order the timeline evidently intends: years ascending as numbers. */
  function ChronologicalYearOrder(years: seq<int>): (r: seq<int>)
    ensures multiset(r) == multiset(years)
    ensures forall i, j :: 0 <= i < j < |r| ==> r[i] <= r[j]
  {
    SortBySorted(years, IntLe);
    SortBy(years, IntLe)
  }

  /** The keys of a list of years, position by position. */
  function YearKeysOf(years: seq<int>): (keys: seq<string>)
    ensures |keys| == |years|
    ensures forall i :: 0 <= i < |years| ==> keys[i] == YearKey(years[i])
  {
    seq(|years|, i requires 0 <= i < |years| => YearKey(years[i]))
  }

  /** `Object.keys(eventsByYear).sort()`: the keys in text order, as written. */
  function KeyListing(keys: seq<string>): (r: seq<string>)
    ensures multiset(r) == multiset(keys)
    ensures SortedBy(r, StrLe)
  {
    StrLeTotalPreorder();
    SortBySorted(keys, StrLe);
    SortBy(keys, StrLe)
  }

  /**
   * The listing does not depend on the order the keys are handed over in:
   * any arrangement of the same distinct keys lists the same way.
   */
  lemma KeyListingAnyOrder(keys: seq<string>, keys': seq<string>)
    requires Distinct(keys) && multiset(keys) == multiset(keys')
    ensures KeyListing(keys) == KeyListing(keys')
  {
    var r, r' := KeyListing(keys), KeyListing(keys');
    DistinctPermutation(keys, r);
    DistinctPermutation(keys, r');
    forall x ensures x in r <==> x in r' {
      assert x in r <==> x in multiset(r);
      assert x in r' <==> x in multiset(r');
    }
    StrLeIsAntisymmetric();
    SortedUnique(r, r', StrLe);
  }

  lemma StrLeIsAntisymmetric()
    ensures forall a, b :: StrLe(a, b) && StrLe(b, a) ==> a == b
  {
    forall a, b | StrLe(a, b) && StrLe(b, a) ensures a == b {
      StrLeAntisymmetric(a, b);
    }
  }

  /** Distinct years have distinct keys. */
  lemma YearKeysOfDistinct(years: seq<int>)
    requires Distinct(years)
    ensures Distinct(YearKeysOf(years))
  {
    var keys := YearKeysOf(years);
    forall i, j | 0 <= i < j < |keys| ensures keys[i] != keys[j] {
      if keys[i] == keys[j] {
        YearKeyInjective(years[i], years[j]);
      }
    }
  }

  /** A key is listed exactly when some listed year has it. */
  lemma YearKeysOfMembers(years: seq<int>, key: string)
    ensures key in YearKeysOf(years) <==> exists y :: y in years && YearKey(y) == key
  {
    var keys := YearKeysOf(years);
    if key in keys {
      var i :| 0 <= i < |keys| && keys[i] == key;
      assert years[i] in years;
    }
    if exists y :: y in years && YearKey(y) == key {
      var y :| y in years && YearKey(y) == key;
      var i :| 0 <= i < |years| && years[i] == y;
      assert keys[i] == key;
    }
  }

  /**
   * Where every year is non-negative and has the same width, the as-written
   * listing is the corrected year order written as keys: pair by pair, text
   * order and numeric order agree, and so do the two listings.
   */
  lemma KeyOrderChronologicalSameWidth(years: seq<int>, width: nat)
    requires Distinct(years)
    requires forall y :: y in years ==> y >= 0 && |YearKey(y)| == width
    ensures forall i, j :: 0 <= i < |years| && 0 <= j < |years| ==>
      (StrLe(YearKey(years[i]), YearKey(years[j])) <==> years[i] <= years[j])
    ensures KeyListing(YearKeysOf(years)) == YearKeysOf(ChronologicalYearOrder(years))
  {
    forall i, j | 0 <= i < |years| && 0 <= j < |years|
      ensures StrLe(YearKey(years[i]), YearKey(years[j])) <==> years[i] <= years[j]
    {
      assert years[i] in years && years[j] in years;
      YearKeyOrderSameWidth(years[i], years[j]);
    }
    var ordered := ChronologicalYearOrder(years);
    var listed, keys := KeyListing(YearKeysOf(years)), YearKeysOf(ordered);
    forall y ensures y in ordered <==> y in years {
      assert y in ordered <==> y in multiset(ordered);
      assert y in years <==> y in multiset(years);
    }
    DistinctPermutation(years, ordered);
    YearKeysOfDistinct(years);
    YearKeysOfDistinct(ordered);
    DistinctPermutation(YearKeysOf(years), listed);
    forall i, j | 0 <= i < j < |keys| ensures StrLe(keys[i], keys[j]) {
      assert ordered[i] in years && ordered[j] in years;
      assert ordered[i] != ordered[j];
      YearKeyOrderSameWidth(ordered[i], ordered[j]);
    }
    forall k ensures k in listed <==> k in keys {
      assert k in listed <==> k in multiset(listed);
      assert k in YearKeysOf(years) <==> k in multiset(YearKeysOf(years));
      YearKeysOfMembers(years, k);
      YearKeysOfMembers(ordered, k);
    }
    StrLeIsAntisymmetric();
    SortedUnique(listed, keys, StrLe);
  }

  /** As written: with years 99 and 100 the bucket "100" is listed first. */
  lemma ListingNotChronological()
    ensures KeyListing(YearKeysOf([99, 100])) == ["100", "99"]
  {
    YearKeyOrderNotChronological();
    assert YearKeysOf([99, 100]) == ["99", "100"];
    ListingOfTwo("99", "100");
  }

  /** Two keys the text order puts the other way round are listed swapped. */
  lemma ListingOfTwo(a: string, b: string)
    requires !StrLe(a, b)
    ensures KeyListing([a, b]) == [b, a]
  {
    assert [a, b][1..] == [b];
    assert SortBy([b], StrLe) == InsertBy(b, SortBy([], StrLe), StrLe) == [b];
    assert [b][1..] == [];
    assert InsertBy(a, [b], StrLe) == [b] + InsertBy(a, [], StrLe);
  }

  /** Corrected: years 99 and 100 are listed 99 first. */
  lemma ChronologicalListing()
    ensures YearKeysOf(ChronologicalYearOrder([99, 100])) == ["99", "100"]
  {
    YearKeyOrderNotChronological();
    assert SortBy([100], IntLe) == InsertBy(100, SortBy([], IntLe), IntLe) == [100];
    assert [99, 100][1..] == [100];
    assert SortBy([99, 100], IntLe) == InsertBy(99, [100], IntLe) == [99, 100];
  }
}
