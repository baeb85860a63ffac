/**
 * The holiday list (`generateHolidaysList` in scripts/calendar.js): holidays
 * sorted by month and day, then shown season by season, a season with no
 * holidays being skipped.
 */
module HolidayList {
  import opened Seqs
  import opened Calendar

  /** The comparator handed to `sort`: month, then day. */
  function CompareHolidays(a: Holiday, b: Holiday): (r: int)
    ensures r < 0 <==> a.month < b.month || (a.month == b.month && a.day < b.day)
    ensures r == 0 <==> a.month == b.month && a.day == b.day
  {
    if a.month != b.month then a.month - b.month else a.day - b.day
  }

  predicate HolidayLe(a: Holiday, b: Holiday) {
    CompareHolidays(a, b) <= 0
  }

  /** The sorted list holds the same holidays, ascending by (month, day). */
  function SortHolidays(hs: seq<Holiday>): (sorted: seq<Holiday>)
    ensures multiset(sorted) == multiset(hs)
    ensures forall i, j :: 0 <= i < j < |sorted| ==>
      sorted[i].month < sorted[j].month || (sorted[i].month == sorted[j].month && sorted[i].day <= sorted[j].day)
  {
    assert TotalPreorder(HolidayLe);
    SortBySorted(hs, HolidayLe);
    SortBy(hs, HolidayLe)
  }

  datatype Season = Season(name: string, months: seq<int>)

  const Seasons: seq<Season> := [
    Season("Winter", [0, 1, 2, 3]),
    Season("Spring", [4, 5, 6, 7]),
    Season("Summer", [8, 9, 10, 11]),
    Season("Autumn", [12, 13, 14, 15])
  ]

  /** The filter of a season: `season.months.includes(h.month)`. */
  function InSeason(season: Season): Holiday -> bool {
    (h: Holiday) => h.month in season.months
  }

  function SeasonHolidays(sorted: seq<Holiday>, season: Season): seq<Holiday> {
    Filter(sorted, InSeason(season))
  }

  /** Season `k` holds months 4k to 4k+3. */
  lemma SeasonMonths(k: int, month: int)
    requires 0 <= k < |Seasons|
    ensures |Seasons| == 4
    ensures month in Seasons[k].months <==> 4 * k <= month < 4 * k + 4
  {
  }

  /** A holiday in months 0..15 belongs to exactly one season, any other to none. */
  lemma ExactlyOneSeason(h: Holiday)
    ensures forall k :: 0 <= k < |Seasons| ==>
      (InSeason(Seasons[k])(h) <==> 0 <= h.month < 16 && k == h.month / 4)
  {
    forall k | 0 <= k < |Seasons|
      ensures InSeason(Seasons[k])(h) <==> 0 <= h.month < 16 && k == h.month / 4
    {
      SeasonMonths(k, h.month);
    }
  }

  /** The seasons' lists one after another. */
  function BySeason(sorted: seq<Holiday>): seq<Holiday> {
    SeasonHolidays(sorted, Seasons[0]) + SeasonHolidays(sorted, Seasons[1])
    + SeasonHolidays(sorted, Seasons[2]) + SeasonHolidays(sorted, Seasons[3])
  }

  lemma {:induction false} NoneInSeason(t: seq<Holiday>, k: int)
    requires 0 <= k < |Seasons|
    requires forall y :: y in t ==> y.month >= 4 * k + 4
    ensures SeasonHolidays(t, Seasons[k]) == []
  {
    var r := SeasonHolidays(t, Seasons[k]);
    if r != [] {
      assert r[0] in r;
      SeasonMonths(k, r[0].month);
    }
  }

  lemma SeasonHolidaysCons(x: Holiday, t: seq<Holiday>, k: int)
    requires 0 <= k < |Seasons|
    requires 0 <= x.month < 16
    ensures SeasonHolidays([x] + t, Seasons[k])
      == (if k == x.month / 4 then [x] else []) + SeasonHolidays(t, Seasons[k])
  {
    assert ([x] + t)[1..] == t;
    SeasonMonths(k, x.month);
  }

  /**
   * Read season by season, a sorted list of holidays in months 0..15 is the
   * sorted list itself: every holiday is shown once, in date order.
   */
  lemma {:induction false} BySeasonIsSorted(s: seq<Holiday>)
    requires SortedBy(s, HolidayLe)
    requires forall h :: h in s ==> 0 <= h.month < 16
    ensures BySeason(s) == s
  {
    if s != [] {
      var x, t := s[0], s[1..];
      assert s == [x] + t;
      assert SortedBy(t, HolidayLe);
      BySeasonIsSorted(t);
      forall y | y in t ensures y.month >= x.month {
        var j :| 0 <= j < |t| && t[j] == y;
        assert HolidayLe(s[0], s[j + 1]);
      }
      BySeasonCons(x, t);
    }
  }

  /** Putting a holiday in front of later-season holidays puts it in front of the seasons' lists. */
  lemma BySeasonCons(x: Holiday, t: seq<Holiday>)
    requires 0 <= x.month < 16
    requires forall y :: y in t ==> y.month >= x.month
    requires BySeason(t) == t
    ensures BySeason([x] + t) == [x] + t
  {
    var f0, f1, f2, f3 := SeasonHolidays(t, Seasons[0]), SeasonHolidays(t, Seasons[1]),
      SeasonHolidays(t, Seasons[2]), SeasonHolidays(t, Seasons[3]);
    var g0, g1, g2, g3 := SeasonHolidays([x] + t, Seasons[0]), SeasonHolidays([x] + t, Seasons[1]),
      SeasonHolidays([x] + t, Seasons[2]), SeasonHolidays([x] + t, Seasons[3]);
    SeasonHolidaysCons(x, t, 0);
    SeasonHolidaysCons(x, t, 1);
    SeasonHolidaysCons(x, t, 2);
    SeasonHolidaysCons(x, t, 3);
    if x.month >= 4 { NoneInSeason(t, 0); }
    if x.month >= 8 { NoneInSeason(t, 1); }
    if x.month >= 12 { NoneInSeason(t, 2); }
    IntoItsPart(x, x.month / 4, f0, f1, f2, f3, g0, g1, g2, g3);
  }

  /** Four consecutive parts, `x` added in front of part `k` and every earlier part empty. */
  lemma IntoItsPart<T>(x: T, k: int, f0: seq<T>, f1: seq<T>, f2: seq<T>, f3: seq<T>,
                       g0: seq<T>, g1: seq<T>, g2: seq<T>, g3: seq<T>)
    requires 0 <= k < 4
    requires g0 == (if k == 0 then [x] else []) + f0
    requires g1 == (if k == 1 then [x] else []) + f1
    requires g2 == (if k == 2 then [x] else []) + f2
    requires g3 == (if k == 3 then [x] else []) + f3
    requires k > 0 ==> f0 == []
    requires k > 1 ==> f1 == []
    requires k > 2 ==> f2 == []
    ensures g0 + g1 + g2 + g3 == [x] + (f0 + f1 + f2 + f3)
  {
    if k == 0 {
      assert g1 == f1 && g2 == f2 && g3 == f3;
      ConsAppend(x, f0, f1);
      ConsAppend(x, f0 + f1, f2);
      ConsAppend(x, f0 + f1 + f2, f3);
    } else if k == 1 {
      assert g0 + g1 == [x] + f1 && g2 == f2 && g3 == f3 && f0 + f1 == f1;
      ConsAppend(x, f1, f2);
      ConsAppend(x, f1 + f2, f3);
    } else if k == 2 {
      assert g0 + g1 + g2 == [x] + f2 && g3 == f3 && f0 + f1 + f2 == f2;
      ConsAppend(x, f2, f3);
    } else {
      assert g0 + g1 + g2 + g3 == [x] + f3 && f0 + f1 + f2 + f3 == f3;
    }
  }

  lemma ConsAppend<T>(x: T, a: seq<T>, b: seq<T>)
    ensures [x] + a + b == [x] + (a + b)
  {
  }

  /** A season's heading and its holidays, as the list shows them. */
  datatype Section = Section(season: string, holidays: seq<Holiday>)

  /** `sec` is the heading of one of `seasons` over exactly that season's holidays. */
  ghost predicate SeasonSection(sorted: seq<Holiday>, seasons: seq<Season>, sec: Section) {
    exists k :: 0 <= k < |seasons| && sec == Section(seasons[k].name, SeasonHolidays(sorted, seasons[k]))
  }

  /** The sections shown for the first seasons of `seasons`: empty seasons are skipped. */
  function Sections(sorted: seq<Holiday>, seasons: seq<Season>): (sections: seq<Section>)
    ensures |sections| <= |seasons|
    ensures forall sec :: sec in sections ==> sec.holidays != []
    ensures forall sec :: sec in sections ==> SeasonSection(sorted, seasons, sec)
  {
    if seasons == [] then []
    else
      var init := seasons[..|seasons| - 1];
      var season := seasons[|seasons| - 1];
      var shown := SeasonHolidays(sorted, season);
      var sections := Sections(sorted, init) + (if shown != [] then [Section(season.name, shown)] else []);
      forall sec | sec in sections ensures SeasonSection(sorted, seasons, sec) {
        if sec in Sections(sorted, init) {
          SeasonSectionWider(sorted, init, seasons, sec);
        } else {
          assert sec == Section(seasons[|seasons| - 1].name, SeasonHolidays(sorted, seasons[|seasons| - 1]));
        }
      }
      sections
  }

  lemma SeasonSectionWider(sorted: seq<Holiday>, init: seq<Season>, seasons: seq<Season>, sec: Section)
    requires |init| <= |seasons| && init == seasons[..|init|]
    requires SeasonSection(sorted, init, sec)
    ensures SeasonSection(sorted, seasons, sec)
  {
    var k :| 0 <= k < |init| && sec == Section(init[k].name, SeasonHolidays(sorted, init[k]));
    assert init[k] == seasons[k];
  }

  /** Seasons with distinct names give sections with distinct headings: one section per season at most. */
  lemma {:induction false} SectionHeadingsDistinct(sorted: seq<Holiday>, seasons: seq<Season>)
    requires forall i, j :: 0 <= i < j < |seasons| ==> seasons[i].name != seasons[j].name
    ensures forall i, j :: 0 <= i < j < |Sections(sorted, seasons)| ==>
      Sections(sorted, seasons)[i].season != Sections(sorted, seasons)[j].season
  {
    if seasons != [] {
      var n := |seasons| - 1;
      var init := seasons[..n];
      var prefix := Sections(sorted, init);
      var sections := Sections(sorted, seasons);
      SectionHeadingsDistinct(sorted, init);
      assert sections[..|prefix|] == prefix;
      forall i, j | 0 <= i < j < |sections| ensures sections[i].season != sections[j].season {
        if j >= |prefix| {
          assert sections[j].season == seasons[n].name;
          assert prefix[i] in prefix;
          var k :| 0 <= k < |init| && prefix[i] == Section(init[k].name, SeasonHolidays(sorted, init[k]));
          assert init[k] == seasons[k];
        } else {
          assert sections[i] == prefix[i] && sections[j] == prefix[j];
        }
      }
    }
  }

  /** All holidays of the sections, one section after another. */
  function Flatten(sections: seq<Section>): seq<Holiday> {
    if sections == [] then [] else Flatten(sections[..|sections| - 1]) + sections[|sections| - 1].holidays
  }


  lemma {:induction false} FlattenAppend(a: seq<Section>, b: seq<Section>)
    ensures Flatten(a + b) == Flatten(a) + Flatten(b)
  {
    if b != [] {
      assert (a + b)[..|a + b| - 1] == a + b[..|b| - 1];
      FlattenAppend(a, b[..|b| - 1]);
    } else {
      assert a + b == a;
    }
  }

  lemma {:induction false} FlattenSections(sorted: seq<Holiday>, seasons: seq<Season>)
    ensures Flatten(Sections(sorted, seasons)) == FlattenSeasons(sorted, seasons)
  {
    if seasons != [] {
      var init := seasons[..|seasons| - 1];
      var season := seasons[|seasons| - 1];
      var shown := SeasonHolidays(sorted, season);
      FlattenSections(sorted, init);
      var tail := if shown != [] then [Section(season.name, shown)] else [];
      FlattenAppend(Sections(sorted, init), tail);
      if shown != [] {
        assert Flatten(tail) == Flatten([]) + shown;
      }
    }
  }

  /** Every season's list, skipped or not, one after another. */
  function FlattenSeasons(sorted: seq<Holiday>, seasons: seq<Season>): seq<Holiday> {
    if seasons == [] then []
    else FlattenSeasons(sorted, seasons[..|seasons| - 1]) + SeasonHolidays(sorted, seasons[|seasons| - 1])
  }

  lemma FlattenSeasonsAll(sorted: seq<Holiday>)
    ensures FlattenSeasons(sorted, Seasons) == BySeason(sorted)
  {
    var f0, f1, f2, f3 := SeasonHolidays(sorted, Seasons[0]), SeasonHolidays(sorted, Seasons[1]),
      SeasonHolidays(sorted, Seasons[2]), SeasonHolidays(sorted, Seasons[3]);
    assert Seasons[..1][..0] == [];
    assert FlattenSeasons(sorted, Seasons[..1]) == f0;
    assert Seasons[..2][..1] == Seasons[..1];
    assert FlattenSeasons(sorted, Seasons[..2]) == f0 + f1;
    assert Seasons[..3][..2] == Seasons[..2];
    assert FlattenSeasons(sorted, Seasons[..3]) == f0 + f1 + f2;
    assert Seasons[..3] == Seasons[..|Seasons| - 1];
  }

  /** Each of the four season headings is shown at most once. */
  lemma SeasonHeadingsShownOnce(sorted: seq<Holiday>)
    ensures forall i, j :: 0 <= i < j < |Sections(sorted, Seasons)| ==>
      Sections(sorted, Seasons)[i].season != Sections(sorted, Seasons)[j].season
  {
    assert forall i, j :: 0 <= i < j < |Seasons| ==> Seasons[i].name != Seasons[j].name;
    SectionHeadingsDistinct(sorted, Seasons);
  }

  /**
   * The list shows each holiday of months 0..15 exactly once, in (month, day)
   * order, under non-empty season headings only.
   */
  lemma ShownHolidays(hs: seq<Holiday>)
    requires forall h :: h in hs ==> 0 <= h.month < 16
    ensures forall sec :: sec in Sections(SortHolidays(hs), Seasons) ==> sec.holidays != []
    ensures Flatten(Sections(SortHolidays(hs), Seasons)) == SortHolidays(hs)
  {
    var sorted := SortHolidays(hs);
    assert TotalPreorder(HolidayLe);
    SortBySorted(hs, HolidayLe);
    forall h | h in sorted ensures 0 <= h.month < 16 {
      assert h in multiset(hs);
    }
    BySeasonIsSorted(sorted);
    FlattenSections(sorted, Seasons);
    FlattenSeasonsAll(sorted);
  }

  /** The season loop of `generateHolidaysList`, without the markup. */
  method GenerateHolidaysList(holidays: seq<Holiday>) returns (sections: seq<Section>)
    ensures sections == Sections(SortHolidays(holidays), Seasons)
    ensures forall sec :: sec in sections ==> sec.holidays != []
  {
    var sorted := SortHolidays(holidays);
    sections := [];
    var i := 0;
    while i < |Seasons|
      invariant 0 <= i <= |Seasons|
      invariant sections == Sections(sorted, Seasons[..i])
    {
      var season := Seasons[i];
      var seasonHolidays := Filter(sorted, InSeason(season));
      SectionsStep(sorted, Seasons, i);
      if |seasonHolidays| > 0 {
        sections := sections + [Section(season.name, seasonHolidays)];
      }
      i := i + 1;
    }
    assert Seasons[..|Seasons|] == Seasons;
  }

  /** One more season adds its section, if it has holidays. */
  lemma SectionsStep(sorted: seq<Holiday>, seasons: seq<Season>, i: int)
    requires 0 <= i < |seasons|
    ensures Sections(sorted, seasons[..i + 1]) == Sections(sorted, seasons[..i]) +
      (if SeasonHolidays(sorted, seasons[i]) != [] then [Section(seasons[i].name, SeasonHolidays(sorted, seasons[i]))] else [])
  {
    assert seasons[..i + 1][..i] == seasons[..i];
  }
}
