/**
 * Looking up what happens on a date (`findEvents` in scripts/calendar.js):
 * campaign events match on year, month and day; holidays recur every year and
 * are turned into holiday-typed events stamped with the queried year.
 */
module Events {
  import opened Wrappers
  import opened Seqs
  import opened Calendar

  /** A campaign event as stored in `CAMPAIGN_EVENTS`, with flat date fields. */
  datatype Event = Event(
    id: string,
    title: string,
    eventType: string,
    year: int,
    month: int,
    day: int,
    description: string,
    fullDetails: Option<string>)

  /** The characters JavaScript's `\s` matches (ECMAScript WhiteSpace and LineTerminator). */
  predicate IsJsWhitespace(c: char) {
    || c == ' ' || c == '\t' || c == '\n' || c == '\r'
    || c == '\U{000B}' || c == '\U{000C}' || c == '\U{00A0}' || c == '\U{1680}'
    || ('\U{2000}' <= c <= '\U{200A}')
    || c == '\U{2028}' || c == '\U{2029}' || c == '\U{202F}' || c == '\U{205F}'
    || c == '\U{3000}' || c == '\U{FEFF}'
  }

  predicate IsAsciiUpper(c: char) {
    'A' <= c <= 'Z'
  }

  /** `toLowerCase` on the ASCII letters. */
  function ToLowerAscii(c: char): char {
    if IsAsciiUpper(c) then (c as int + 32) as char else c
  }

  /** One character of `name.toLowerCase().replace(/\s/g, '-')`. */
  function SlugChar(c: char): char {
    if IsJsWhitespace(c) then '-' else ToLowerAscii(c)
  }

  /** `name.toLowerCase().replace(/\s/g, '-')`: same length, no whitespace, no capitals. */
  function Slugify(name: string): (r: string)
    ensures |r| == |name|
    ensures forall i :: 0 <= i < |r| ==> !IsJsWhitespace(r[i]) && !IsAsciiUpper(r[i])
  {
    if name == [] then [] else Slugify(name[..|name| - 1]) + [SlugChar(name[|name| - 1])]
  }

  /** The synthetic id of a holiday shown as an event. */
  function HolidayId(name: string): (id: string)
    ensures |id| == |name| + 8 && id[..8] == "holiday-" && id[8..] == Slugify(name)
    ensures forall i :: 8 <= i < |id| ==> !IsJsWhitespace(id[i])
  {
    "holiday-" + Slugify(name)
  }

  lemma SlugifySnoc(name: string, c: char)
    ensures Slugify(name + [c]) == Slugify(name) + [SlugChar(c)]
  {
    assert (name + [c])[..|name|] == name;
  }

  /** Each character is replaced on its own: whitespace by '-', capitals by small letters. */
  lemma {:induction false} SlugifyAt(name: string, i: int)
    requires 0 <= i < |name|
    ensures Slugify(name)[i] == SlugChar(name[i])
  {
    if i < |name| - 1 {
      SlugifyAt(name[..|name| - 1], i);
    }
  }

  /** Slugifying a slug changes nothing: the id derivation is a projection. */
  lemma {:induction false} SlugifyIdempotent(name: string)
    ensures Slugify(Slugify(name)) == Slugify(name)
  {
    if name != [] {
      var slug := Slugify(name);
      SlugifyIdempotent(name[..|name| - 1]);
      assert slug[..|slug| - 1] == Slugify(name[..|name| - 1]);
    }
  }

  lemma MidwinterSlug5()
    ensures Slugify("Midwi") == "midwi"
  {
    assert Slugify("M") == "m" by {
      assert "M" == "" + ['M'];
      SlugifySnoc("", 'M');
    }
    assert Slugify("Mi") == "mi" by {
      assert "Mi" == "M" + ['i'];
      SlugifySnoc("M", 'i');
    }
    assert Slugify("Mid") == "mid" by {
      assert "Mid" == "Mi" + ['d'];
      SlugifySnoc("Mi", 'd');
    }
    assert Slugify("Midw") == "midw" by {
      assert "Midw" == "Mid" + ['w'];
      SlugifySnoc("Mid", 'w');
    }
    assert Slugify("Midwi") == "midwi" by {
      assert "Midwi" == "Midw" + ['i'];
      SlugifySnoc("Midw", 'i');
    }
  }

  lemma MidwinterSlug9()
    ensures Slugify("Midwinter") == "midwinter"
  {
    MidwinterSlug5();
    assert Slugify("Midwin") == "midwin" by {
      assert "Midwin" == "Midwi" + ['n'];
      SlugifySnoc("Midwi", 'n');
    }
    assert Slugify("Midwint") == "midwint" by {
      assert "Midwint" == "Midwin" + ['t'];
      SlugifySnoc("Midwin", 't');
    }
    assert Slugify("Midwinte") == "midwinte" by {
      assert "Midwinte" == "Midwint" + ['e'];
      SlugifySnoc("Midwint", 'e');
    }
    assert Slugify("Midwinter") == "midwinter" by {
      assert "Midwinter" == "Midwinte" + ['r'];
      SlugifySnoc("Midwinte", 'r');
    }
  }

  lemma MidwinterSlug13()
    ensures Slugify("Midwinter's N") == "midwinter's-n"
  {
    MidwinterSlug9();
    assert Slugify("Midwinter'") == "midwinter'" by {
      assert "Midwinter'" == "Midwinter" + ['\''];
      SlugifySnoc("Midwinter", '\'');
    }
    assert Slugify("Midwinter's") == "midwinter's" by {
      assert "Midwinter's" == "Midwinter'" + ['s'];
      SlugifySnoc("Midwinter'", 's');
    }
    assert Slugify("Midwinter's ") == "midwinter's-" by {
      assert "Midwinter's " == "Midwinter's" + [' '];
      SlugifySnoc("Midwinter's", ' ');
    }
    assert Slugify("Midwinter's N") == "midwinter's-n" by {
      assert "Midwinter's N" == "Midwinter's " + ['N'];
      SlugifySnoc("Midwinter's ", 'N');
    }
  }

  lemma MidwinterSlug17()
    ensures Slugify("Midwinter's Night") == "midwinter's-night"
  {
    MidwinterSlug13();
    assert Slugify("Midwinter's Ni") == "midwinter's-ni" by {
      assert "Midwinter's Ni" == "Midwinter's N" + ['i'];
      SlugifySnoc("Midwinter's N", 'i');
    }
    assert Slugify("Midwinter's Nig") == "midwinter's-nig" by {
      assert "Midwinter's Nig" == "Midwinter's Ni" + ['g'];
      SlugifySnoc("Midwinter's Ni", 'g');
    }
    assert Slugify("Midwinter's Nigh") == "midwinter's-nigh" by {
      assert "Midwinter's Nigh" == "Midwinter's Nig" + ['h'];
      SlugifySnoc("Midwinter's Nig", 'h');
    }
    assert Slugify("Midwinter's Night") == "midwinter's-night" by {
      assert "Midwinter's Night" == "Midwinter's Nigh" + ['t'];
      SlugifySnoc("Midwinter's Nigh", 't');
    }
  }

  lemma MidwinterId()
    ensures HolidayId("Midwinter's Night") == "holiday-midwinter's-night"
  {
    MidwinterSlug17();
  }

  /** The event a holiday becomes on a queried date. */
  function HolidayEntry(h: Holiday, year: int, month: int, day: int): Event {
    Event(HolidayId(h.name), h.name, "holiday", year, month, day, h.description, None)
  }

  /** The holidays on (month, day), in table order, as events of the queried year. */
  function HolidayEntries(hs: seq<Holiday>, year: int, month: int, day: int): (r: seq<Event>)
    ensures |r| <= |hs|
    ensures forall e :: e in r ==> e.eventType == "holiday" && e.year == year && e.month == month && e.day == day
  {
    if hs == [] then []
    else
      (if hs[0].month == month && hs[0].day == day then [HolidayEntry(hs[0], year, month, day)] else [])
      + HolidayEntries(hs[1..], year, month, day)
  }

  lemma {:induction false} HolidayEntriesAppend(a: seq<Holiday>, b: seq<Holiday>, year: int, month: int, day: int)
    ensures HolidayEntries(a + b, year, month, day) == HolidayEntries(a, year, month, day) + HolidayEntries(b, year, month, day)
  {
    if a == [] {
      assert a + b == b;
    } else {
      assert (a + b)[1..] == a[1..] + b;
      HolidayEntriesAppend(a[1..], b, year, month, day);
    }
  }

  /** Exactly the holidays whose month and day match are listed, titled and id'd by name. */
  lemma {:induction false} HolidayEntriesExact(hs: seq<Holiday>, year: int, month: int, day: int)
    ensures forall h :: h in hs && h.month == month && h.day == day ==>
      HolidayEntry(h, year, month, day) in HolidayEntries(hs, year, month, day)
    ensures forall e :: e in HolidayEntries(hs, year, month, day) ==>
      exists h :: h in hs && h.month == month && h.day == day && e == HolidayEntry(h, year, month, day)
  {
    if hs != [] {
      HolidayEntriesExact(hs[1..], year, month, day);
    }
  }

  /** Holidays recur: another year gives the same entries, restamped with that year. */
  lemma {:induction false} HolidayEntriesRecur(hs: seq<Holiday>, y1: int, y2: int, month: int, day: int)
    ensures |HolidayEntries(hs, y1, month, day)| == |HolidayEntries(hs, y2, month, day)|
    ensures forall i :: 0 <= i < |HolidayEntries(hs, y1, month, day)| ==>
      HolidayEntries(hs, y2, month, day)[i] == HolidayEntries(hs, y1, month, day)[i].(year := y2)
  {
    if hs != [] {
      HolidayEntriesRecur(hs[1..], y1, y2, month, day);
      var e1, e2 := HolidayEntries(hs, y1, month, day), HolidayEntries(hs, y2, month, day);
      var r1, r2 := HolidayEntries(hs[1..], y1, month, day), HolidayEntries(hs[1..], y2, month, day);
      if hs[0].month == month && hs[0].day == day {
        assert e1 == [HolidayEntry(hs[0], y1, month, day)] + r1;
        assert e2 == [HolidayEntry(hs[0], y2, month, day)] + r2;
        forall i | 0 <= i < |e1| ensures e2[i] == e1[i].(year := y2) {
          if i > 0 {
            assert e1[i] == r1[i - 1] && e2[i] == r2[i - 1];
          }
        }
      } else {
        assert e1 == r1 && e2 == r2;
      }
    }
  }

  /** The filter predicate of `findEvents`: the event falls on exactly this date. */
  function AtDate(year: int, month: int, day: int): Event -> bool {
    (e: Event) => e.year == year && e.month == month && e.day == day
  }

  function OnDate(s: seq<Event>, year: int, month: int, day: int): seq<Event> {
    Filter(s, AtDate(year, month, day))
  }

  /**
   * `findEvents` as a value: the store plus the holiday entries, filtered on
   * the date. Matching campaign events come first, in store order, then the
   * holidays in table order.
   */
  function EventsOn(store: seq<Event>, hs: seq<Holiday>, year: int, month: int, day: int): (found: seq<Event>)
    ensures found == OnDate(store, year, month, day) + HolidayEntries(hs, year, month, day)
  {
    var entries := HolidayEntries(hs, year, month, day);
    FilterAppend(store, entries, AtDate(year, month, day));
    FilterAllPass(entries, AtDate(year, month, day));
    OnDate(store + entries, year, month, day)
  }

  lemma {:induction false} FilterAllPass<T(!new)>(s: seq<T>, p: T -> bool)
    requires forall x :: x in s ==> p(x)
    ensures Filter(s, p) == s
  {
    if s != [] {
      FilterAllPass(s[1..], p);
      assert s == [s[0]] + s[1..];
    }
  }


  /**
   * Campaign events match on the exact year, month and day; holidays on month
   * and day in every year.
   */
  lemma EventsOnExact(store: seq<Event>, hs: seq<Holiday>, year: int, month: int, day: int)
    ensures forall e :: e in EventsOn(store, hs, year, month, day) ==>
      e.year == year && e.month == month && e.day == day
    ensures forall e :: e in store ==>
      (e in EventsOn(store, hs, year, month, day) <==> e.year == year && e.month == month && e.day == day)
    ensures forall h :: h in hs && h.month == month && h.day == day ==>
      HolidayEntry(h, year, month, day) in EventsOn(store, hs, year, month, day)
  {
    HolidayEntriesExact(hs, year, month, day);
  }

  /** Midwinter's Night shows on day 4 of Needfest in 568 CY, and not on day 5. */
  lemma MidwinterScenario()
    ensures HolidayEntries(Holidays, 568, 0, 4) == [Event("holiday-midwinter's-night",
      "Midwinter's Night", "holiday", 568, 0, 4, Holidays[0].description, None)]
    ensures HolidayEntries(Holidays, 568, 0, 5) == []
  {
    MidwinterId();
    assert Holidays == [Holidays[0]] + Holidays[1..];
    forall i | 0 <= i < |Holidays[1..]| ensures Holidays[1..][i].month > 0 {
      assert Holidays[1..][i] == Holidays[i + 1];
      if i < 3 {
        if i == 0 {} else if i == 1 {} else {}
      } else if i < 5 {
        if i == 3 {} else {}
      } else {
        if i == 5 {} else {}
      }
    }
    NoEntriesInLaterMonths(Holidays[1..], 568, 0, 4);
    NoEntriesInLaterMonths(Holidays[1..], 568, 0, 5);
  }

  /** Holidays all set in later months give no entries. */
  lemma {:induction false} NoEntriesInLaterMonths(hs: seq<Holiday>, year: int, month: int, day: int)
    requires forall i :: 0 <= i < |hs| ==> hs[i].month > month
    ensures HolidayEntries(hs, year, month, day) == []
  {
    if hs != [] {
      NoEntriesInLaterMonths(hs[1..], year, month, day);
    }
  }
}
