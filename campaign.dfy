/**
 * The campaign store of scripts/calendar.js: the `CAMPAIGN_EVENTS` and
 * `CHARACTERS` arrays that the page loads, extends from the admin form and
 * reads to look up a date or to build the timeline.
 */
module Campaign {
  import opened Wrappers
  import opened Seqs
  import opened Calendar
  import opened Events
  import opened Timeline

  /** A character as the admin form creates it. */
  datatype Character = Character(
    id: string,
    name: string,
    characterType: string,
    shortDescription: string,
    fullBio: string)

  /**
   * How one request of the loader ends: the response parsed as JSON, a
   * response that is not `ok`, or a rejection (network failure or a body
   * that is not JSON).
   */
  datatype Fetch<T> = Loaded(data: T) | NotOk | Threw

  /** The years that occur among `events`. */
  function YearsOf(events: seq<Event>): set<int> {
    set e | e in events :: e.year
  }

  /** The copy of the store with the holidays on (month, day) pushed as events of `year`. */
  method WithHolidayEntries(store: seq<Event>, hs: seq<Holiday>, year: int, month: int, day: int)
    returns (all: seq<Event>)
    ensures all == store + HolidayEntries(hs, year, month, day)
  {
    all := store;
    var i := 0;
    while i < |hs|
      invariant 0 <= i <= |hs|
      invariant all == store + HolidayEntries(hs[..i], year, month, day)
    {
      var holiday := hs[i];
      HolidayEntriesAppend(hs[..i], [holiday], year, month, day);
      assert hs[..i + 1] == hs[..i] + [holiday];
      if holiday.month == month && holiday.day == day {
        all := all + [HolidayEntry(holiday, year, month, day)];
      }
      i := i + 1;
    }
    assert hs[..|hs|] == hs;
  }

  /** The final `filter` of `findEvents`: the events on exactly (year, month, day), in order. */
  method FilterOnDate(all: seq<Event>, year: int, month: int, day: int) returns (found: seq<Event>)
    ensures found == OnDate(all, year, month, day)
  {
    found := [];
    var j := 0;
    while j < |all|
      invariant 0 <= j <= |all|
      invariant found == OnDate(all[..j], year, month, day)
    {
      var event := all[j];
      FilterAppend(all[..j], [event], AtDate(year, month, day));
      assert all[..j + 1] == all[..j] + [event];
      if event.year == year && event.month == month && event.day == day {
        found := found + [event];
      }
      j := j + 1;
    }
    assert all[..|all|] == all;
  }

  /**
   * The bucketing walk of `generateTimeline`: each event is pushed onto its
   * year's bucket, the bucket created when the year is first met.
   */
  method FileByYear(sorted: seq<Event>) returns (byYear: map<string, seq<Event>>, years: seq<int>)
    ensures Filed(sorted, byYear, years)
  {
    byYear := map[];
    years := [];
    var i := 0;
    while i < |sorted|
      invariant 0 <= i <= |sorted|
      invariant (byYear, years) == Filing(sorted[..i])
    {
      var event := sorted[i];
      var key := YearKey(event.year);
      var bucket := if key in byYear then byYear[key] else [];
      if key !in byYear {
        years := years + [event.year];
      }
      byYear := byYear[key := bucket + [event]];
      assert sorted[..i + 1][..i] == sorted[..i];
      i := i + 1;
    }
    assert sorted[..|sorted|] == sorted;
    FilingIsFiled(sorted);
  }

  class CampaignStore {
    var events: seq<Event>
    var characters: seq<Character>

    /** Both arrays start out empty. */
    constructor ()
      ensures events == [] && characters == []
    {
      events := [];
      characters := [];
    }

    /**
     * `findEvents`: the store is copied, the holidays on (month, day) are
     * pushed as events of `year`, and the copy is filtered on the date.
     * Matching store events come first, in store order, then the holidays in
     * table order; the store itself is left as it was.
     */
    method FindEvents(year: int, month: int, day: int) returns (found: seq<Event>)
      ensures found == EventsOn(events, Holidays, year, month, day)
      ensures found == OnDate(events, year, month, day) + HolidayEntries(Holidays, year, month, day)
    {
      var all := WithHolidayEntries(events, Holidays, year, month, day);
      found := FilterOnDate(all, year, month, day);
    }

    /**
     * `generateTimeline`: the events sorted chronologically, then filed into
     * buckets keyed by the year's decimal text in the order the walk meets
     * them. `keyOrder` is the bucket listing as written, the keys in text
     * order; `yearOrder` is the listing the timeline evidently intends,
     * ascending by number (see `Timeline.ChronologicalYearOrder`). The two
     * agree whenever every year is non-negative and has the same width.
     */
    method GenerateTimeline() returns (sorted: seq<Event>, byYear: map<string, seq<Event>>,
                                       keyOrder: seq<string>, yearOrder: seq<int>)
      ensures sorted == SortChronologically(events)
      ensures byYear.Keys == YearKeys(sorted)
      ensures forall key :: key in byYear ==> byYear[key] == YearBucket(sorted, key)
      ensures SortedBy(keyOrder, StrLe) && Distinct(keyOrder)
      ensures forall key :: key in keyOrder <==> key in byYear
      ensures forall y :: y in yearOrder <==> y in YearsOf(events)
      ensures forall y :: y in yearOrder ==> YearKey(y) in byYear
      ensures forall i, j :: 0 <= i < j < |yearOrder| ==> yearOrder[i] < yearOrder[j]
      ensures (forall y, z :: y in yearOrder && z in yearOrder ==> y >= 0 && |YearKey(y)| == |YearKey(z)|)
        ==> keyOrder == YearKeysOf(yearOrder)
    {
      sorted := SortChronologically(events);
      var years;
      byYear, years := FileByYear(sorted);
      keyOrder := KeyListing(YearKeysOf(years));
      yearOrder := ChronologicalYearOrder(years);
      SortKeepsYears(events);
      YearListing(years, yearOrder);
      forall y | y in yearOrder ensures YearKey(y) in byYear {
        YearKeyOfMet(sorted, y);
      }
      KeyListingOfFiled(sorted, byYear, years);
      if forall y, z :: y in yearOrder && z in yearOrder ==> y >= 0 && |YearKey(y)| == |YearKey(z)| {
        var width := if yearOrder == [] then 0 else |YearKey(yearOrder[0])|;
        assert forall y :: y in years ==> y in yearOrder;
        KeyOrderChronologicalSameWidth(years, width);
      }
    }

    /**
     * `saveAdminContent`: an empty title saves nothing; a "character" entry
     * appends a non-player character; any other type appends an event of
     * that type on the chosen date. `stamp` stands for `Date.now()`.
     */
    method SaveAdminContent(formType: string, title: string, summary: string, details: string,
                            year: int, month: int, day: int, stamp: string)
      modifies this
      ensures title == "" ==> events == old(events) && characters == old(characters)
      ensures title != "" && formType == "character" ==>
        && characters == old(characters) + [Character("char-" + stamp, title, "npc", summary, details)]
        && events == old(events)
      ensures title != "" && formType != "character" ==>
        && events == old(events) + [Event("event-" + stamp, title, formType, year, month, day, summary, Some(details))]
        && characters == old(characters)
    {
      if title == "" {
        return;
      }
      if formType == "character" {
        characters := characters + [Character("char-" + stamp, title, "npc", summary, details)];
      } else {
        events := events + [Event("event-" + stamp, title, formType, year, month, day, summary, Some(details))];
      }
    }

    /**
     * `loadCampaignData`: each array that loads is emptied and refilled in
     * order; a response that is not `ok` leaves its array alone; a rejection
     * ends the load there, so a failed events request also skips the
     * characters.
     */
    method LoadCampaignData(eventsFetch: Fetch<seq<Event>>, charactersFetch: Fetch<seq<Character>>)
      modifies this
      ensures eventsFetch.Loaded? ==> events == eventsFetch.data
      ensures !eventsFetch.Loaded? ==> events == old(events)
      ensures !eventsFetch.Threw? && charactersFetch.Loaded? ==> characters == charactersFetch.data
      ensures eventsFetch.Threw? || !charactersFetch.Loaded? ==> characters == old(characters)
    {
      match eventsFetch {
        case Threw => return;
        case NotOk =>
        case Loaded(loaded) =>
          events := [];
          var i := 0;
          while i < |loaded|
            invariant 0 <= i <= |loaded|
            invariant events == loaded[..i]
            invariant characters == old(characters)
          {
            events := events + [loaded[i]];
            assert loaded[..i + 1] == loaded[..i] + [loaded[i]];
            i := i + 1;
          }
          assert loaded[..|loaded|] == loaded;
      }
      ghost var loadedEvents := events;
      match charactersFetch {
        case Threw =>
        case NotOk =>
        case Loaded(loaded) =>
          characters := [];
          var i := 0;
          while i < |loaded|
            invariant 0 <= i <= |loaded|
            invariant characters == loaded[..i]
            invariant events == loadedEvents
          {
            characters := characters + [loaded[i]];
            assert loaded[..i + 1] == loaded[..i] + [loaded[i]];
            i := i + 1;
          }
          assert loaded[..|loaded|] == loaded;
      }
    }
  }

  /**
   * The state of the timeline's bucketing walk after `prefix`: one bucket per
   * year key met, holding that key's events in walk order, and the years met,
   * each once.
   */
  ghost predicate Filed(prefix: seq<Event>, byYear: map<string, seq<Event>>, years: seq<int>) {
    && byYear.Keys == YearKeys(prefix)
    && (forall key :: key in byYear ==> byYear[key] == YearBucket(prefix, key))
    && (forall y :: y in years <==> y in YearsOf(prefix))
    && Distinct(years)
  }

  /** Filing one more event keeps the walk's state. */
  lemma FileStep(prefix: seq<Event>, event: Event, byYear: map<string, seq<Event>>, years: seq<int>,
                 byYear': map<string, seq<Event>>, years': seq<int>)
    requires Filed(prefix, byYear, years)
    requires years' == if YearKey(event.year) in byYear then years else years + [event.year]
    requires byYear' == byYear[YearKey(event.year) :=
      (if YearKey(event.year) in byYear then byYear[YearKey(event.year)] else []) + [event]]
    ensures Filed(prefix + [event], byYear', years')
  {
    YearKeysSnoc(prefix, event);
    FileBucketsStep(prefix, event, byYear, byYear');
    FileYearsStep(prefix, event, byYear, years, years');
  }

  lemma FileBucketsStep(prefix: seq<Event>, event: Event, byYear: map<string, seq<Event>>,
                        byYear': map<string, seq<Event>>)
    requires byYear.Keys == YearKeys(prefix)
    requires forall key :: key in byYear ==> byYear[key] == YearBucket(prefix, key)
    requires byYear' == byYear[YearKey(event.year) :=
      (if YearKey(event.year) in byYear then byYear[YearKey(event.year)] else []) + [event]]
    ensures forall key :: key in byYear' ==> byYear'[key] == YearBucket(prefix + [event], key)
  {
    forall key | key in byYear' ensures byYear'[key] == YearBucket(prefix + [event], key) {
      BucketSnoc(prefix, event, key);
      if key !in byYear {
        NoBucketYet(prefix, key);
      }
    }
  }

  lemma NoBucketYet(prefix: seq<Event>, key: string)
    requires key !in YearKeys(prefix)
    ensures YearBucket(prefix, key) == []
  {
    FilterNone(prefix, InYear(key));
  }

  lemma FileYearsStep(prefix: seq<Event>, event: Event, byYear: map<string, seq<Event>>, years: seq<int>,
                      years': seq<int>)
    requires byYear.Keys == YearKeys(prefix)
    requires forall y :: y in years <==> y in YearsOf(prefix)
    requires Distinct(years)
    requires years' == if YearKey(event.year) in byYear then years else years + [event.year]
    ensures forall y :: y in years' <==> y in YearsOf(prefix + [event])
    ensures Distinct(years')
  {
    YearsOfSnoc(prefix, event);
    if YearKey(event.year) in byYear {
      YearMetOfKey(prefix, event.year);
    } else if event.year in years {
      YearKeyOfMet(prefix, event.year);
    }
  }

  /** The as-written listing of a finished walk: its keys, each once, in text order. */
  lemma KeyListingOfFiled(sorted: seq<Event>, byYear: map<string, seq<Event>>, years: seq<int>)
    requires Filed(sorted, byYear, years)
    ensures Distinct(KeyListing(YearKeysOf(years)))
    ensures forall key :: key in KeyListing(YearKeysOf(years)) <==> key in byYear
  {
    var keys := YearKeysOf(years);
    var listed := KeyListing(keys);
    YearKeysOfDistinct(years);
    DistinctPermutation(keys, listed);
    forall key ensures key in listed <==> key in byYear {
      assert key in listed <==> key in multiset(listed);
      assert key in keys <==> key in multiset(keys);
      YearKeysOfMembers(years, key);
      if key in byYear {
        var e :| e in sorted && YearKey(e.year) == key;
        assert e.year in YearsOf(sorted);
      }
    }
  }

  /** Keys are injective, so a key already met means its year was met. */
  lemma YearMetOfKey(prefix: seq<Event>, year: int)
    requires YearKey(year) in YearKeys(prefix)
    ensures year in YearsOf(prefix)
  {
    var e :| e in prefix && YearKey(e.year) == YearKey(year);
    YearKeyInjective(e.year, year);
  }

  /** The walk's buckets and years after `prefix`, one event at a time. */
  ghost function Filing(prefix: seq<Event>): (map<string, seq<Event>>, seq<int>) {
    if prefix == [] then (map[], [])
    else
      var state := Filing(prefix[..|prefix| - 1]);
      var event := prefix[|prefix| - 1];
      var key := YearKey(event.year);
      (state.0[key := (if key in state.0 then state.0[key] else []) + [event]],
       if key in state.0 then state.1 else state.1 + [event.year])
  }

  /** The walk ends in the state `Filed` describes. */
  lemma {:induction false} FilingIsFiled(prefix: seq<Event>)
    ensures Filed(prefix, Filing(prefix).0, Filing(prefix).1)
  {
    if prefix != [] {
      var init, event := prefix[..|prefix| - 1], prefix[|prefix| - 1];
      FilingIsFiled(init);
      assert prefix == init + [event];
      FileStep(init, event, Filing(init).0, Filing(init).1, Filing(prefix).0, Filing(prefix).1);
    }
  }

  lemma BucketSnoc(prefix: seq<Event>, event: Event, key: string)
    ensures YearBucket(prefix + [event], key)
      == YearBucket(prefix, key) + (if YearKey(event.year) == key then [event] else [])
  {
    FilterAppend(prefix, [event], InYear(key));
    assert [event][1..] == [];
  }

  lemma YearKeyOfMet(prefix: seq<Event>, year: int)
    requires year in YearsOf(prefix)
    ensures YearKey(year) in YearKeys(prefix)
  {
  }

  lemma YearsOfSnoc(prefix: seq<Event>, event: Event)
    ensures YearsOf(prefix + [event]) == YearsOf(prefix) + {event.year}
  {
  }

  lemma YearKeysSnoc(prefix: seq<Event>, event: Event)
    ensures YearKeys(prefix + [event]) == YearKeys(prefix) + {YearKey(event.year)}
  {
  }

  lemma SortKeepsYears(events: seq<Event>)
    ensures YearsOf(SortChronologically(events)) == YearsOf(events)
  {
    var sorted := SortChronologically(events);
    forall e ensures e in sorted <==> e in events {
      assert e in sorted <==> e in multiset(sorted);
    }
  }

  /** The years met, each once, in ascending order: no year twice, none lost. */
  lemma YearListing(years: seq<int>, yearOrder: seq<int>)
    requires Distinct(years)
    requires yearOrder == ChronologicalYearOrder(years)
    ensures forall y :: y in yearOrder <==> y in years
    ensures forall i, j :: 0 <= i < j < |yearOrder| ==> yearOrder[i] < yearOrder[j]
  {
    DistinctPermutation(years, yearOrder);
    forall y ensures y in yearOrder <==> y in years {
      assert y in yearOrder <==> y in multiset(yearOrder);
    }
  }

  /**
   * The timeline's buckets: each holds exactly its own year's events, in
   * chronological order, and is not empty.
   */
  lemma TimelineBuckets(events: seq<Event>, year: int)
    requires year in YearsOf(events)
    ensures var bucket := YearBucket(SortChronologically(events), YearKey(year));
      && bucket != []
      && SortedBy(bucket, ChronoLe)
      && forall e :: e in bucket <==> e in events && e.year == year
  {
    var sorted := SortChronologically(events);
    SortChronologicallySpec(events);
    YearBucketOwnYear(sorted, year);
    FilterSorted(sorted, ChronoLe, InYear(YearKey(year)));
    forall e ensures e in sorted <==> e in events {
      assert e in sorted <==> e in multiset(sorted);
    }
    var e :| e in events && e.year == year;
    assert e in YearBucket(sorted, YearKey(year));
  }
}
