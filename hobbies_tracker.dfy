/**
 * The weekly hobby tracker screen: a hobby-by-day grid of check marks, a journal
 * of notes keyed by `"<hobby id>-<day>"`, and the handlers that change them. The
 * grid is a map from hobby id to a map from day name to a flag, as the screen's
 * nested object is.
 */
module HobbiesTracker {
  import opened Wrappers
  import opened Text
  import opened Hobbies

  const DaysOfWeek: seq<string> := ["Mon", "Tue", "Wed", "Thu", "Fri", "Sat", "Sun"]

  /** The day names as a set: the keys of every row. */
  const DaySet: set<string> := set d | d in DaysOfWeek

  type Row = map<string, bool>
  type Week = map<nat, Row>

  predicate NoDuplicates(days: seq<string>) {
    forall i, j :: 0 <= i < j < |days| ==> days[i] != days[j]
  }

  /** The seven day names are distinct and each is three letters long. */
  lemma DaysOfWeekShape()
    ensures |DaysOfWeek| == 7 && NoDuplicates(DaysOfWeek)
    ensures forall d :: d in DaysOfWeek ==> |d| == 3
  {
  }

  /**
   * The day "Mark Today Complete" uses for `getDay()` = `weekday` (0 is Sunday):
   * the week starts on Monday, so Sunday is the last day.
   */
  function TodayKey(weekday: nat): (day: string)
    requires weekday < 7
    ensures day in DaysOfWeek && day == DaysOfWeek[(weekday + 6) % 7]
  {
    DaysOfWeek[if weekday == 0 then 6 else weekday - 1]
  }

  /** Each weekday names its own day, and every day of the grid is some weekday's. */
  lemma TodayKeyBijective(a: nat, b: nat, day: string)
    requires a < 7 && b < 7 && day in DaysOfWeek
    ensures a != b ==> TodayKey(a) != TodayKey(b)
    ensures TodayKey(0) == "Sun" && TodayKey(1) == "Mon"
    ensures exists w :: 0 <= w < 7 && TodayKey(w) == day
  {
    var i :| 0 <= i < 7 && DaysOfWeek[i] == day;
    assert TodayKey((i + 1) % 7) == day;
  }

  /** The journal key of a hobby and a day. */
  function JournalKey(id: nat, day: string): string {
    NatToString(id) + "-" + day
  }

  /**
   * Two cells never share a journal key: the id's digits end at the first '-', so
   * the key splits back into the id and the day.
   */
  lemma JournalKeyInjective(id1: nat, day1: string, id2: nat, day2: string)
    ensures JournalKey(id1, day1) == JournalKey(id2, day2) ==> id1 == id2 && day1 == day2
  {
    var a, b := NatToString(id1), NatToString(id2);
    var k1, k2 := JournalKey(id1, day1), JournalKey(id2, day2);
    if k1 == k2 {
      assert k1[|a|] == '-' && k2[|b|] == '-';
      assert k1[..|a|] == a && k2[..|b|] == b;
      assert k1[|a| + 1..] == day1 && k2[|b| + 1..] == day2;
      NatToStringInjective(id1, id2);
    }
  }

  /** After storing `t` under a cell's key, that cell shows `t` and every other cell its old note. */
  lemma SavedNoteShown(journal: map<string, string>, id: nat, day: string, t: string, id2: nat, day2: string)
    ensures EntryText(journal[JournalKey(id, day) := t], JournalKey(id2, day2)) ==
      if id2 == id && day2 == day then t else EntryText(journal, JournalKey(id2, day2))
  {
    JournalKeyInjective(id, day, id2, day2);
  }

  /** The text a journal shows for a key: the stored entry, or empty. */
  function EntryText(journal: map<string, string>, key: string): (text: string)
    ensures key in journal ==> text == journal[key]
    ensures key !in journal ==> text == ""
  {
    if key in journal then journal[key] else ""
  }

  predicate FullRow(row: Row) {
    forall d :: d in DaysOfWeek ==> d in row
  }

  /** Every hobby of the list has a row with an entry for every day. */
  predicate Covers(g: Week, hobbies: seq<Hobby>) {
    forall i :: 0 <= i < |hobbies| ==> hobbies[i].id in g && FullRow(g[hobbies[i].id])
  }

  /** Number of the given days checked in a row. */
  function DoneInRow(row: Row, days: seq<string>): nat
    requires forall d :: d in days ==> d in row
  {
    if days == [] then 0
    else DoneInRow(row, days[..|days| - 1]) + (if row[days[|days| - 1]] then 1 else 0)
  }

  /** Number of checked cells over the hobbies' rows and the seven days. */
  function Completed(g: Week, hobbies: seq<Hobby>): nat
    requires Covers(g, hobbies)
  {
    if hobbies == [] then 0
    else Completed(g, hobbies[..|hobbies| - 1]) + DoneInRow(g[hobbies[|hobbies| - 1].id], DaysOfWeek)
  }

  lemma {:induction false} DoneInRowBounded(row: Row, days: seq<string>)
    requires forall d :: d in days ==> d in row
    ensures DoneInRow(row, days) <= |days|
  {
    if days != [] {
      DoneInRowBounded(row, days[..|days| - 1]);
    }
  }

  /** At most one session per hobby and day can be completed. */
  lemma {:induction false} CompletedBounded(g: Week, hobbies: seq<Hobby>)
    requires Covers(g, hobbies)
    ensures Completed(g, hobbies) <= 7 * |hobbies|
  {
    if hobbies != [] {
      CompletedBounded(g, hobbies[..|hobbies| - 1]);
      DoneInRowBounded(g[hobbies[|hobbies| - 1].id], DaysOfWeek);
    }
  }

  /**
   * `Math.round(done / total * 100)`, 0 for an empty week: the whole number nearest
   * to the percentage, halves rounded up. Multiplied out, `rate - 1/2 <= 100 * done / total
   * < rate + 1/2`.
   */
  function RoundedPercent(done: nat, total: nat): (rate: nat)
    ensures total == 0 ==> rate == 0
    ensures done <= total ==> rate <= 100
    ensures total > 0 ==> (2 * rate - 1) * total <= 200 * done < (2 * rate + 1) * total
  {
    if total > 0 then
      var rate := (200 * done + total) / (2 * total);
      RoundedPercentNearest(done, total, rate);
      rate
    else 0
  }

  lemma RoundedPercentNearest(done: nat, total: nat, rate: nat)
    requires total > 0 && rate == (200 * done + total) / (2 * total)
    ensures done <= total ==> rate <= 100
    ensures (2 * rate - 1) * total <= 200 * done < (2 * rate + 1) * total
  {
    var q := 200 * done + total;
    var m := q % (2 * total);
    assert q == (2 * total) * rate + m && 0 <= m < 2 * total;
    ScaleByTwo(rate, total);
    var p := rate * total;
    assert q == 2 * p + m;
    if done <= total && rate > 100 {
      MultiplyMonotone(101, rate, total);
    }
  }

  lemma ScaleByTwo(a: int, b: int)
    ensures (2 * a - 1) * b == 2 * (a * b) - b
    ensures (2 * a + 1) * b == 2 * (a * b) + b
    ensures (2 * b) * a == 2 * (a * b)
  {
  }

  lemma MultiplyMonotone(a: int, b: int, c: nat)
    requires a <= b
    ensures a * c <= b * c
  {
  }

  /** The row of a fresh week: every day unchecked. */
  const ClearRow: Row := map d | d in DaysOfWeek :: false

  /** A fresh week: a clear row for every hobby id. */
  function ClearWeek(hobbies: seq<Hobby>): Week {
    map id | id in HobbyIds(hobbies) :: ClearRow
  }

  /** A fresh week covers every hobby, every cell is unchecked, and nothing is completed. */
  lemma {:induction false} ClearWeekEmpty(hobbies: seq<Hobby>)
    ensures ClearWeek(hobbies).Keys == HobbyIds(hobbies)
    ensures Covers(ClearWeek(hobbies), hobbies)
    ensures forall id, d :: id in ClearWeek(hobbies) && d in ClearWeek(hobbies)[id] ==>
      d in DaysOfWeek && !ClearWeek(hobbies)[id][d]
    ensures Completed(ClearWeek(hobbies), hobbies) == 0
  {
    if hobbies != [] {
      var init := hobbies[..|hobbies| - 1];
      ClearWeekEmpty(init);
      assert Completed(ClearWeek(hobbies), init) == Completed(ClearWeek(init), init) by {
        CompletedDependsOnRows(ClearWeek(hobbies), ClearWeek(init), init);
      }
      ClearRowNothingDone(DaysOfWeek);
    }
  }

  lemma {:induction false} ClearRowNothingDone(days: seq<string>)
    requires forall d :: d in days ==> d in DaysOfWeek
    ensures DoneInRow(ClearRow, days) == 0
  {
    if days != [] {
      ClearRowNothingDone(days[..|days| - 1]);
    }
  }

  /** The count only looks at the rows of the listed hobbies. */
  lemma {:induction false} CompletedDependsOnRows(g: Week, h: Week, hobbies: seq<Hobby>)
    requires Covers(g, hobbies) && Covers(h, hobbies)
    requires forall i :: 0 <= i < |hobbies| ==> g[hobbies[i].id] == h[hobbies[i].id]
    ensures Completed(g, hobbies) == Completed(h, hobbies)
  {
    if hobbies != [] {
      CompletedDependsOnRows(g, h, hobbies[..|hobbies| - 1]);
    }
  }

  /** The grid with cell (`id`, `day`) flipped. */
  function Toggled(g: Week, id: nat, day: string): (r: Week)
    requires id in g && day in g[id]
    ensures r.Keys == g.Keys && forall i :: i in g ==> r[i].Keys == g[i].Keys
    ensures r[id][day] == !g[id][day]
    ensures forall i, d :: i in g && d in g[i] && (i != id || d != day) ==> r[i][d] == g[i][d]
  {
    g[id := g[id][day := !g[id][day]]]
  }

  /** Toggling the same cell twice restores the grid. */
  lemma ToggleTwice(g: Week, id: nat, day: string)
    requires id in g && day in g[id]
    ensures Toggled(Toggled(g, id, day), id, day) == g
  {
    var r := Toggled(Toggled(g, id, day), id, day);
    assert r[id] == g[id];
  }

  lemma {:induction false} ToggleRowCount(row: Row, day: string, days: seq<string>)
    requires day in row && NoDuplicates(days) && forall d :: d in days ==> d in row
    ensures DoneInRow(row[day := !row[day]], days) ==
      DoneInRow(row, days) + (if day !in days then 0 else if row[day] then -1 else 1)
  {
    if days != [] {
      var init := days[..|days| - 1];
      assert NoDuplicates(init);
      assert day == days[|days| - 1] ==> day !in init;
      ToggleRowCount(row, day, init);
    }
  }

  lemma ToggledRowCount(g: Week, id: nat, day: string)
    requires id in g && FullRow(g[id]) && day in DaysOfWeek
    ensures DoneInRow(Toggled(g, id, day)[id], DaysOfWeek) ==
      DoneInRow(g[id], DaysOfWeek) + (if g[id][day] then -1 else 1)
  {
    DaysOfWeekShape();
    ToggleRowCount(g[id], day, DaysOfWeek);
    assert Toggled(g, id, day)[id] == g[id][day := !g[id][day]];
  }

  lemma LastIdNotEarlier(hobbies: seq<Hobby>)
    requires hobbies != [] && DistinctIds(hobbies)
    ensures hobbies[|hobbies| - 1].id !in HobbyIds(hobbies[..|hobbies| - 1])
  {
    var init := hobbies[..|hobbies| - 1];
    assert forall i :: 0 <= i < |init| ==> init[i].id != hobbies[|hobbies| - 1].id;
  }

  /**
   * Toggling one cell of a listed hobby changes the completed count by exactly one:
   * down when the cell was checked, up when it was not.
   */
  lemma {:induction false} ToggleCount(g: Week, hobbies: seq<Hobby>, id: nat, day: string)
    requires Covers(g, hobbies) && DistinctIds(hobbies) && id in g && day in g[id] && day in DaysOfWeek
    ensures Covers(Toggled(g, id, day), hobbies)
    ensures Completed(Toggled(g, id, day), hobbies) ==
      Completed(g, hobbies) + (if id !in HobbyIds(hobbies) then 0 else if g[id][day] then -1 else 1)
  {
    var t := Toggled(g, id, day);
    assert Covers(t, hobbies);
    if hobbies != [] {
      var init := hobbies[..|hobbies| - 1];
      var last := hobbies[|hobbies| - 1];
      assert DistinctIds(init);
      ToggleCount(g, init, id, day);
      HobbyIdsExtend(hobbies, |hobbies| - 1);
      assert hobbies[..|hobbies|] == hobbies;
      if last.id == id {
        LastIdNotEarlier(hobbies);
        ToggledRowCount(g, id, day);
      } else {
        assert t[last.id] == g[last.id];
      }
    }
  }

  /** The grid with `day` checked in every row. */
  function WithDayDone(g: Week, day: string): (r: Week)
    ensures r.Keys == g.Keys
    ensures forall id :: id in g ==> r[id].Keys == g[id].Keys + {day} && r[id][day]
    ensures forall id, d :: id in g && d in g[id] && d != day ==> r[id][d] == g[id][d]
  {
    map id | id in g :: g[id][day := true]
  }

  /** Marking the same day twice is marking it once. */
  lemma MarkDayIdempotent(g: Week, day: string)
    ensures WithDayDone(WithDayDone(g, day), day) == WithDayDone(g, day)
  {
    var once := WithDayDone(g, day);
    forall id | id in once ensures once[id][day := true] == once[id] { }
  }

  /** Number of listed hobbies whose row has `day` unchecked. */
  function PendingOn(g: Week, hobbies: seq<Hobby>, day: string): nat
    requires Covers(g, hobbies) && day in DaysOfWeek
  {
    if hobbies == [] then 0
    else PendingOn(g, hobbies[..|hobbies| - 1], day) + (if g[hobbies[|hobbies| - 1].id][day] then 0 else 1)
  }

  lemma {:induction false} MarkRowCount(row: Row, day: string, days: seq<string>)
    requires day in row && NoDuplicates(days) && forall d :: d in days ==> d in row
    ensures DoneInRow(row[day := true], days) ==
      DoneInRow(row, days) + (if day in days && !row[day] then 1 else 0)
  {
    if days != [] {
      var init := days[..|days| - 1];
      assert NoDuplicates(init);
      assert day == days[|days| - 1] ==> day !in init;
      MarkRowCount(row, day, init);
    }
  }

  /**
   * Marking a day adds exactly one completed session per listed hobby that had that
   * day unchecked, so the count never goes down.
   */
  lemma {:induction false} MarkDayCount(g: Week, hobbies: seq<Hobby>, day: string)
    requires Covers(g, hobbies) && day in DaysOfWeek
    ensures Covers(WithDayDone(g, day), hobbies)
    ensures Completed(WithDayDone(g, day), hobbies) == Completed(g, hobbies) + PendingOn(g, hobbies, day)
    ensures Completed(g, hobbies) <= Completed(WithDayDone(g, day), hobbies)
  {
    if hobbies != [] {
      var init := hobbies[..|hobbies| - 1];
      var last := hobbies[|hobbies| - 1];
      MarkDayCount(g, init, day);
      DaysOfWeekShape();
      MarkRowCount(g[last.id], day, DaysOfWeek);
    }
  }

  lemma HobbyIdsExtend(hobbies: seq<Hobby>, i: nat)
    requires i < |hobbies|
    ensures HobbyIds(hobbies[..i + 1]) == HobbyIds(hobbies[..i]) + {hobbies[i].id}
  {
    assert hobbies[..i + 1] == hobbies[..i] + [hobbies[i]];
  }

  /** The inner pass of the fresh-week builder: one unchecked entry per day. */
  method ClearDays() returns (row: Row)
    ensures row == ClearRow
  {
    row := map[];
    var j := 0;
    while j < |DaysOfWeek|
      invariant 0 <= j <= |DaysOfWeek|
      invariant row.Keys == set d | d in DaysOfWeek[..j]
      invariant forall d :: d in row ==> !row[d]
    {
      assert DaysOfWeek[..j + 1] == DaysOfWeek[..j] + [DaysOfWeek[j]];
      row := row[DaysOfWeek[j] := false];
      j := j + 1;
    }
    assert DaysOfWeek[..j] == DaysOfWeek;
  }

  /**
   * Builds a fresh week with a nested pass over the hobbies and the days, as the
   * screen's initial state and "Reset Week" do.
   */
  method EmptyWeek(hobbies: seq<Hobby>) returns (g: Week)
    ensures g == ClearWeek(hobbies)
  {
    g := map[];
    var i := 0;
    while i < |hobbies|
      invariant 0 <= i <= |hobbies|
      invariant g.Keys == HobbyIds(hobbies[..i])
      invariant forall id :: id in g ==> g[id] == ClearRow
    {
      var row := ClearDays();
      HobbyIdsExtend(hobbies, i);
      g := g[hobbies[i].id := row];
      i := i + 1;
    }
    assert hobbies[..i] == hobbies;
  }

  /** The pass of "Mark Today Complete": each listed hobby's row gets `day` checked. */
  method MarkDayForAll(g: Week, hobbies: seq<Hobby>, day: string) returns (updated: Week)
    requires g.Keys == HobbyIds(hobbies)
    ensures updated == WithDayDone(g, day)
  {
    updated := g;
    var i := 0;
    while i < |hobbies|
      invariant 0 <= i <= |hobbies|
      invariant updated.Keys == g.Keys
      invariant forall k :: 0 <= k < i ==> updated[hobbies[k].id] == g[hobbies[k].id][day := true]
      invariant forall id :: id in updated ==> updated[id] == g[id] || updated[id] == g[id][day := true]
    {
      var id := hobbies[i].id;
      assert id in g;
      assert g[id][day := true][day := true] == g[id][day := true];
      updated := updated[id := updated[id][day := true]];
      i := i + 1;
    }
    assert forall id :: id in updated ==> updated[id] == g[id][day := true];
  }

  /** The inner pass of `getWeeklyStats` over one hobby's row: cells seen and cells checked. */
  method TallyRow(row: Row) returns (cells: nat, done: nat)
    requires FullRow(row)
    ensures cells == |DaysOfWeek| && done == DoneInRow(row, DaysOfWeek)
  {
    cells, done := 0, 0;
    var j := 0;
    while j < |DaysOfWeek|
      invariant 0 <= j <= |DaysOfWeek|
      invariant cells == j
      invariant done == DoneInRow(row, DaysOfWeek[..j])
    {
      assert DaysOfWeek[..j + 1][..j] == DaysOfWeek[..j];
      cells := cells + 1;
      if row[DaysOfWeek[j]] {
        done := done + 1;
      }
      j := j + 1;
    }
    assert DaysOfWeek[..j] == DaysOfWeek;
  }

  /** The tracker screen's state. */
  class WeeklyTracker {
    const hobbies: seq<Hobby>
    var weeklyProgress: Week
    var journalEntries: map<string, string>
    var showJournalModal: bool
    var selectedHobby: Option<Hobby>
    var selectedDay: Option<string>
    var currentJournalText: string

    /** The grid has exactly one row per hobby, each with exactly the seven days. */
    ghost predicate Valid()
      reads this
    {
      && DistinctIds(hobbies)
      && weeklyProgress.Keys == HobbyIds(hobbies)
      && (forall id :: id in weeklyProgress ==> weeklyProgress[id].Keys == DaySet)
    }

    lemma ValidCovers()
      requires Valid()
      ensures Covers(weeklyProgress, hobbies)
    {
    }

    constructor (parsed: Option<seq<string>>)
      ensures Valid()
      ensures hobbies == HobbiesFromParams(parsed)
      ensures weeklyProgress == ClearWeek(hobbies)
      ensures journalEntries == map[] && !showJournalModal
      ensures selectedHobby == None && selectedDay == None && currentJournalText == ""
    {
      var list := HobbiesFromParams(parsed);
      HobbiesFromParamsNumbered(parsed);
      var g := EmptyWeek(list);
      ClearWeekEmpty(list);
      hobbies := list;
      weeklyProgress := g;
      journalEntries := map[];
      showJournalModal := false;
      selectedHobby := None;
      selectedDay := None;
      currentJournalText := "";
    }

    /** `toggleHobbyDay`: flips one cell, reached from the grid's check boxes. */
    method ToggleHobbyDay(id: nat, day: string)
      requires Valid() && id in HobbyIds(hobbies) && day in DaysOfWeek
      modifies this`weeklyProgress
      ensures Valid()
      ensures weeklyProgress == Toggled(old(weeklyProgress), id, day)
    {
      weeklyProgress := weeklyProgress[id := weeklyProgress[id][day := !weeklyProgress[id][day]]];
    }

    /** "Mark Today Complete", with `getDay()` passed in as `weekday`. */
    method MarkTodayComplete(weekday: nat)
      requires Valid() && weekday < 7
      modifies this`weeklyProgress
      ensures Valid()
      ensures weeklyProgress == WithDayDone(old(weeklyProgress), TodayKey(weekday))
    {
      var todayKey := TodayKey(weekday);
      assert todayKey in DaySet;
      weeklyProgress := MarkDayForAll(weeklyProgress, hobbies, todayKey);
    }

    /** "Reset Week": a fresh grid and no journal entries. */
    method ResetWeek()
      requires Valid()
      modifies this`weeklyProgress, this`journalEntries
      ensures Valid()
      ensures weeklyProgress == ClearWeek(hobbies) && journalEntries == map[]
    {
      var g := EmptyWeek(hobbies);
      ClearWeekEmpty(hobbies);
      weeklyProgress := g;
      journalEntries := map[];
    }

    /**
     * `getWeeklyStats`: counts every cell and every checked cell in a nested pass,
     * and rounds the completed share to a percentage.
     */
    method WeeklyStats() returns (completedSessions: nat, totalSessions: nat, completionRate: nat)
      requires Valid()
      ensures completedSessions == Completed(weeklyProgress, hobbies)
      ensures totalSessions == 7 * |hobbies|
      ensures completedSessions <= totalSessions
      ensures completionRate == RoundedPercent(completedSessions, totalSessions)
      ensures completionRate <= 100 && (totalSessions == 0 ==> completionRate == 0)
    {
      ValidCovers();
      totalSessions, completedSessions := 0, 0;
      var i := 0;
      while i < |hobbies|
        invariant 0 <= i <= |hobbies|
        invariant totalSessions == 7 * i
        invariant completedSessions == Completed(weeklyProgress, hobbies[..i])
      {
        var cells, done := TallyRow(weeklyProgress[hobbies[i].id]);
        assert hobbies[..i + 1][..i] == hobbies[..i];
        totalSessions := totalSessions + cells;
        completedSessions := completedSessions + done;
        i := i + 1;
      }
      assert hobbies[..i] == hobbies;
      CompletedBounded(weeklyProgress, hobbies);
      completionRate := RoundedPercent(completedSessions, totalSessions);
    }

    /** `openJournal`: selects the cell and loads its stored note, or an empty one. */
    method OpenJournal(hobby: Hobby, day: string)
      requires Valid()
      modifies this`selectedHobby, this`selectedDay, this`currentJournalText, this`showJournalModal
      ensures Valid()
      ensures selectedHobby == Some(hobby) && selectedDay == Some(day) && showJournalModal
      ensures currentJournalText == EntryText(journalEntries, JournalKey(hobby.id, day))
    {
      selectedHobby := Some(hobby);
      selectedDay := Some(day);
      currentJournalText := EntryText(journalEntries, JournalKey(hobby.id, day));
      showJournalModal := true;
    }

    /** Typing in the journal box. */
    method EditJournalText(text: string)
      requires Valid()
      modifies this`currentJournalText
      ensures Valid()
      ensures currentJournalText == text
    {
      currentJournalText := text;
    }

    /** The close button of the journal sheet: hides it and keeps the selection and text. */
    method CloseJournal()
      requires Valid()
      modifies this`showJournalModal
      ensures Valid()
      ensures !showJournalModal
    {
      showJournalModal := false;
    }

    /**
     * The save guard's notion of a selected cell: a hobby and a day that is not the
     * empty string, since `!selectedDay` also holds for `''`.
     */
    predicate HasSelection()
      reads this
    {
      selectedHobby.Some? && selectedDay.Some? && selectedDay.value != ""
    }

    /**
     * `saveJournalEntry`: without a selected hobby and a non-empty day nothing happens;
     * otherwise the text is stored under the cell's key and the sheet is cleared and hidden.
     */
    method SaveJournalEntry()
      requires Valid()
      modifies this`journalEntries, this`showJournalModal, this`currentJournalText,
        this`selectedHobby, this`selectedDay
      ensures Valid()
      ensures !old(HasSelection()) ==>
        && journalEntries == old(journalEntries) && showJournalModal == old(showJournalModal)
        && currentJournalText == old(currentJournalText)
        && selectedHobby == old(selectedHobby) && selectedDay == old(selectedDay)
      ensures old(HasSelection()) ==>
        && journalEntries == old(journalEntries)[JournalKey(old(selectedHobby).value.id, old(selectedDay).value) := old(currentJournalText)]
        && !showJournalModal && currentJournalText == ""
        && selectedHobby == None && selectedDay == None
    {
      if !HasSelection() {
        return;
      }
      var key := JournalKey(selectedHobby.value.id, selectedDay.value);
      journalEntries := journalEntries[key := currentJournalText];
      showJournalModal := false;
      currentJournalText := "";
      selectedHobby := None;
      selectedDay := None;
    }

    /**
     * Saving the open sheet and then opening a cell: the saved cell shows exactly the
     * text that was saved, any other cell shows the note it had before; without a
     * selection the save stores nothing and the cell shows its old note.
     */
    method SaveThenOpen(hobby: Hobby, day: string)
      requires Valid()
      modifies this`journalEntries, this`showJournalModal, this`currentJournalText,
        this`selectedHobby, this`selectedDay
      ensures Valid()
      ensures selectedHobby == Some(hobby) && selectedDay == Some(day) && showJournalModal
      ensures (old(HasSelection()) &&
               hobby.id == old(selectedHobby).value.id && day == old(selectedDay).value) ==>
          currentJournalText == old(currentJournalText)
      ensures !(old(HasSelection()) &&
                hobby.id == old(selectedHobby).value.id && day == old(selectedDay).value) ==>
          currentJournalText == EntryText(old(journalEntries), JournalKey(hobby.id, day))
    {
      if HasSelection() {
        SavedNoteShown(journalEntries, selectedHobby.value.id, selectedDay.value, currentJournalText, hobby.id, day);
      }
      SaveJournalEntry();
      OpenJournal(hobby, day);
    }

    /**
     * Opening a cell's journal and saving it without typing keeps the note every
     * key shows, that cell's included. The save closes the sheet, unless the day is
     * the empty string, which the save guard treats as no selection.
     */
    method OpenThenSave(hobby: Hobby, day: string)
      requires Valid()
      modifies this`journalEntries, this`showJournalModal, this`currentJournalText,
        this`selectedHobby, this`selectedDay
      ensures Valid()
      ensures forall key :: EntryText(journalEntries, key) == EntryText(old(journalEntries), key)
      ensures day != "" ==> !showJournalModal && selectedHobby == None && selectedDay == None
      ensures day == "" ==> showJournalModal && selectedHobby == Some(hobby) && selectedDay == Some(day)
    {
      OpenJournal(hobby, day);
      SaveJournalEntry();
    }
  }
}
