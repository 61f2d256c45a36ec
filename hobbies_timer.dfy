/**
 * The hobby session timer screen: its pure formatters and progress ratio, and the
 * session state (`timeRemaining`, `isTimerActive`, `timerMode`) as a class whose
 * methods are the screen's handlers. The one-second interval becomes `Tick`.
 */
module HobbiesTimer {
  import opened Wrappers
  import opened Text
  import opened Hobbies

  /** One entry of the duration picker: a label and a length in minutes. */
  datatype DurationChoice = DurationChoice(caption: string, minutes: nat)

  const TimerDurations: seq<DurationChoice> := [
    DurationChoice("15 min", 15),
    DurationChoice("30 min", 30),
    DurationChoice("45 min", 45),
    DurationChoice("1 hour", 60),
    DurationChoice("1.5 hours", 90),
    DurationChoice("2 hours", 120)
  ]

  /** The lengths the picker offers, in minutes. */
  const MinutesOffered: set<nat> := set d | d in TimerDurations :: d.minutes

  /** The length selected when the screen opens. */
  const DefaultMinutes: nat := 30

  /** Every offered length, the default among them, lies between 15 minutes and 2 hours. */
  lemma OfferedMinutesRange()
    ensures MinutesOffered == {15, 30, 45, 60, 90, 120}
    ensures DefaultMinutes in MinutesOffered
    ensures forall m :: m in MinutesOffered ==> 15 <= m <= 120
  {
    assert TimerDurations[0].minutes == 15 && TimerDurations[1].minutes == 30;
    assert TimerDurations[2].minutes == 45 && TimerDurations[3].minutes == 60;
    assert TimerDurations[4].minutes == 90 && TimerDurations[5].minutes == 120;
  }

  /**
   * `formatTime`: a length in minutes as `"h:mm"` from one hour on, and as
   * `"<minutes>:00"` below one hour. Stated through what `ReadClock` reads back.
   */
  function FormatTime(minutes: nat): (r: string)
    ensures minutes >= 60 ==> ReadClock(r) == Some((minutes / 60, minutes % 60))
    ensures minutes >= 60 ==> ReadClock(r).value.0 * 60 + ReadClock(r).value.1 == minutes
    ensures minutes < 60 ==> ReadClock(r) == Some((minutes, 0))
    ensures LeadUnpadded(r)
  {
    var hrs := minutes / 60;
    var mins := minutes % 60;
    if hrs > 0 then
      ReadClockOfPrinted(hrs, mins);
      PrintedLeadUnpadded(hrs, TwoDigits(mins));
      NatToString(hrs) + ":" + TwoDigits(mins)
    else
      ReadClockOfPrinted(mins, 0);
      PrintedLeadUnpadded(mins, "00");
      assert NatToString(mins) + ":" + TwoDigits(0) == NatToString(mins) + ":00";
      NatToString(mins) + ":00"
  }

  /**
   * `formatCountdown`: seconds as `"m:ss"`. Reading it back gives whole minutes and
   * a seconds field below 60 that add up to the input.
   */
  function FormatCountdown(seconds: nat): (r: string)
    ensures ReadClock(r) == Some((seconds / 60, seconds % 60))
    ensures ReadClock(r).value.1 < 60
    ensures ReadClock(r).value.0 * 60 + ReadClock(r).value.1 == seconds
    ensures LeadUnpadded(r)
  {
    ReadClockOfPrinted(seconds / 60, seconds % 60);
    PrintedLeadUnpadded(seconds / 60, TwoDigits(seconds % 60));
    NatToString(seconds / 60) + ":" + TwoDigits(seconds % 60)
  }

  /** The labels of the start button never confuse two of the offered lengths. */
  lemma FormatTimeDistinguishesOffered(a: nat, b: nat)
    requires a in MinutesOffered && b in MinutesOffered && a != b
    ensures FormatTime(a) != FormatTime(b)
  {
    OfferedMinutesRange();
  }

  datatype TimerMode = Setup | Running | Finished

  /**
   * `getProgress`: 0 outside a running session or for a zero length; otherwise the
   * elapsed share of the session, in percent.
   */
  function SessionProgress(mode: TimerMode, selectedMinutes: nat, remaining: int): (p: real)
    ensures mode != Running || selectedMinutes == 0 ==> p == 0.0
    ensures mode == Running && selectedMinutes > 0 && 0 <= remaining <= selectedMinutes * 60 ==>
      0.0 <= p <= 100.0
    ensures mode == Running && selectedMinutes > 0 && remaining == selectedMinutes * 60 ==> p == 0.0
    ensures mode == Running && selectedMinutes > 0 && remaining == 0 ==> p == 100.0
  {
    if mode != Running || selectedMinutes == 0 then 0.0
    else
      var total := selectedMinutes * 60;
      var elapsed := total - remaining;
      var share := elapsed as real / total as real;
      assert 0 <= remaining <= total ==> 0.0 <= share <= 1.0 by {
        if 0 <= remaining <= total {
          ShareInUnit(elapsed, total);
        }
      }
      share * 100.0
  }

  lemma ShareInUnit(part: int, whole: int)
    requires 0 <= part <= whole && whole > 0
    ensures 0.0 <= part as real / whole as real <= 1.0
  {
    assert part as real <= whole as real;
    assert part as real / whole as real <= whole as real / whole as real;
  }

  /** While running, less time remaining always means more progress. */
  lemma ProgressGrowsAsTimeRuns(selectedMinutes: nat, before: int, after: int)
    requires selectedMinutes > 0 && after < before
    ensures SessionProgress(Running, selectedMinutes, before) < SessionProgress(Running, selectedMinutes, after)
  {
    var total := (selectedMinutes * 60) as real;
    assert (selectedMinutes * 60 - before) as real < (selectedMinutes * 60 - after) as real;
    assert (selectedMinutes * 60 - before) as real / total < (selectedMinutes * 60 - after) as real / total;
  }

  /**
   * The progress is the elapsed share of the session in percent: each second of
   * countdown adds one `100 / total`, and the value times the total is the elapsed
   * time times 100.
   */
  lemma ProgressIsElapsedShare(selectedMinutes: nat, remaining: int)
    requires selectedMinutes > 0
    ensures var total := (selectedMinutes * 60) as real;
      SessionProgress(Running, selectedMinutes, remaining) * total ==
        (selectedMinutes * 60 - remaining) as real * 100.0
    ensures SessionProgress(Running, selectedMinutes, remaining - 1) - SessionProgress(Running, selectedMinutes, remaining) ==
      100.0 / (selectedMinutes * 60) as real
  {
    var total := (selectedMinutes * 60) as real;
    var e := (selectedMinutes * 60 - remaining) as real;
    assert SessionProgress(Running, selectedMinutes, remaining) == (e / total) * 100.0;
    assert SessionProgress(Running, selectedMinutes, remaining - 1) == ((e + 1.0) / total) * 100.0;
    assert (e + 1.0) / total == e / total + 1.0 / total;
  }

  /** The timer screen's session state. */
  class SessionTimer {
    const hobbies: seq<Hobby>
    var selectedHobby: Option<Hobby>
    var selectedDuration: nat
    var isTimerActive: bool
    var timeRemaining: int
    var timerMode: TimerMode

    /**
     * The selected length is one the picker offers, the countdown lies within the
     * session, and outside a running session nothing counts down. The screen runs
     * an interval exactly while `isTimerActive` holds.
     */
    ghost predicate Valid()
      reads this
    {
      && selectedDuration in MinutesOffered
      && 0 <= timeRemaining <= selectedDuration * 60
      && (timerMode != Running ==> timeRemaining == 0 && !isTimerActive)
    }

    constructor (parsed: Option<seq<string>>)
      ensures Valid()
      ensures hobbies == HobbiesFromParams(parsed)
      ensures selectedHobby == if |hobbies| > 0 then Some(hobbies[0]) else None
      ensures selectedDuration == DefaultMinutes
      ensures !isTimerActive && timeRemaining == 0 && timerMode == Setup
    {
      hobbies := HobbiesFromParams(parsed);
      selectedHobby := if |HobbiesFromParams(parsed)| > 0 then Some(HobbiesFromParams(parsed)[0]) else None;
      selectedDuration := DefaultMinutes;
      isTimerActive := false;
      timeRemaining := 0;
      timerMode := Setup;
      OfferedMinutesRange();
    }

    /** Tapping a hobby card; the cards are the parsed hobbies, shown only on the setup screen. */
    method SelectHobby(hobby: Hobby)
      requires Valid() && timerMode == Setup && hobby in hobbies
      modifies this`selectedHobby
      ensures Valid() && selectedHobby == Some(hobby)
    {
      selectedHobby := Some(hobby);
    }

    /** Tapping a duration card; the picker is only on the setup screen. */
    method SelectDuration(minutes: nat)
      requires Valid() && timerMode == Setup && minutes in MinutesOffered
      modifies this`selectedDuration
      ensures Valid() && selectedDuration == minutes
    {
      selectedDuration := minutes;
    }

    /**
     * `startTimer`: a full session of the selected length, counting down and active.
     * The button is on the setup screen, whose rendering reads the selected hobby's name.
     */
    method Start()
      requires Valid() && timerMode == Setup && selectedHobby.Some?
      modifies this`timeRemaining, this`isTimerActive, this`timerMode
      ensures Valid()
      ensures timeRemaining == selectedDuration * 60 && isTimerActive && timerMode == Running
      ensures 900 <= timeRemaining <= 7200
    {
      OfferedMinutesRange();
      timeRemaining := selectedDuration * 60;
      isTimerActive := true;
      timerMode := Running;
    }

    /** `pauseTimer`: stops the interval; the countdown and the mode stay. */
    method Pause()
      requires Valid()
      modifies this`isTimerActive
      ensures Valid() && !isTimerActive
    {
      isTimerActive := false;
    }

    /** `resumeTimer`: restarts the interval; the button exists only while running. */
    method Resume()
      requires Valid() && timerMode == Running
      modifies this`isTimerActive
      ensures Valid() && isTimerActive
    {
      isTimerActive := true;
    }

    /** `handleTimerComplete`, entered once the countdown has been set to 0. */
    method Complete()
      requires Valid() && timeRemaining == 0
      modifies this`isTimerActive, this`timerMode
      ensures Valid() && !isTimerActive && timerMode == Finished
    {
      isTimerActive := false;
      timerMode := Finished;
    }

    /**
     * One firing of the one-second interval, which exists only while the timer is
     * active: at 1 second or less the session completes at 0, otherwise one second
     * is taken off.
     */
    method Tick()
      requires Valid() && isTimerActive
      modifies this`timeRemaining, this`isTimerActive, this`timerMode
      ensures Valid()
      ensures old(timeRemaining) <= 1 ==> timeRemaining == 0 && timerMode == Finished && !isTimerActive
      ensures old(timeRemaining) > 1 ==>
        timeRemaining == old(timeRemaining) - 1 && timerMode == Running && isTimerActive
    {
      if timeRemaining <= 1 {
        timeRemaining := 0;
        Complete();
      } else {
        timeRemaining := timeRemaining - 1;
      }
    }

    /** The "Great!" button of the completion alert, shown only once a session finished. */
    method Acknowledge()
      requires Valid() && timerMode == Finished
      modifies this`timerMode
      ensures Valid() && timerMode == Setup
    {
      timerMode := Setup;
    }

    /** `resetTimer` (the Stop button): back to setup from any state. */
    method Reset()
      requires Valid()
      modifies this`timeRemaining, this`isTimerActive, this`timerMode
      ensures Valid()
      ensures !isTimerActive && timeRemaining == 0 && timerMode == Setup
    {
      isTimerActive := false;
      timeRemaining := 0;
      timerMode := Setup;
    }

    /**
     * The interval left to fire until the session ends, with no pause or stop in
     * between: it completes after exactly the remaining number of seconds (one tick
     * when at most one second is left).
     */
    method RunUninterrupted() returns (ticks: nat)
      requires Valid() && isTimerActive
      modifies this`timeRemaining, this`isTimerActive, this`timerMode
      ensures Valid() && timerMode == Finished && !isTimerActive && timeRemaining == 0
      ensures ticks == if old(timeRemaining) <= 1 then 1 else old(timeRemaining)
    {
      ticks := 0;
      while isTimerActive
        invariant Valid()
        invariant isTimerActive ==> timeRemaining >= 1 || ticks == 0
        invariant isTimerActive ==> ticks + timeRemaining == old(timeRemaining)
        invariant !isTimerActive ==> timerMode == Finished && ticks == (if old(timeRemaining) <= 1 then 1 else old(timeRemaining))
        decreases isTimerActive, timeRemaining
      {
        Tick();
        ticks := ticks + 1;
      }
    }
  }
}
