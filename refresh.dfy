/**
 The daily refresh of the age widget (Age/age.py, lines 22-35 and 140-157): a one-key
 state dictionary remembers the ISO date of the last update, the widget polls and
 recomputes both ages when that date is not today, and the update writes today's date
 back and saves the dictionary.

 The calendar day is a parameter (the source reads `date.today()`), and the state file
 is an abstract value: missing, unreadable, or holding a dictionary.
 */
module Refresh {
  import opened Dates
  import opened Age

  /** The one key the widget reads and writes. */
  const LAST_DATE_KEY := "lastDate"

  /** The configured reference dates, already parsed. */
  const DOB_AGE := Date(1994, 7, 12)
  const DOB_COLLEGE := Date(2015, 4, 7)

  /** The state dictionary, with string keys and string values. */
  type State = map<string, string>

  /** What the state file holds when `load_state` opens it. */
  datatype StoredFile = Missing | Unreadable | Stored(contents: State)

  /** The state `load_state` falls back on: no update recorded yet. */
  function DefaultState(): (s: State)
    ensures s.Keys == {LAST_DATE_KEY} && s[LAST_DATE_KEY] == ""
  {
    map[LAST_DATE_KEY := ""]
  }

  /** Lines 22-29: the stored dictionary when the file exists and reads, else the default. */
  function LoadState(file: StoredFile): (s: State)
    ensures file.Stored? ==> s == file.contents
    ensures !file.Stored? ==> s == DefaultState()
  {
    match file
    case Stored(contents) => contents
    case _ => DefaultState()
  }

  /** Line 156: `state.get("lastDate") != today.isoformat()`; a missing key reads as
      `None`, which differs from every date string. */
  predicate RefreshDue(state: State, today: Date)
    requires Valid(today)
  {
    LAST_DATE_KEY !in state || state[LAST_DATE_KEY] != IsoFormat(today)
  }

  /** Line 151: the state with today's ISO date stored under the one key. */
  function Recorded(state: State, today: Date): (r: State)
    requires Valid(today)
    ensures r.Keys == state.Keys + {LAST_DATE_KEY}
    ensures r[LAST_DATE_KEY] == IsoFormat(today)
    ensures forall k :: k in state && k != LAST_DATE_KEY ==> r[k] == state[k]
  {
    state[LAST_DATE_KEY := IsoFormat(today)]
  }

  /** The default state is due on every day: no ISO date is the empty string. */
  lemma DefaultStateAlwaysDue(today: Date)
    requires Valid(today)
    ensures RefreshDue(DefaultState(), today)
  {
  }

  /** A missing or unreadable state file makes the first poll refresh. */
  lemma LoadFailureAlwaysDue(file: StoredFile, today: Date)
    requires Valid(today) && !file.Stored?
    ensures RefreshDue(LoadState(file), today)
  {
    DefaultStateAlwaysDue(today);
  }

  /** After recording `today`, a refresh is due on exactly the other days. */
  lemma RecordedDueIff(state: State, today: Date, day: Date)
    requires Valid(today) && Valid(day)
    ensures RefreshDue(Recorded(state, today), day) <==> day != today
  {
    IsoFormatInjective(today, day);
  }

  /** A due refresh is exactly a day the state has not recorded: recording that day
      changes the state, and recording a day that is not due changes nothing. */
  lemma RecordedChangesIffDue(state: State, today: Date)
    requires Valid(today)
    ensures Recorded(state, today) == state <==> !RefreshDue(state, today)
  {
    if Recorded(state, today) == state {
      assert state[LAST_DATE_KEY] == Recorded(state, today)[LAST_DATE_KEY];
    }
  }

  /** Recording a day a second time changes nothing. */
  lemma RecordedIdempotent(state: State, today: Date)
    requires Valid(today)
    ensures Recorded(Recorded(state, today), today) == Recorded(state, today)
  {
    RecordedChangesIffDue(Recorded(state, today), today);
    RecordedDueIff(state, today, today);
  }

  /** Neither configured reference date is a 29th, so neither age calculation in
      `update_widget` raises on any day. */
  lemma ConfiguredAgesNeverFail(today: Date)
    requires Valid(today)
    ensures AgeParts(DOB_AGE, today).Parts? && AgeParts(DOB_COLLEGE, today).Parts?
  {
    AgePartsErrors(DOB_AGE, today);
    AgePartsErrors(DOB_COLLEGE, today);
  }

  /** Both ages were computed, so the update reaches line 151. */
  predicate Computed(age: AgeResult, college: Option<AgeResult>) {
    age.Parts? && college.Some? && college.value.Parts?
  }

  /** The module-level `state` dictionary together with the state file behind it. */
  class Tracker {
    var state: State
    var disk: StoredFile

    /** Line 35: the state is loaded once, when the program starts. */
    constructor (file: StoredFile)
      ensures state == LoadState(file) && disk == file
    {
      state := LoadState(file);
      disk := file;
    }

    /** Lines 31-33: the dictionary is written whole when the write succeeds; `writeOk`
        says whether it does. */
    method SaveState(writeOk: bool)
      modifies this
      ensures state == old(state)
      ensures disk == if writeOk then Stored(state) else old(disk)
    {
      if writeOk {
        disk := Stored(state);
      }
    }

    /** Lines 140-152: both ages on `now`, the college age only once the first has not
        raised; then `now` is recorded in memory and saved. When a calculation raises,
        nothing is recorded; when the save fails, the state in memory has already
        changed. */
    method UpdateWidget(now: Date, writeOk: bool) returns (age: AgeResult, college: Option<AgeResult>)
      requires Valid(now)
      modifies this
      ensures age == AgeParts(DOB_AGE, now)
      ensures college == if age.Parts? then Some(AgeParts(DOB_COLLEGE, now)) else None
      ensures state == if Computed(age, college) then Recorded(old(state), now) else old(state)
      ensures disk == if Computed(age, college) && writeOk then Stored(state) else old(disk)
    {
      college := None;
      age := GetAgeParts(DOB_AGE, now);
      if age.ValueError? {
        return;
      }
      var collegeAge := GetAgeParts(DOB_COLLEGE, now);
      college := Some(collegeAge);
      if collegeAge.ValueError? {
        return;
      }
      state := state[LAST_DATE_KEY := IsoFormat(now)];
      SaveState(writeOk);
    }

    /** Lines 154-157: the poll compares the stored date with `today` and updates when
        they differ. The update reads the clock again, as `now`; the two readings differ
        only when midnight passes in between. */
    method EnsureDailyUpdate(today: Date, now: Date, writeOk: bool) returns (updated: bool)
      requires Valid(today) && Valid(now)
      modifies this
      ensures updated == old(RefreshDue(state, today))
      ensures state == if updated then Recorded(old(state), now) else old(state)
      ensures disk == if updated && writeOk then Stored(state) else old(disk)
      ensures now == today ==> !RefreshDue(state, today)
    {
      updated := RefreshDue(state, today);
      if updated {
        ConfiguredAgesNeverFail(now);
        var age, college := UpdateWidget(now, writeOk);
      }
      RecordedChangesIffDue(old(state), today);
      RecordedDueIff(old(state), now, today);
    }
  }
}
