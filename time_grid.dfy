/** The fixed grid the scheduler shows: seven weekday names and the
    half-hour slots of one day, 09:00 up to and including 20:00. */
module TimeGrid {

  import opened Options
  import opened Text

  /** The day axis, in display order. */
  const Days: seq<string> :=
    ["Monday", "Tuesday", "Wednesday", "Thursday", "Friday", "Saturday", "Sunday"]

  const FirstHour: nat := 9
  const LastHour: nat := 20
  const SlotCount: nat := 23

  /** One row of the grid: the `"HH:MM"` key that availability is stored
      under and the label shown to the user. */
  datatype Slot = Slot(time: string, display: string)

  /** Separator between the clock time and the AM/PM marker in the en-US
      label. */
  const DisplaySeparator: char := ' '

  /** The zero-padded 24-hour key of a time of day. */
  function TimeKey(hour: nat, minute: nat): string
    requires hour < 100 && minute < 100
  {
    TwoDigits(hour) + ":" + TwoDigits(minute)
  }

  /** The en-US 12-hour label: hour without padding, two-digit minute,
      then AM or PM; hour 0 and hour 12 both read as 12. */
  function Display(hour: nat, minute: nat): string
    requires hour < 24 && minute < 60
  {
    var h12 := if hour % 12 == 0 then 12 else hour % 12;
    NatToString(h12) + ":" + TwoDigits(minute) + [DisplaySeparator] + (if hour < 12 then "AM" else "PM")
  }

  function MakeSlot(hour: nat, minute: nat): Slot
    requires hour < 24 && minute < 60
  {
    Slot(TimeKey(hour, minute), Display(hour, minute))
  }

  /** The `i`-th slot of the day counts `i` half hours from 09:00. */
  function SlotAt(i: int): Slot
    requires 0 <= i < SlotCount
  {
    MakeSlot(FirstHour + i / 2, (i % 2) * 30)
  }

  /** The whole day's grid, as a specification of what the generator builds. */
  function Grid(): seq<Slot> {
    seq(SlotCount, i requires 0 <= i < SlotCount => SlotAt(i))
  }

  /** Reads an `"HH:MM"` key back into its hour and minute. */
  function ParseTimeKey(s: string): (r: Option<(nat, nat)>)
    ensures r.Some? ==> |s| == 5 && s[2] == ':' && r.value.0 < 100 && r.value.1 < 100
  {
    if |s| == 5 && s[2] == ':' && ParseTwoDigits(s[..2]).Some? && ParseTwoDigits(s[3..]).Some?
    then Some((ParseTwoDigits(s[..2]).value, ParseTwoDigits(s[3..]).value))
    else None
  }

  /** Minutes since midnight of a well-formed key. */
  function MinutesOf(s: string): int {
    match ParseTimeKey(s)
    case Some((h, m)) => h * 60 + m
    case None => -1
  }

  lemma TimeKeyRoundTrip(hour: nat, minute: nat)
    requires hour < 100 && minute < 100
    ensures ParseTimeKey(TimeKey(hour, minute)) == Some((hour, minute))
  {
    var s := TimeKey(hour, minute);
    assert s[..2] == TwoDigits(hour);
    assert s[3..] == TwoDigits(minute);
    TwoDigitsRoundTrip(hour);
    TwoDigitsRoundTrip(minute);
  }

  /** Every key of the grid is a zero-padded five-character `"HH:MM"` whose
      hour lies in 9..20 and whose minute is 0 or 30; 20:30 is not there. */
  lemma GridKeysWellFormed(i: int)
    requires 0 <= i < |Grid()|
    ensures |Grid()[i].time| == 5 && Grid()[i].time[2] == ':'
    ensures IsDigit(Grid()[i].time[0]) && IsDigit(Grid()[i].time[1])
    ensures IsDigit(Grid()[i].time[3]) && IsDigit(Grid()[i].time[4])
    ensures ParseTimeKey(Grid()[i].time).Some?
    ensures var (h, m) := ParseTimeKey(Grid()[i].time).value;
            FirstHour <= h <= LastHour && (m == 0 || m == 30) && !(h == LastHour && m == 30)
  {
    TimeKeyRoundTrip(FirstHour + i / 2, (i % 2) * 30);
  }

  lemma GridAt(i: int)
    requires 0 <= i < SlotCount
    ensures |Grid()| == SlotCount && Grid()[i] == SlotAt(i)
  {
  }

  /** Slot `i` starts `30 * i` minutes after 09:00. */
  lemma SlotMinutes(i: int)
    requires 0 <= i < SlotCount
    ensures MinutesOf(SlotAt(i).time) == 540 + 30 * i
  {
    var h, m := FirstHour + i / 2, (i % 2) * 30;
    TimeKeyRoundTrip(h, m);
    assert MinutesOf(SlotAt(i).time) == h * 60 + m;
    assert i == 2 * (i / 2) + i % 2;
  }

  /** The grid has 23 slots from 09:00 to 20:00, each exactly thirty minutes
      after the one before it. */
  lemma GridShape()
    ensures |Grid()| == 23
    ensures Grid()[0].time == "09:00" && Grid()[|Grid()| - 1].time == "20:00"
    ensures forall i :: 0 <= i < |Grid()| ==> MinutesOf(Grid()[i].time) == 540 + 30 * i
  {
    GridAt(0);
    GridAt(22);
    assert SlotAt(0).time == TimeKey(9, 0);
    assert SlotAt(22).time == TimeKey(20, 0);
    forall i | 0 <= i < |Grid()| ensures MinutesOf(Grid()[i].time) == 540 + 30 * i {
      GridAt(i);
      SlotMinutes(i);
    }
  }

  /** The labels read "9:00 AM" for the first slot, "12:00 PM" at noon and
      "8:00 PM" for the last slot. */
  lemma GridLabels()
    ensures Grid()[0].display == "9:00" + [DisplaySeparator] + "AM"
    ensures Grid()[6].display == "12:00" + [DisplaySeparator] + "PM"
    ensures Grid()[22].display == "8:00" + [DisplaySeparator] + "PM"
  {
    GridAt(0);
    GridAt(6);
    GridAt(22);
    assert NatToString(12) == NatToString(1) + [DigitChar(2)];
  }

  /** The keys strictly increase in time, so no key occurs twice. */
  lemma GridStrictlyIncreasing()
    ensures forall i, j :: 0 <= i < j < |Grid()| ==> MinutesOf(Grid()[i].time) < MinutesOf(Grid()[j].time)
    ensures forall i, j :: 0 <= i < j < |Grid()| ==> Grid()[i].time != Grid()[j].time
  {
    GridShape();
  }

  /** The slot for `hour:minute` sits at index `2 * (hour - 9) + minute / 30`. */
  lemma SlotAtClock(hour: nat, minute: nat)
    requires FirstHour <= hour <= LastHour && (minute == 0 || minute == 30)
    requires !(hour == LastHour && minute == 30)
    ensures 2 * (hour - FirstHour) + minute / 30 < SlotCount
    ensures SlotAt(2 * (hour - FirstHour) + minute / 30) == MakeSlot(hour, minute)
  {
    var h := hour - FirstHour;
    var b := if minute == 0 then 0 else 1;
    assert minute / 30 == b && b * 30 == minute;
    HalfOf(h, b);
    var i := 2 * h + b;
    assert FirstHour + i / 2 == hour && (i % 2) * 30 == minute;
  }

  lemma HalfOf(h: nat, b: nat)
    requires b < 2
    ensures (2 * h + b) / 2 == h && (2 * h + b) % 2 == b
  {
  }

  /** `slots` is the start of the grid. */
  ghost predicate GridPrefix(slots: seq<Slot>) {
    |slots| <= SlotCount && forall k :: 0 <= k < |slots| ==> slots[k] == SlotAt(k)
  }

  lemma GridPrefixExtend(slots: seq<Slot>, slot: Slot)
    requires GridPrefix(slots) && |slots| < SlotCount && slot == SlotAt(|slots|)
    ensures GridPrefix(slots + [slot])
  {
  }

  /** Builds the grid as the app does: hours 9 to 20, minutes 0 and 30,
      stopping inside hour 20 after its first slot. */
  method GenerateTimeSlots() returns (slots: seq<Slot>)
    ensures slots == Grid()
  {
    slots := [];
    var hour := FirstHour;
    while hour <= LastHour
      invariant FirstHour <= hour <= LastHour + 1
      invariant |slots| == if hour <= LastHour then 2 * (hour - FirstHour) else SlotCount
      invariant GridPrefix(slots)
    {
      var minute := 0;
      while minute < 60
        invariant minute == 0 || minute == 30 || minute == 60
        invariant hour == LastHour ==> minute <= 30
        invariant |slots| == 2 * (hour - FirstHour) + minute / 30
        invariant GridPrefix(slots)
      {
        if hour == LastHour && minute > 0 {
          break;
        }
        var time := TimeKey(hour, minute);
        var display := Display(hour, minute);
        SlotAtClock(hour, minute);
        GridPrefixExtend(slots, Slot(time, display));
        slots := slots + [Slot(time, display)];
        minute := minute + 30;
      }
      hour := hour + 1;
    }
    forall k | 0 <= k < SlotCount ensures slots[k] == Grid()[k] {
      GridAt(k);
    }
  }
}
