/** Read-only queries over the children list: who is available in a
    cell, the cell's colour, and the five best-attended cells of the week. */
module Aggregation {

  import opened Text
  import opened TimeGrid
  import opened Children

  // ---- who is available in one cell ---------------------------------------

  /** `children.filter(c => c.availability[key])` for the cell's key. */
  function AvailableChildren(children: seq<Child>, day: string, time: string): (r: seq<Child>)
    ensures forall c :: c in r <==> c in children && IsMarked(c.availability, SlotKey(day, time))
    ensures forall c {:trigger multiset(r)[c]} :: multiset(r)[c] ==
              if IsMarked(c.availability, SlotKey(day, time)) then multiset(children)[c] else 0
  {
    if children == [] then []
    else
      var rest := AvailableChildren(children[1..], day, time);
      assert children == [children[0]] + children[1..];
      if IsMarked(children[0].availability, SlotKey(day, time)) then [children[0]] + rest else rest
  }

  /** `r` is `s` with some elements dropped and the others kept in order. */
  predicate IsSubsequence<T(==)>(r: seq<T>, s: seq<T>)
    decreases |s|
  {
    if r == [] then true
    else if s == [] then false
    else if r[0] == s[0] then IsSubsequence(r[1..], s[1..])
    else IsSubsequence(r, s[1..])
  }

  /** The available children come in the order of the children list. */
  lemma {:induction false} AvailableIsSubsequence(children: seq<Child>, day: string, time: string)
    ensures IsSubsequence(AvailableChildren(children, day, time), children)
  {
    if children != [] {
      AvailableIsSubsequence(children[1..], day, time);
      var rest := AvailableChildren(children[1..], day, time);
      if !IsMarked(children[0].availability, SlotKey(day, time)) && rest != [] {
        assert rest[0] in children[1..];
        assert rest[0] != children[0];
      }
    }
  }

  /** Filtering distributes over concatenation. */
  lemma {:induction false} AvailableAppend(a: seq<Child>, b: seq<Child>, day: string, time: string)
    ensures AvailableChildren(a + b, day, time)
            == AvailableChildren(a, day, time) + AvailableChildren(b, day, time)
  {
    if a != [] {
      assert (a + b)[0] == a[0];
      assert (a + b)[1..] == a[1..] + b;
      AvailableAppend(a[1..], b, day, time);
    } else {
      assert a + b == b;
    }
  }

  /** A newly added child, whose availability is empty, shows up in no cell:
      every cell keeps exactly the children it had. */
  lemma NewChildInNoCell(children: seq<Child>, id: Id, name: string, day: string, time: string)
    ensures AvailableChildren(children + [Child(id, name, map[])], day, time)
            == AvailableChildren(children, day, time)
  {
    AvailableAppend(children, [Child(id, name, map[])], day, time);
  }

  function Names(children: seq<Child>): (r: seq<string>)
    ensures |r| == |children|
    ensures forall i :: 0 <= i < |children| ==> r[i] == children[i].name
  {
    if children == [] then [] else [children[0].name] + Names(children[1..])
  }

  /** Toggling one key leaves the names of the children available in every
      other cell as they were. */
  lemma {:induction false} ToggleKeepsOtherCells(children: seq<Child>, id: Id, key: string, day: string, time: string)
    requires SlotKey(day, time) != key
    ensures Names(AvailableChildren(ToggleChildren(children, id, key), day, time))
            == Names(AvailableChildren(children, day, time))
  {
    if children != [] {
      var toggled := ToggleChildren(children, id, key);
      assert toggled[1..] == ToggleChildren(children[1..], id, key);
      ToggleKeepsOtherCells(children[1..], id, key, day, time);
    }
  }

  // ---- colour of one cell -------------------------------------------------

  const AvailableColor: string := "bg-green-400"
  const EmptyColor: string := "bg-gray-100"

  /** The cell is green when at least one child is available there and grey
      otherwise. */
  function SlotColor(children: seq<Child>, day: string, time: string): (r: string)
    ensures r == AvailableColor || r == EmptyColor
    ensures r == AvailableColor <==>
              exists i :: 0 <= i < |children| && IsMarked(children[i].availability, SlotKey(day, time))
  {
    var kids := AvailableChildren(children, day, time);
    assert kids != [] ==> kids[0] in kids;
    if |kids| > 0 then AvailableColor else EmptyColor
  }

  // ---- the ranking of cells -----------------------------------------------

  /** One line of "Top Available Times": the day, the slot's label, how many
      children are available and their names joined by commas. */
  datatype BestTime = BestTime(day: string, time: string, count: nat, names: string)

  /** The entry the app builds for one cell. */
  function Tally(children: seq<Child>, day: string, slot: Slot): BestTime {
    var kids := AvailableChildren(children, day, slot.time);
    BestTime(day, slot.display, |kids|, Join(Names(kids), ", "))
  }

  /** The function giving the entry of a (day, slot) cell. */
  type CellTally = (string, Slot) -> BestTime

  /** The entries of one day's non-empty cells, in slot order. */
  function DayTallies(tally: CellTally, day: string, slots: seq<Slot>): seq<BestTime> {
    if slots == [] then []
    else
      var t := tally(day, slots[|slots| - 1]);
      DayTallies(tally, day, slots[..|slots| - 1]) + (if t.count > 0 then [t] else [])
  }

  /** The entries of every non-empty cell, day by day and slot by slot
      within a day. */
  function WeekTallies(tally: CellTally, days: seq<string>, slots: seq<Slot>): seq<BestTime> {
    if days == [] then []
    else WeekTallies(tally, days[..|days| - 1], slots) + DayTallies(tally, days[|days| - 1], slots)
  }

  function TallyOf(children: seq<Child>): CellTally {
    (d, s) => Tally(children, d, s)
  }

  /** The candidates the ranking starts from: the whole week's non-empty cells. */
  function Candidates(children: seq<Child>): seq<BestTime> {
    WeekTallies(TallyOf(children), Days, Grid())
  }

  lemma PrefixSnoc<T>(s: seq<T>, i: int)
    requires 0 <= i < |s|
    ensures s[..i + 1] == s[..i] + [s[i]]
  {
  }

  lemma DayTalliesSnoc(tally: CellTally, day: string, slots: seq<Slot>, slot: Slot)
    ensures DayTallies(tally, day, slots + [slot])
            == DayTallies(tally, day, slots) + (if tally(day, slot).count > 0 then [tally(day, slot)] else [])
  {
    assert (slots + [slot])[..|slots|] == slots;
  }

  lemma WeekTalliesSnoc(tally: CellTally, days: seq<string>, day: string, slots: seq<Slot>)
    ensures WeekTallies(tally, days + [day], slots)
            == WeekTallies(tally, days, slots) + DayTallies(tally, day, slots)
  {
    assert (days + [day])[..|days|] == days;
  }

  /** One more slot of the day extends the collected entries by that slot's
      entry when it is non-empty. */
  lemma DayTalliesStep(tally: CellTally, day: string, slots: seq<Slot>, j: int, acc: seq<BestTime>, done: seq<BestTime>)
    requires 0 <= j < |slots| && acc == done + DayTallies(tally, day, slots[..j])
    ensures acc + (if tally(day, slots[j]).count > 0 then [tally(day, slots[j])] else [])
            == done + DayTallies(tally, day, slots[..j + 1])
  {
    PrefixSnoc(slots, j);
    DayTalliesSnoc(tally, day, slots[..j], slots[j]);
  }

  /** Every entry of a day comes from one of its non-empty cells. */
  lemma {:induction false} DayTalliesSound(tally: CellTally, day: string, slots: seq<Slot>)
    ensures forall e :: e in DayTallies(tally, day, slots) ==>
              e.count > 0 && exists k :: 0 <= k < |slots| && e == tally(day, slots[k])
  {
    if slots != [] {
      var init := slots[..|slots| - 1];
      DayTalliesSound(tally, day, init);
      forall e | e in DayTallies(tally, day, slots)
        ensures e.count > 0 && exists k :: 0 <= k < |slots| && e == tally(day, slots[k])
      {
        if e in DayTallies(tally, day, init) {
          var k :| 0 <= k < |init| && e == tally(day, init[k]);
          assert slots[k] == init[k];
        } else {
          assert e == tally(day, slots[|slots| - 1]);
        }
      }
    }
  }

  /** Every non-empty cell of a day has its entry. */
  lemma {:induction false} DayTalliesComplete(tally: CellTally, day: string, slots: seq<Slot>, k: int)
    requires 0 <= k < |slots| && tally(day, slots[k]).count > 0
    ensures tally(day, slots[k]) in DayTallies(tally, day, slots)
  {
    var init := slots[..|slots| - 1];
    if k < |init| {
      assert init[k] == slots[k];
      DayTalliesComplete(tally, day, init, k);
    }
  }

  /** Every entry of the week comes from one of its non-empty cells. */
  lemma {:induction false} WeekTalliesSound(tally: CellTally, days: seq<string>, slots: seq<Slot>)
    ensures forall e :: e in WeekTallies(tally, days, slots) ==>
              e.count > 0 && exists i, k :: 0 <= i < |days| && 0 <= k < |slots| && e == tally(days[i], slots[k])
  {
    if days != [] {
      var init := days[..|days| - 1];
      var last := |days| - 1;
      WeekTalliesSound(tally, init, slots);
      DayTalliesSound(tally, days[last], slots);
      forall e | e in WeekTallies(tally, days, slots)
        ensures e.count > 0 && exists i, k :: 0 <= i < |days| && 0 <= k < |slots| && e == tally(days[i], slots[k])
      {
        if e in WeekTallies(tally, init, slots) {
          var i, k :| 0 <= i < |init| && 0 <= k < |slots| && e == tally(init[i], slots[k]);
          assert days[i] == init[i];
        } else {
          var k :| 0 <= k < |slots| && e == tally(days[last], slots[k]);
        }
      }
    }
  }

  /** Every non-empty cell of the week has its entry. */
  lemma {:induction false} WeekTalliesComplete(tally: CellTally, days: seq<string>, slots: seq<Slot>, i: int, k: int)
    requires 0 <= i < |days| && 0 <= k < |slots| && tally(days[i], slots[k]).count > 0
    ensures tally(days[i], slots[k]) in WeekTallies(tally, days, slots)
  {
    var init := days[..|days| - 1];
    if i < |init| {
      assert init[i] == days[i];
      WeekTalliesComplete(tally, init, slots, i, k);
    } else {
      DayTalliesComplete(tally, days[i], slots, k);
    }
  }

  // Stable sort, largest count first (`sort((a, b) => b.count - a.count)`).

  ghost predicate NonIncreasing(s: seq<BestTime>) {
    forall i, j :: 0 <= i < j < |s| ==> s[i].count >= s[j].count
  }

  /** The entries of `s` with count `c`, in their order in `s`. */
  function WithCount(s: seq<BestTime>, c: nat): seq<BestTime> {
    if s == [] then []
    else (if s[0].count == c then [s[0]] else []) + WithCount(s[1..], c)
  }

  /** Puts `x` in front of the first entry whose count is not larger. */
  function InsertByCount(x: BestTime, s: seq<BestTime>): seq<BestTime> {
    if s == [] || s[0].count <= x.count then [x] + s
    else [s[0]] + InsertByCount(x, s[1..])
  }

  function SortByCount(s: seq<BestTime>): seq<BestTime> {
    if s == [] then [] else InsertByCount(s[0], SortByCount(s[1..]))
  }

  lemma {:induction false} InsertByCountSorted(x: BestTime, s: seq<BestTime>)
    requires NonIncreasing(s)
    ensures NonIncreasing(InsertByCount(x, s))
    ensures InsertByCount(x, s)[0] == x || InsertByCount(x, s)[0] == s[0]
  {
    if s != [] && s[0].count > x.count {
      InsertByCountSorted(x, s[1..]);
    }
  }

  lemma {:induction false} InsertByCountPermutes(x: BestTime, s: seq<BestTime>)
    ensures multiset(InsertByCount(x, s)) == multiset(s) + multiset{x}
  {
    if s != [] && s[0].count > x.count {
      InsertByCountPermutes(x, s[1..]);
      assert s == [s[0]] + s[1..];
    }
  }

  lemma WithCountCons(x: BestTime, s: seq<BestTime>, c: nat)
    ensures WithCount([x] + s, c) == (if x.count == c then [x] else []) + WithCount(s, c)
  {
    assert ([x] + s)[1..] == s;
  }

  lemma {:induction false} InsertByCountStable(x: BestTime, s: seq<BestTime>, c: nat)
    ensures WithCount(InsertByCount(x, s), c) == (if x.count == c then [x] else []) + WithCount(s, c)
  {
    if s != [] && s[0].count > x.count {
      InsertByCountStable(x, s[1..], c);
      WithCountCons(s[0], InsertByCount(x, s[1..]), c);
      assert s == [s[0]] + s[1..];
      WithCountCons(s[0], s[1..], c);
      if x.count == c {
        assert s[0].count != c;
      }
    } else {
      WithCountCons(x, s, c);
    }
  }

  /** The sort orders by count, largest first, and is a permutation. */
  lemma {:induction false} SortByCountSorted(s: seq<BestTime>)
    ensures NonIncreasing(SortByCount(s))
    ensures multiset(SortByCount(s)) == multiset(s)
  {
    if s != [] {
      SortByCountSorted(s[1..]);
      InsertByCountSorted(s[0], SortByCount(s[1..]));
      InsertByCountPermutes(s[0], SortByCount(s[1..]));
      assert s == [s[0]] + s[1..];
    }
  }

  /** The sort is stable: the entries sharing any one count keep the order
      they had before sorting. */
  lemma {:induction false} SortByCountStable(s: seq<BestTime>, c: nat)
    ensures WithCount(SortByCount(s), c) == WithCount(s, c)
  {
    if s != [] {
      SortByCountStable(s[1..], c);
      InsertByCountStable(s[0], SortByCount(s[1..]), c);
    }
  }

  /** `s.slice(0, n)`. */
  function Take<T>(s: seq<T>, n: nat): (r: seq<T>)
    ensures |r| <= n && r <= s
    ensures |s| <= n ==> r == s
    ensures n < |s| ==> |r| == n
  {
    if |s| <= n then s else s[..n]
  }

  /** The entries with count `c` in a prefix are a prefix of those in the
      whole sequence. */
  lemma {:induction false} WithCountPrefix(s: seq<BestTime>, n: nat, c: nat)
    requires n <= |s|
    ensures WithCount(s[..n], c) <= WithCount(s, c)
  {
    if n > 0 {
      assert s[..n][1..] == s[1..][..n - 1];
      WithCountPrefix(s[1..], n - 1, c);
    }
  }

  const TopLimit: nat := 5

  /** What `getBestTimes` returns. */
  function BestTimes(children: seq<Child>): seq<BestTime> {
    Take(SortByCount(Candidates(children)), TopLimit)
  }

  /** Keeping the first `TopLimit` entries of the sorted candidates: what is
      kept comes from the candidates, is sorted, keeps the candidates' order
      among equal counts, and nothing dropped beats the last entry kept. */
  lemma {:induction false} TopOfSorted(cands: seq<BestTime>)
    ensures |Take(SortByCount(cands), TopLimit)| <= TopLimit
    ensures forall e :: e in Take(SortByCount(cands), TopLimit) ==> e in cands
    ensures NonIncreasing(Take(SortByCount(cands), TopLimit))
    ensures forall c: nat :: WithCount(Take(SortByCount(cands), TopLimit), c) <= WithCount(cands, c)
    ensures forall e :: e in cands ==>
              e in Take(SortByCount(cands), TopLimit)
              || (|Take(SortByCount(cands), TopLimit)| == TopLimit
                  && e.count <= Take(SortByCount(cands), TopLimit)[TopLimit - 1].count)
  {
    var sorted := SortByCount(cands);
    SortByCountSorted(cands);
    TopIsFromSorted(cands, sorted);
    TopIsStable(cands);
    TopKeepsLargest(sorted);
  }

  /** Every entry of a permutation's prefix, and every candidate, occurs in
      the sorted list. */
  lemma TopIsFromSorted(cands: seq<BestTime>, sorted: seq<BestTime>)
    requires multiset(sorted) == multiset(cands)
    ensures forall e :: e in Take(sorted, TopLimit) ==> e in cands
    ensures forall e :: e in cands ==> e in sorted
  {
    forall e | e in Take(sorted, TopLimit) ensures e in cands {
      assert e in multiset(sorted);
    }
    forall e | e in cands ensures e in sorted {
      assert e in multiset(cands);
    }
  }

  /** The kept entries sharing a count come in the candidates' order. */
  lemma TopIsStable(cands: seq<BestTime>)
    ensures forall c: nat :: WithCount(Take(SortByCount(cands), TopLimit), c) <= WithCount(cands, c)
  {
    var sorted := SortByCount(cands);
    forall c: nat ensures WithCount(Take(sorted, TopLimit), c) <= WithCount(cands, c) {
      SortByCountStable(cands, c);
      if |sorted| > TopLimit {
        WithCountPrefix(sorted, TopLimit, c);
      }
    }
  }

  /** Of a list sorted by count, the first `TopLimit` entries are kept and
      every entry dropped has at most the count of the last one kept. */
  lemma TopKeepsLargest(sorted: seq<BestTime>)
    requires NonIncreasing(sorted)
    ensures forall e :: e in sorted ==>
              e in Take(sorted, TopLimit)
              || (|Take(sorted, TopLimit)| == TopLimit
                  && e.count <= Take(sorted, TopLimit)[TopLimit - 1].count)
  {
    var best := Take(sorted, TopLimit);
    forall e | e in sorted
      ensures e in best || (|best| == TopLimit && e.count <= best[TopLimit - 1].count)
    {
      var n :| 0 <= n < |sorted| && sorted[n] == e;
      if n >= TopLimit {
        assert best[TopLimit - 1] == sorted[TopLimit - 1];
      } else {
        assert best[n] == e;
      }
    }
  }

  /** At most five entries; each is the entry of a non-empty cell of the week
      with its true count; counts never increase down the list; among equal
      counts the day-then-slot order is kept; and no non-empty cell left out
      has more children available than the last entry shown. */
  lemma BestTimesSpec(children: seq<Child>)
    ensures |BestTimes(children)| <= TopLimit
    ensures forall e :: e in BestTimes(children) ==>
              e.count >= 1 && exists i, k :: 0 <= i < |Days| && 0 <= k < |Grid()|
                                            && e == Tally(children, Days[i], Grid()[k])
    ensures NonIncreasing(BestTimes(children))
    ensures forall c: nat :: WithCount(BestTimes(children), c) <= WithCount(Candidates(children), c)
    ensures forall i, k :: 0 <= i < |Days| && 0 <= k < |Grid()| && Tally(children, Days[i], Grid()[k]).count > 0 ==>
              Tally(children, Days[i], Grid()[k]) in BestTimes(children)
              || (|BestTimes(children)| == TopLimit
                  && Tally(children, Days[i], Grid()[k]).count <= BestTimes(children)[TopLimit - 1].count)
  {
    var tally := TallyOf(children);
    TopOfSorted(Candidates(children));
    WeekTalliesSound(tally, Days, Grid());
    forall i, k | 0 <= i < |Days| && 0 <= k < |Grid()| && Tally(children, Days[i], Grid()[k]).count > 0
      ensures Tally(children, Days[i], Grid()[k]) in Candidates(children)
    {
      assert Tally(children, Days[i], Grid()[k]) == tally(Days[i], Grid()[k]);
      WeekTalliesComplete(tally, Days, Grid(), i, k);
    }
  }

  /** The inner `timeSlots.forEach` of `getBestTimes` for one day: pushes
      an entry for every slot of the day where some child is available. */
  method PushDayCounts(children: seq<Child>, day: string, timeSlots: seq<Slot>, slotCounts: seq<BestTime>)
    returns (slotCounts': seq<BestTime>)
    ensures slotCounts' == slotCounts + DayTallies(TallyOf(children), day, timeSlots)
  {
    ghost var tally := TallyOf(children);
    slotCounts' := slotCounts;
    var j := 0;
    while j < |timeSlots|
      invariant 0 <= j <= |timeSlots|
      invariant slotCounts' == slotCounts + DayTallies(tally, day, timeSlots[..j])
    {
      var slot := timeSlots[j];
      var availableKids := AvailableChildren(children, day, slot.time);
      DayTalliesStep(tally, day, timeSlots, j, slotCounts', slotCounts);
      assert tally(day, slot) == BestTime(day, slot.display, |availableKids|, Join(Names(availableKids), ", "));
      if |availableKids| > 0 {
        slotCounts' := slotCounts' + [BestTime(day, slot.display, |availableKids|, Join(Names(availableKids), ", "))];
      }
      j := j + 1;
    }
    assert timeSlots[..j] == timeSlots;
  }

  /** `getBestTimes`: walks the week's cells day by day, collects an entry
      for every cell with at least one child, sorts by count and keeps five. */
  method GetBestTimes(children: seq<Child>) returns (best: seq<BestTime>)
    ensures best == BestTimes(children)
  {
    var timeSlots := GenerateTimeSlots();
    var slotCounts: seq<BestTime> := [];
    var i := 0;
    while i < |Days|
      invariant 0 <= i <= |Days|
      invariant slotCounts == WeekTallies(TallyOf(children), Days[..i], timeSlots)
    {
      var day := Days[i];
      slotCounts := PushDayCounts(children, day, timeSlots, slotCounts);
      PrefixSnoc(Days, i);
      WeekTalliesSnoc(TallyOf(children), Days[..i], day, timeSlots);
      i := i + 1;
    }
    assert Days[..|Days|] == Days;
    best := Take(SortByCount(slotCounts), TopLimit);
  }
}
