/** The counters shown on the main screen: a `mutableStateListOf(Counter)`
    that the screen's handlers grow with `add` and shrink with `remove`. */
module CounterList {
  import opened Calendar
  import opened Palette
  import opened Titles

  /** `data class Counter(title, startDate, color)`: equality is structural,
      and the start date is a `LocalDate`, hence an existing date. */
  datatype Counter = Counter(title: string, startDate: LocalDate, color: Color)

  /** The day count a card shows (`val days = getDaysSince(counter.startDate)`),
      with the clock's date passed in as `today`; it is defined for every
      counter, and zero exactly on the start date. */
  function CardDays(c: Counter, today: LocalDate): (n: int)
    ensures n == 0 <==> c.startDate == today
    ensures n > 0 <==> Before(c.startDate, today)
  {
    DaysSinceSign(c.startDate, today);
    DaysSince(c.startDate, today)
  }

  /** The three counters the screen starts with. */
  const Seeds: seq<Counter> := [
    Counter("Arr\U{EA}t cigarette", Date(2024, 6, 10), Green),
    Counter("M\U{E9}ditation", Date(2024, 7, 1), Blue),
    Counter("Course \U{E0} pied", Date(2024, 5, 20), Orange)
  ]

  /** `List.indexOf`: the first position holding a counter equal to `c`,
      or -1 when there is none. */
  function IndexOf(s: seq<Counter>, c: Counter): (i: int)
    ensures -1 <= i < |s|
    ensures i == -1 <==> c !in s
    ensures i >= 0 ==> s[i] == c && forall j :: 0 <= j < i ==> s[j] != c
  {
    if |s| == 0 then -1
    else if s[0] == c then 0
    else
      var k := IndexOf(s[1..], c);
      if k < 0 then -1 else k + 1
  }

  /** The list after `MutableList.remove(c)`: the first equal element is
      dropped, or nothing changes when no element is equal to `c`. */
  function RemoveFirst(s: seq<Counter>, c: Counter): (r: seq<Counter>)
    ensures |r| == if c in s then |s| - 1 else |s|
    ensures c !in s ==> r == s
  {
    var i := IndexOf(s, c);
    if i < 0 then s else s[..i] + s[i + 1..]
  }

  /** Removal takes out exactly one copy of a present counter and keeps the
      multiset of the others; an absent counter leaves the list alone. */
  lemma RemoveFirstCounts(s: seq<Counter>, c: Counter)
    ensures c in s ==> |RemoveFirst(s, c)| == |s| - 1 && multiset(RemoveFirst(s, c)) == multiset(s) - multiset{c}
    ensures c !in s ==> RemoveFirst(s, c) == s
  {
    var i := IndexOf(s, c);
    if i >= 0 {
      assert s == s[..i] + [c] + s[i + 1..];
    }
  }

  /** Removal keeps the remaining counters in their relative order: those
      before the first equal one stay in place, those after it move up one. */
  lemma RemoveFirstOrder(s: seq<Counter>, c: Counter, j: int)
    requires c in s && 0 <= j < |s| - 1
    ensures RemoveFirst(s, c)[j] == if j < IndexOf(s, c) then s[j] else s[j + 1]
  {
  }

  /** Of two equal counters, removal takes the earlier: removing a counter
      appended after an equal one keeps the appended copy. */
  lemma RemoveFirstOfDuplicate(s: seq<Counter>, c: Counter)
    requires c in s
    ensures RemoveFirst(s + [c], c) == RemoveFirst(s, c) + [c]
  {
    var i := IndexOf(s, c);
    assert IndexOf(s + [c], c) == i by {
      assert (s + [c])[i] == c;
    }
    assert (s + [c])[..i] == s[..i];
    assert (s + [c])[i + 1..] == s[i + 1..] + [c];
  }

  /** Removing a freshly appended counter that had no equal undoes the add. */
  lemma RemoveUndoesAdd(s: seq<Counter>, c: Counter)
    requires c !in s
    ensures RemoveFirst(s + [c], c) == s
  {
    assert (s + [c])[|s|] == c;
    assert (s + [c])[..|s|] == s;
  }

  /** Every counter has a title that is not blank. */
  ghost predicate AllTitled(s: seq<Counter>) {
    forall i :: 0 <= i < |s| ==> IsNotBlank(s[i].title)
  }

  /** The list object the screen's handlers mutate. */
  class Counters {
    var items: seq<Counter>

    constructor ()
      ensures items == Seeds
      ensures AllTitled(items)
    {
      items := Seeds;
      assert !IsWhitespace(Seeds[0].title[0]);
      assert !IsWhitespace(Seeds[1].title[0]);
      assert !IsWhitespace(Seeds[2].title[0]);
    }

    /** `counters.add(Counter(title, startDate, color))`. */
    method Add(title: string, startDate: LocalDate, color: Color)
      modifies this
      ensures items == old(items) + [Counter(title, startDate, color)]
      ensures |items| == |old(items)| + 1 && items[|items| - 1] == Counter(title, startDate, color)
      ensures old(AllTitled(items)) && IsNotBlank(title) ==> AllTitled(items)
    {
      items := items + [Counter(title, startDate, color)];
    }

    /** `counters.remove(counter)`; the result says whether an element went. */
    method Remove(c: Counter) returns (removed: bool)
      modifies this
      ensures removed <==> c in old(items)
      ensures items == RemoveFirst(old(items), c)
      ensures old(AllTitled(items)) ==> AllTitled(items)
    {
      var i := IndexOf(items, c);
      if i >= 0 {
        items := items[..i] + items[i + 1..];
      }
      removed := i >= 0;
      assert forall k :: 0 <= k < |items| ==> items[k] in old(items);
    }
  }

  /** The walk-through of adding and deleting one counter on the seeded
      screen, checked against the contracts above. */
  method AddThenDeleteScenario(color: Color)
  {
    var list := new Counters();
    var reading := Counter("Reading", Date(2024, 8, 1), color);
    list.Add(reading.title, reading.startDate, reading.color);
    assert list.items == Seeds + [reading];
    assert |list.items| == 4 && list.items[3].title == "Reading";
    ReadingNotSeeded(reading);
    var removed := list.Remove(reading);
    RemoveUndoesAdd(Seeds, reading);
    assert removed && list.items == Seeds;
  }

  lemma ReadingNotSeeded(reading: Counter)
    requires reading.title == "Reading"
    ensures reading !in Seeds
    ensures forall k :: 0 <= k < |Seeds| ==> Seeds[k].title != "Reading"
  {
    assert Seeds[0].title[0] == 'A' && Seeds[1].title[0] == 'M' && Seeds[2].title[0] == 'C';
  }
}
