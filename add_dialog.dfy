/** The "add a counter" dialog: its title field, the date chosen through the
    platform date picker, the colour swatch and the confirm button. */
module AddDialog {
  import opened Wrappers
  import opened Calendar
  import opened Palette
  import opened Titles
  import opened CounterList

  /** What the platform date picker exchanges: a year, a ZERO-based month
      and a day of month. */
  datatype PickerFields = PickerFields(year: int, month: int, dayOfMonth: int)

  /** Opening the picker on `d`: the month goes out as `monthValue - 1`. */
  function OpenPicker(d: Date): (p: PickerFields)
    requires ValidDate(d)
    ensures 0 <= p.month < 12
  {
    PickerFields(d.year, d.month - 1, d.day)
  }

  /** The picker's callback: `LocalDate.of(year, month + 1, dayOfMonth)`,
      `None` where that factory throws. */
  function PickedDate(p: PickerFields): (r: Option<Date>)
    ensures r.Some? <==> ValidDate(Date(p.year, p.month + 1, p.dayOfMonth))
    ensures r.Some? ==> ValidDate(r.value)
  {
    var d := Date(p.year, p.month + 1, p.dayOfMonth);
    if ValidDate(d) then Some(d) else None
  }

  /** Confirming the picker on the fields it was opened with rebuilds the
      same date. */
  lemma PickerRoundTrip(d: Date)
    requires ValidDate(d)
    ensures PickedDate(OpenPicker(d)) == Some(d)
  {
  }

  /** Conversely, a date the picker delivers opens the picker on the same
      fields. */
  lemma PickerFieldsRoundTrip(p: PickerFields, d: Date)
    requires PickedDate(p) == Some(d)
    ensures OpenPicker(d) == p
  {
  }

  /** The dialog's `remember`ed state. */
  class Dialog {
    var title: string
    var selectedDate: LocalDate
    var selectedColor: Color

    /** A fresh dialog: an empty title, today's date (passed in, as
        `LocalDate.now()` is) and a colour from the draw `index`. */
    constructor (today: LocalDate, index: int)
      requires 0 <= index < |Colors|
      ensures title == "" && selectedDate == today && selectedColor == RandomColor(index)
      ensures InPalette(selectedColor) && !CanConfirm()
    {
      title := "";
      selectedDate := today;
      selectedColor := RandomColor(index);
    }

    /** `enabled = title.isNotBlank()` on the confirm button. */
    predicate CanConfirm()
      reads this
    {
      IsNotBlank(title)
    }

    /** The text field's `onValueChange`. */
    method EditTitle(text: string)
      modifies this
      ensures title == text
      ensures selectedDate == old(selectedDate) && selectedColor == old(selectedColor)
    {
      title := text;
    }

    /** The picker callback with the fields the user confirmed; the platform
        picker only offers existing dates, the ones `LocalDate.of` accepts. */
    method PickDate(p: PickerFields)
      requires PickedDate(p).Some?
      modifies this
      ensures selectedDate == PickedDate(p).value
      ensures title == old(title) && selectedColor == old(selectedColor)
    {
      selectedDate := PickedDate(p).value;
    }

    /** A tap on the colour swatch: a new draw from the palette. */
    method Reroll(index: int)
      requires 0 <= index < |Colors|
      modifies this
      ensures selectedColor == RandomColor(index) && InPalette(selectedColor)
      ensures title == old(title) && selectedDate == old(selectedDate)
    {
      selectedColor := RandomColor(index);
    }

    /** A tap on the confirm button, which is disabled while the title is
        blank: the counter is appended only when the title is not blank. */
    method Confirm(list: Counters) returns (added: bool)
      modifies list
      ensures added <==> IsNotBlank(title)
      ensures list.items == if added then old(list.items) + [Counter(title, selectedDate, selectedColor)]
                            else old(list.items)
      ensures old(AllTitled(list.items)) ==> AllTitled(list.items)
    {
      added := IsNotBlank(title);
      if added {
        list.Add(title, selectedDate, selectedColor);
      }
    }
  }
}
