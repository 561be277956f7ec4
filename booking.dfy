/**
  The `ITSupportBooking` object itself (script.js:3-372): its fields are
  updated in place by the handlers, and each handler is proved to change the
  object exactly as the corresponding step of the widget model does.
*/
module Booking {
  import opened Wrappers
  import opened Dates
  import opened DateString
  import opened Calendar
  import opened Validation
  import opened FormCheck
  import opened BookingModel

  /** The `forEach` of `renderTimeSlots` (script.js:142-158), with draw `k` standing for `Math.random() < 0.3`. */
  method RenderSlots(draws: seq<bool>) returns (slots: seq<Slot>)
    requires |draws| == |TimeSlots|
    ensures slots == SlotGrid(draws)
  {
    slots := [];
    for k := 0 to |TimeSlots|
      invariant |slots| == k
      invariant forall j | 0 <= j < k :: slots[j] == Slot(TimeSlots[j], draws[j])
    {
      slots := slots + [Slot(TimeSlots[k], draws[k])];
    }
  }

  class ITSupportBooking {
    var currentDate: Date
    /** The instant the grid on the page was drawn at; only the proofs look at it. */
    ghost var renderedAt: Now
    var calendar: seq<Cell>
    var dayHighlight: Option<int>
    var selectedDate: Option<Date>
    var selectedTime: Option<string>
    var selectedDateTime: string
    var slotsVisible: bool
    var slots: seq<Slot>
    var slotHighlight: Option<int>
    var fieldErrors: FieldErrors
    var banner: Option<Message>
    var loading: bool
    var pending: seq<Timer>

    ghost function State(): Widget
      reads this
    {
      Widget(currentDate, renderedAt, calendar, dayHighlight, selectedDate, selectedTime,
             selectedDateTime, slotsVisible, slots, slotHighlight, fieldErrors, banner, loading, pending)
    }

    ghost predicate Valid()
      reads this
    {
      BookingModel.Valid(State())
    }

    /** `new ITSupportBooking()` at instant `now`, which the constructor reads with `new Date()`. */
    constructor(now: Now)
      requires ValidNow(now)
      ensures State() == Init(now) && Valid()
    {
      var cells := RenderGrid(now.date, now);
      currentDate := now.date;
      renderedAt := now;
      calendar := cells;
      dayHighlight := None;
      selectedDate := None;
      selectedTime := None;
      selectedDateTime := "";
      slotsVisible := false;
      slots := [];
      slotHighlight := None;
      fieldErrors := map[];
      banner := None;
      loading := false;
      pending := [];
      new;
      InitValid(now);
    }

    /** `updateCurrentMonth` (script.js:54-62): the heading text, which names the cursor's month and year. */
    method UpdateCurrentMonth() returns (heading: string)
      requires ValidDate(currentDate)
      ensures heading == MonthLabel(currentDate)
      ensures ParseMonthLabel(heading) == Some((currentDate.year, currentDate.month))
    {
      heading := MonthNames[currentDate.month] + " " + Text.IntToString(currentDate.year);
      MonthLabelRoundTrip(currentDate);
    }

    /** `renderCalendar` at instant `now`: the grid is replaced, which also drops the day highlight. */
    method RenderCalendar(now: Now)
      requires ValidDate(currentDate) && ValidNow(now)
      modifies this
      ensures State() == old(State()).(renderedAt := now,
        calendar := CalendarGrid(old(currentDate).year, old(currentDate).month, now), dayHighlight := None)
    {
      var cells := RenderGrid(currentDate, now);
      calendar := cells;
      renderedAt := now;
      dayHighlight := None;
    }

    /** The "previous month" button (script.js:25-29). */
    method PrevMonth(now: Now)
      requires Valid() && ValidNow(now)
      modifies this
      ensures State() == Navigate(old(State()), -1, now) && Valid()
    {
      NavigateValid(State(), -1, now);
      currentDate := MakeDate(currentDate.year, currentDate.month - 1, currentDate.day);
      RenderCalendar(now);
    }

    /** The "next month" button (script.js:31-35). */
    method NextMonth(now: Now)
      requires Valid() && ValidNow(now)
      modifies this
      ensures State() == Navigate(old(State()), 1, now) && Valid()
    {
      NavigateValid(State(), 1, now);
      currentDate := MakeDate(currentDate.year, currentDate.month + 1, currentDate.day);
      RenderCalendar(now);
    }

    /** A click on cell `i` of the grid; only selectable days carry the handler (script.js:103-109). */
    method ClickDay(i: int, draws: seq<bool>)
      requires Valid() && 0 <= i < |calendar| && |draws| == |TimeSlots|
      modifies this
      ensures State() == BookingModel.ClickDay(old(State()), i, draws) && Valid()
    {
      ClickDayValid(State(), i, draws);
      if Selectable(calendar[i]) {
        SelectDate(calendar[i].date, i, draws);
      }
    }

    /** `selectDate` (script.js:121-133). */
    method SelectDate(date: Date, i: int, draws: seq<bool>)
      requires |draws| == |TimeSlots|
      modifies this
      ensures State() == BookingModel.SelectDate(old(State()), date, i, draws)
    {
      dayHighlight := Some(i);
      selectedDate := Some(date);
      RenderTimeSlots(draws);
    }

    /** `renderTimeSlots` (script.js:135-159): the panel is shown and its grid redrawn. */
    method RenderTimeSlots(draws: seq<bool>)
      requires |draws| == |TimeSlots|
      modifies this
      ensures State() == old(State()).(slotsVisible := true, slots := SlotGrid(draws), slotHighlight := None)
    {
      slotsVisible := true;
      var grid := RenderSlots(draws);
      slots := grid;
      slotHighlight := None;
    }

    /** A click on slot `k`; only the available slots of the visible panel carry the handler. */
    method ClickSlot(k: int)
      requires Valid() && 0 <= k < |slots|
      modifies this
      ensures State() == BookingModel.ClickSlot(old(State()), k) && Valid()
    {
      ClickSlotValid(State(), k);
      if slotsVisible && !slots[k].unavailable {
        SelectTimeSlot(slots[k].time, k);
      }
    }

    /** `selectTimeSlot` (script.js:161-174). */
    method SelectTimeSlot(time: string, k: int)
      requires selectedDate.Some? ==> ValidDate(selectedDate.value)
      modifies this
      ensures State() == BookingModel.SelectTimeSlot(old(State()), time, k)
    {
      slotHighlight := Some(k);
      selectedTime := Some(time);
      if selectedDate.Some? {
        selectedDateTime := ToDateString(selectedDate.value) + " at " + time;
      }
    }

    /** The blur handler (script.js:48-51): a required control is validated on its own. */
    method BlurField(fields: seq<Field>, k: int)
      requires Valid() && 0 <= k < |fields|
      modifies this
      ensures State() == Blur(old(State()), fields, k) && Valid()
    {
      BlurValid(State(), fields, k);
      if fields[k].required {
        fieldErrors := Annotate(fieldErrors, k, fields[k]);
      }
    }

    /** `validateForm` (script.js:242-269). */
    method ValidateForm(fields: seq<Field>, consents: Consents) returns (ok: bool)
      requires Valid()
      modifies this
      ensures ok == FormValid(old(State()), fields, consents)
      ensures State() == BookingModel.ValidateForm(old(State()), fields, consents) && Valid()
    {
      var fieldsOk, errs := ValidateFields(fieldErrors, fields);
      fieldErrors := errs;
      ok := fieldsOk;
      if selectedDate.None? || selectedTime.None? {
        ok := false;
        banner := Some(SelectionMessage);
      }
      if !consents.dataProcessing || !consents.dataStorage {
        ok := false;
        banner := Some(ConsentMessage);
      }
    }

    /** `handleFormSubmission` (script.js:271-308), up to starting the reply timer. */
    method HandleFormSubmission(fields: seq<Field>, consents: Consents)
      requires Valid()
      modifies this
      ensures State() == Submit(old(State()), fields, consents) && Valid()
    {
      SubmitValid(State(), fields, consents);
      var ok := ValidateForm(fields, consents);
      if !ok {
        return;
      }
      loading := true;
      pending := pending + [ApiResponse];
    }

    /** Pending timer `i` fires (script.js:298-307). */
    method FireTimer(i: int)
      requires Valid() && 0 <= i < |pending|
      modifies this
      ensures State() == BookingModel.FireTimer(old(State()), i) && Valid()
    {
      FireTimerValid(State(), i);
      var timer := pending[i];
      pending := pending[..i] + pending[i + 1..];
      match timer
      case ApiResponse =>
        loading := false;
        banner := Some(SubmittedMessage);
        pending := pending + [AutoReset];
      case AutoReset =>
        ResetForm();
    }

    /** `resetForm` (script.js:344-371). */
    method ResetForm()
      requires Valid()
      modifies this
      ensures State() == Reset(old(State())) && Valid()
    {
      ResetValid(State());
      selectedDate := None;
      selectedTime := None;
      dayHighlight := None;
      slotsVisible := false;
      selectedDateTime := "";
      fieldErrors := map[];
      banner := Some(ResetMessage);
    }
  }
}
