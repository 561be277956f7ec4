/**
  The state of the booking widget as a value, and each handler of
  `ITSupportBooking` as a step from one state to the next. The page enters
  only through parameters: the instant a grid is drawn, the random draws that
  mark time slots unavailable, the form controls and the consent check boxes.
  Timers started with `setTimeout` are pending events that fire one at a time.
*/
module BookingModel {
  import opened Wrappers
  import opened Dates
  import opened DateString
  import opened Calendar
  import opened Validation
  import opened FormCheck

  /** The bookable times, every half hour from 09:00 to 17:00 (script.js:8-12). */
  const TimeSlots: seq<string> := [
    "09:00", "09:30", "10:00", "10:30", "11:00", "11:30",
    "12:00", "12:30", "13:00", "13:30", "14:00", "14:30",
    "15:00", "15:30", "16:00", "16:30", "17:00"
  ]

  /** The label of the `k`-th half hour after 09:00, as "HH:MM". */
  function HalfHourLabel(k: nat): string {
    Text.ZeroPadded(9 + k / 2, 2) + (if k % 2 == 0 then ":00" else ":30")
  }

  lemma TwoDigits(h: nat)
    requires h < 100
    ensures Text.ZeroPadded(h, 2) == [Text.DigitChar(h / 10), Text.DigitChar(h % 10)]
  {
    if h >= 10 {
      assert Text.NatToString(h) == Text.NatToString(h / 10) + [Text.DigitChar(h % 10)];
    }
  }

  /** The five characters of a half-hour label. */
  lemma HalfHourChars(k: nat)
    requires k < 17
    ensures var h := 9 + k / 2;
      HalfHourLabel(k) == [Text.DigitChar(h / 10), Text.DigitChar(h % 10), ':', if k % 2 == 0 then '0' else '3', '0']
  {
    TwoDigits(9 + k / 2);
  }

  /** The slot list is the seventeen half hours from 09:00 to 17:00, in order. */
  lemma TimeSlotsAreHalfHours()
    ensures |TimeSlots| == 17
    ensures forall k | 0 <= k < |TimeSlots| :: TimeSlots[k] == HalfHourLabel(k)
  {
    forall k | 0 <= k < |TimeSlots|
      ensures TimeSlots[k] == HalfHourLabel(k)
    {
      HalfHourChars(k);
    }
  }

  /** A time slot as `renderTimeSlots` draws it; an unavailable one has no click handler. */
  datatype Slot = Slot(time: string, unavailable: bool)

  datatype MessageType = ErrorType | SuccessType

  /** The banner `showMessage` puts at the top of the form; a new one replaces the old. */
  datatype Message = Message(text: string, kind: MessageType)

  const SelectionMessage := Message("Please select a date and time for your appointment.", ErrorType)
  const ConsentMessage := Message("Please accept the required GDPR consent terms.", ErrorType)
  const SubmittedMessage := Message("Your IT support booking has been successfully submitted! We will contact you shortly to confirm your appointment.", SuccessType)
  const ResetMessage := Message("Form has been reset successfully.", SuccessType)

  /** The `setTimeout` callbacks of the submission: the simulated reply, then the automatic reset. */
  datatype Timer = ApiResponse | AutoReset

  /** The two consent check boxes `validateForm` requires. */
  datatype Consents = Consents(dataProcessing: bool, dataStorage: bool)

  /**
    `cursor` is `currentDate`; the grid was drawn at instant `renderedAt`;
    `dayHighlight` and `slotHighlight` are the cells carrying the `selected`
    class; `selectedDateTime` is the hidden field; `slotsVisible` is the
    display of the time-slot panel; `loading` is the loading look of the form.
  */
  datatype Widget = Widget(
    cursor: Date,
    renderedAt: Now,
    calendar: seq<Cell>,
    dayHighlight: Option<int>,
    selectedDate: Option<Date>,
    selectedTime: Option<string>,
    selectedDateTime: string,
    slotsVisible: bool,
    slots: seq<Slot>,
    slotHighlight: Option<int>,
    fieldErrors: FieldErrors,
    banner: Option<Message>,
    loading: bool,
    pending: seq<Timer>)

  /** What every reachable state satisfies. */
  predicate Valid(w: Widget) {
    ValidDate(w.cursor) && ValidNow(w.renderedAt)
    && w.calendar == CalendarGrid(w.cursor.year, w.cursor.month, w.renderedAt)
    && (w.dayHighlight.Some? ==>
          0 <= w.dayHighlight.value < |w.calendar| && Selectable(w.calendar[w.dayHighlight.value])
          && w.selectedDate == Some(w.calendar[w.dayHighlight.value].date))
    && (w.selectedDate.Some? ==> ValidDate(w.selectedDate.value))
    && (w.slotsVisible ==> w.selectedDate.Some?)
    && (w.slots == [] || (|w.slots| == |TimeSlots| && forall k | 0 <= k < |w.slots| :: w.slots[k].time == TimeSlots[k]))
    && (w.slotHighlight.Some? ==> 0 <= w.slotHighlight.value < |w.slots| && !w.slots[w.slotHighlight.value].unavailable)
    && (w.selectedTime.Some? ==> w.selectedTime.value in TimeSlots)
  }

  // ---------------------------------------------------------------------------
  // Steps

  /** The constructor and `init` (script.js:4-21): the cursor is the current date and its month is drawn. */
  function Init(now: Now): Widget
    requires ValidNow(now)
  {
    Widget(now.date, now, CalendarGrid(now.date.year, now.date.month, now), None,
           None, None, "", false, [], None, map[], None, false, [])
  }

  /** The navigation buttons (script.js:25-35): `setMonth` on the cursor, then a fresh grid. */
  function Navigate(w: Widget, delta: int, now: Now): Widget
    requires Valid(w) && ValidNow(now)
  {
    var c := ShiftMonth(w.cursor, delta);
    w.(cursor := c, renderedAt := now, calendar := CalendarGrid(c.year, c.month, now), dayHighlight := None)
  }

  /** The slot grid for one set of random draws: a true draw marks the slot unavailable. */
  function SlotGrid(draws: seq<bool>): (r: seq<Slot>)
    requires |draws| == |TimeSlots|
    ensures |r| == |TimeSlots|
    ensures forall k | 0 <= k < |r| :: r[k].time == TimeSlots[k] && (r[k].unavailable <==> draws[k])
  {
    seq(|TimeSlots|, k requires 0 <= k < |TimeSlots| => Slot(TimeSlots[k], draws[k]))
  }

  /**
    `selectDate` and `renderTimeSlots` (script.js:121-159): cell `i` becomes the
    highlighted day, `d` the selected date, and a new slot grid is shown. The
    selected time and the hidden field are not touched.
  */
  function SelectDate(w: Widget, d: Date, i: int, draws: seq<bool>): Widget
    requires |draws| == |TimeSlots|
  {
    w.(dayHighlight := Some(i), selectedDate := Some(d), slotsVisible := true,
       slots := SlotGrid(draws), slotHighlight := None)
  }

  /** A click on cell `i` of the grid: only a selectable day has a handler. */
  function ClickDay(w: Widget, i: int, draws: seq<bool>): Widget
    requires Valid(w) && 0 <= i < |w.calendar| && |draws| == |TimeSlots|
  {
    if Selectable(w.calendar[i]) then SelectDate(w, w.calendar[i].date, i, draws) else w
  }

  /**
    `selectTimeSlot` (script.js:161-174): slot `k` is highlighted, `t` becomes
    the selected time and the hidden field names the selected date and the
    time. Without a selected date the template literal throws, after the
    time was stored, and the hidden field keeps its value.
  */
  function SelectTimeSlot(w: Widget, t: string, k: int): Widget
    requires w.selectedDate.Some? ==> ValidDate(w.selectedDate.value)
  {
    var w1 := w.(slotHighlight := Some(k), selectedTime := Some(t));
    if w.selectedDate.Some? then w1.(selectedDateTime := DateTimeString(w.selectedDate.value, t)) else w1
  }

  /** A click on slot `k`: only an available slot of the visible panel has a handler. */
  function ClickSlot(w: Widget, k: int): Widget
    requires Valid(w) && 0 <= k < |w.slots|
  {
    if w.slotsVisible && !w.slots[k].unavailable then SelectTimeSlot(w, w.slots[k].time, k) else w
  }

  /** The blur handler of a required control (script.js:48-51); other controls have none. */
  function Blur(w: Widget, fields: seq<Field>, k: int): Widget
    requires 0 <= k < |fields|
  {
    if fields[k].required then w.(fieldErrors := Annotate(w.fieldErrors, k, fields[k])) else w
  }

  predicate SelectionMade(w: Widget) {
    w.selectedDate.Some? && w.selectedTime.Some?
  }

  predicate ConsentsGiven(c: Consents) {
    c.dataProcessing && c.dataStorage
  }

  /** The verdict of `validateForm` (script.js:242-269). */
  predicate FormValid(w: Widget, fields: seq<Field>, c: Consents) {
    RequiredFieldsValid(fields) && SelectionMade(w) && ConsentsGiven(c)
  }

  /**
    The banner after `validateForm`: each failing check shows its message and
    removes the one before, so the consent message, shown last, wins.
  */
  function ValidationBanner(w: Widget, c: Consents): Option<Message> {
    if !ConsentsGiven(c) then Some(ConsentMessage)
    else if !SelectionMade(w) then Some(SelectionMessage)
    else w.banner
  }

  /** What `validateForm` changes: the field annotations and the banner. */
  function ValidateForm(w: Widget, fields: seq<Field>, c: Consents): Widget {
    w.(fieldErrors := FormPass(w.fieldErrors, fields), banner := ValidationBanner(w, c))
  }

  /**
    `handleFormSubmission` (script.js:271-308): an invalid form stops after
    validation; a valid one turns the form to loading and starts the timer of
    the simulated reply.
  */
  function Submit(w: Widget, fields: seq<Field>, c: Consents): Widget {
    var v := ValidateForm(w, fields, c);
    if FormValid(w, fields, c) then v.(loading := true, pending := v.pending + [ApiResponse]) else v
  }

  /**
    `resetForm` (script.js:344-371): no date, no time, no highlighted day, the
    slot panel hidden, the hidden field empty, no field annotation, and the
    reset banner. The highlight in the hidden slot panel is not removed.
  */
  function Reset(w: Widget): Widget {
    w.(dayHighlight := None, selectedDate := None, selectedTime := None, slotsVisible := false,
       selectedDateTime := "", fieldErrors := map[], banner := Some(ResetMessage))
  }

  /**
    Timer `i` fires (script.js:298-307): the reply ends the loading state, shows
    the success banner and starts the reset timer; that one resets the form.
  */
  function FireTimer(w: Widget, i: int): Widget
    requires 0 <= i < |w.pending|
  {
    var rest := w.pending[..i] + w.pending[i + 1..];
    match w.pending[i]
    case ApiResponse => w.(loading := false, banner := Some(SubmittedMessage), pending := rest + [AutoReset])
    case AutoReset => Reset(w.(pending := rest))
  }

  // ---------------------------------------------------------------------------
  // Every step keeps the state valid

  lemma InitValid(now: Now)
    requires ValidNow(now)
    ensures Valid(Init(now))
  {
  }

  lemma NavigateValid(w: Widget, delta: int, now: Now)
    requires Valid(w) && ValidNow(now)
    ensures Valid(Navigate(w, delta, now))
  {
  }

  lemma ClickDayValid(w: Widget, i: int, draws: seq<bool>)
    requires Valid(w) && 0 <= i < |w.calendar| && |draws| == |TimeSlots|
    ensures Valid(ClickDay(w, i, draws))
  {
    if Selectable(w.calendar[i]) {
      GridShape(w.cursor.year, w.cursor.month, w.renderedAt);
    }
  }

  lemma ClickSlotValid(w: Widget, k: int)
    requires Valid(w) && 0 <= k < |w.slots|
    ensures Valid(ClickSlot(w, k))
  {
  }

  lemma BlurValid(w: Widget, fields: seq<Field>, k: int)
    requires Valid(w) && 0 <= k < |fields|
    ensures Valid(Blur(w, fields, k))
  {
  }

  lemma SubmitValid(w: Widget, fields: seq<Field>, c: Consents)
    requires Valid(w)
    ensures Valid(Submit(w, fields, c))
  {
  }

  lemma FireTimerValid(w: Widget, i: int)
    requires Valid(w) && 0 <= i < |w.pending|
    ensures Valid(FireTimer(w, i))
  {
    if w.pending[i] == AutoReset {
      ResetValid(w.(pending := w.pending[..i] + w.pending[i + 1..]));
    }
  }

  // ---------------------------------------------------------------------------
  // What each step changes

  /** Navigation moves the cursor and redraws the grid; the selection stays, only its highlight goes. */
  lemma NavigateKeepsSelection(w: Widget, delta: int, now: Now)
    requires Valid(w) && ValidNow(now)
    ensures var v := Navigate(w, delta, now);
      v.cursor == ShiftMonth(w.cursor, delta) && v.dayHighlight.None?
      && v.selectedDate == w.selectedDate && v.selectedTime == w.selectedTime
      && v.selectedDateTime == w.selectedDateTime && v.slotsVisible == w.slotsVisible
  {
  }

  /** A click on a weekend, a past day, a blank or a heading changes nothing. */
  lemma UnselectableClickIgnored(w: Widget, i: int, draws: seq<bool>)
    requires Valid(w) && 0 <= i < |w.calendar| && |draws| == |TimeSlots| && !Selectable(w.calendar[i])
    ensures ClickDay(w, i, draws) == w
  {
  }

  /**
    Choosing a day selects it and shows its slots, one per bookable time and
    unavailable exactly where the draw says so; the selected time and the
    hidden field are left as they were.
  */
  lemma SelectDateKeepsTime(w: Widget, i: int, draws: seq<bool>)
    requires Valid(w) && 0 <= i < |w.calendar| && |draws| == |TimeSlots| && Selectable(w.calendar[i])
    ensures var v := ClickDay(w, i, draws);
      v.selectedDate == Some(w.calendar[i].date) && v.slotsVisible
      && |v.slots| == |TimeSlots|
      && (forall k | 0 <= k < |TimeSlots| :: v.slots[k] == Slot(TimeSlots[k], draws[k]))
      && v.selectedTime == w.selectedTime && v.selectedDateTime == w.selectedDateTime
      && v.cursor == w.cursor && v.calendar == w.calendar
  {
  }

  /**
    Choosing an available slot selects its time, keeps the date and writes the
    date and time into the hidden field; the date can be read back from it.
  */
  lemma SelectTimeSetsHidden(w: Widget, k: int)
    requires Valid(w) && 0 <= k < |w.slots| && w.slotsVisible && !w.slots[k].unavailable
    ensures var v := ClickSlot(w, k);
      v.selectedTime == Some(TimeSlots[k]) && v.selectedDate == w.selectedDate
      && v.selectedDateTime == ToDateString(w.selectedDate.value) + " at " + TimeSlots[k]
      && ParseDateString(ToDateString(w.selectedDate.value)) == w.selectedDate
  {
    DateStringRoundTrip(w.selectedDate.value);
  }

  /** After a reset nothing is selected, the panel is hidden and the hidden field is empty. */
  lemma ResetClears(w: Widget)
    ensures var v := Reset(w);
      v.selectedDate.None? && v.selectedTime.None? && v.selectedDateTime == ""
      && !v.slotsVisible && v.dayHighlight.None? && v.fieldErrors == map[]
      && v.banner == Some(ResetMessage)
      && v.cursor == w.cursor && v.loading == w.loading && v.pending == w.pending
  {
  }

  lemma ResetIdempotent(w: Widget)
    ensures Reset(Reset(w)) == Reset(w)
  {
  }

  lemma ResetValid(w: Widget)
    requires Valid(w)
    ensures Valid(Reset(w))
  {
  }

  /** Right after a reset the form cannot be valid: no date and no time are selected. */
  lemma FormInvalidAfterReset(w: Widget, fields: seq<Field>, c: Consents)
    ensures !FormValid(Reset(w), fields, c)
  {
  }

  /** When both the selection and the consents are missing, the consent message is the one left standing. */
  lemma ConsentMessageWins(w: Widget, fields: seq<Field>, c: Consents)
    requires !SelectionMade(w) && !ConsentsGiven(c)
    ensures ValidateForm(w, fields, c).banner == Some(ConsentMessage)
  {
  }

  /**
    Missing consents fail the form whatever else is right: the consent message
    is the banner left standing and a submission goes no further than validation.
  */
  lemma MissingConsentFails(w: Widget, fields: seq<Field>, c: Consents)
    requires !ConsentsGiven(c)
    ensures !FormValid(w, fields, c)
    ensures ValidateForm(w, fields, c).banner == Some(ConsentMessage)
    ensures Submit(w, fields, c) == ValidateForm(w, fields, c)
  {
  }

  /**
    Whenever a check fails, validation shows its message, the consent message
    taking precedence; otherwise the banner is left as it was.
  */
  lemma ValidationBannerShown(w: Widget, fields: seq<Field>, c: Consents)
    ensures !SelectionMade(w) || !ConsentsGiven(c) ==>
      ValidateForm(w, fields, c).banner == Some(if !ConsentsGiven(c) then ConsentMessage else SelectionMessage)
    ensures SelectionMade(w) && ConsentsGiven(c) ==> ValidateForm(w, fields, c).banner == w.banner
  {
  }

  /**
    Validation annotates every required control with its own verdict, changes
    the banner only when the selection or the consents are missing, and changes
    nothing else.
  */
  lemma ValidateFormEffects(w: Widget, fields: seq<Field>, c: Consents)
    ensures var v := ValidateForm(w, fields, c);
      (forall k | 0 <= k < |fields| && fields[k].required :: Lookup(v.fieldErrors, k) == ValidateField(fields[k]))
      && (v.banner != w.banner ==> !SelectionMade(w) || !ConsentsGiven(c))
      && v.(fieldErrors := w.fieldErrors, banner := w.banner) == w
  {
    FormPassAnnotations(w.fieldErrors, fields);
  }

  /** An invalid form changes only what validation displays: no loading, no timer, the same selection. */
  lemma InvalidSubmitOnlyValidates(w: Widget, fields: seq<Field>, c: Consents)
    requires !FormValid(w, fields, c)
    ensures Submit(w, fields, c) == ValidateForm(w, fields, c)
    ensures var v := Submit(w, fields, c);
      v.loading == w.loading && v.pending == w.pending && v.selectedDate == w.selectedDate
      && v.selectedTime == w.selectedTime && v.selectedDateTime == w.selectedDateTime
  {
  }

  /**
    A valid submission with no timer running goes through loading to the
    success banner and ends, three seconds later, in the reset state.
  */
  lemma SubmissionRunsToReset(w: Widget, fields: seq<Field>, c: Consents)
    requires FormValid(w, fields, c) && w.pending == [] && !w.loading
    ensures var s := Submit(w, fields, c);
      s.loading && s.pending == [ApiResponse]
    ensures var r := FireTimer(Submit(w, fields, c), 0);
      !r.loading && r.banner == Some(SubmittedMessage) && r.pending == [AutoReset]
      && r.selectedDate == w.selectedDate && r.selectedTime == w.selectedTime
    ensures var s := Submit(w, fields, c); var r := FireTimer(s, 0);
      FireTimer(r, 0) == Reset(s.(loading := false, pending := []))
  {
    var s := Submit(w, fields, c);
    assert s.pending[..0] + s.pending[1..] == [];
    var r := FireTimer(s, 0);
    assert r.pending[..0] + r.pending[1..] == [];
  }

  // ---------------------------------------------------------------------------
  // The hidden field can go stale

  /** The hidden field names the selected date and time, or is empty when no time is selected. */
  predicate HiddenFieldConsistent(w: Widget) {
    (w.selectedTime.None? && w.selectedDateTime == "")
    || (w.selectedDate.Some? && w.selectedTime.Some? && ValidDate(w.selectedDate.value)
        && w.selectedDateTime == DateTimeString(w.selectedDate.value, w.selectedTime.value))
  }

  lemma SuffixCancel(a: string, b: string, t: string)
    requires a + t == b + t
    ensures a == b
  {
    assert |a| == |b|;
    assert a == (a + t)[..|a|];
    assert b == (b + t)[..|b|];
  }

  /** The hidden field text names its date: two dates with the same time give the same text only if equal. */
  lemma DateTimeStringInjective(d: Date, e: Date, t: string)
    requires ValidDate(d) && ValidDate(e)
    ensures DateTimeString(d, t) == DateTimeString(e, t) <==> d == e
  {
    if DateTimeString(d, t) == DateTimeString(e, t) {
      var a := ToDateString(d);
      var b := ToDateString(e);
      SuffixCancel(a + " at ", b + " at ", t);
      SuffixCancel(a, b, " at ");
      DateStringInjective(d, e);
    }
  }

  /**
    As written, choosing a second day after a time keeps the time and the
    hidden field: the form still counts as complete, while the hidden field
    names the first day.
  */
  lemma SelectDateLeavesStaleDateTime(w: Widget, i: int, draws: seq<bool>)
    requires Valid(w) && 0 <= i < |w.calendar| && |draws| == |TimeSlots|
    requires HiddenFieldConsistent(w) && SelectionMade(w)
    requires Selectable(w.calendar[i]) && Some(w.calendar[i].date) != w.selectedDate
    ensures var v := ClickDay(w, i, draws); SelectionMade(v) && !HiddenFieldConsistent(v)
  {
    var e := w.calendar[i].date;
    ClickDayValid(w, i, draws);
    DateTimeStringInjective(w.selectedDate.value, e, w.selectedTime.value);
  }

  /** Date selection as intended: a new day drops the time chosen for the old one. */
  function ClickDayClearingTime(w: Widget, i: int, draws: seq<bool>): (r: Widget)
    requires Valid(w) && 0 <= i < |w.calendar| && |draws| == |TimeSlots|
    ensures Selectable(w.calendar[i]) ==>
      r.selectedDate == Some(w.calendar[i].date) && r.selectedTime.None? && r.selectedDateTime == ""
    ensures !Selectable(w.calendar[i]) ==> r == w
  {
    if Selectable(w.calendar[i])
    then SelectDate(w, w.calendar[i].date, i, draws).(selectedTime := None, selectedDateTime := "")
    else w
  }

  /** With the corrected date selection, every selection step keeps the hidden field consistent. */
  lemma ClearingKeepsHiddenFieldConsistent(w: Widget, i: int, draws: seq<bool>, k: int)
    requires Valid(w) && HiddenFieldConsistent(w)
    requires 0 <= i < |w.calendar| && |draws| == |TimeSlots| && 0 <= k < |w.slots|
    ensures HiddenFieldConsistent(ClickDayClearingTime(w, i, draws))
    ensures HiddenFieldConsistent(ClickSlot(w, k))
    ensures HiddenFieldConsistent(Reset(w))
  {
  }
}
