# IT support booking widget, modelled in Dafny

`script.js` defines one browser widget, `ITSupportBooking`. It shows a month calendar in which
past days and weekends cannot be picked. A picked day opens a panel of seventeen half-hour slots,
some marked unavailable at random. Choosing a slot writes "date at time" into a hidden form field.
Form controls are checked by a "required" rule and by email and phone patterns. A valid form
submission starts a simulated reply, then resets itself after a delay.

This project models that logic and proves properties of it:

- `dates.dfy` (`Dates`): dates as `getFullYear`/`getMonth`/`getDate` see them, with ECMAScript's
  day arithmetic (day 0 is 1 January 1970, a Thursday). It covers `getDay`, the `<` comparison of
  a day's midnight with the current instant, `isSameDay`, and JavaScript's normalisation of
  out-of-range months and days in `new Date(y, m, d)` and `setMonth`.
- `text.dfy` (`Text`): JavaScript white space, `String.prototype.trim`, and decimal and
  zero-padded rendering of numbers.
- `date_string.dfy` (`DateString`): `toDateString`, which is read back and proved injective, the
  month heading, and the hidden field's "date at time" text.
- `calendar.dfy` (`Calendar`): the day grid of `renderCalendar`, both as a function and as the
  loops that build it.
- `validation.dfy` (`Validation`): `validateField`. Each pattern is given twice: as the set of
  strings the regular expression matches, and as a direct check. Lemmas prove the two agree.
- `form_check.dfy` (`FormCheck`): the error annotations on the page and the pass of
  `validateForm` over every required control.
- `booking_model.dfy` (`BookingModel`): the widget's state as a value, one step function per
  handler and per timer, and the properties of those steps.
- `booking.dfy` (`Booking`): the class `ITSupportBooking`. Its fields are updated in place, and
  every handler method is proved to change the object exactly as its step function does.

The page reaches the model only through parameters:

- the instant `now` (a local date plus the milliseconds since its midnight), read by
  `new Date()`;
- the random draws behind slot availability (`true` marks a slot unavailable);
- the form controls (value, `required`, type) and the two consent check boxes, as read when a
  handler runs.

Pending `setTimeout` callbacks are events that fire one at a time, in any order, and are never
cancelled.

The model follows the code as written: choosing a new day keeps the chosen time and the hidden
field (script.js:121-133), although the redrawn slot grid shows no chosen slot. Date selection
that clears the time is modelled beside it as a correction (see Findings).

## Model

| member | source | states |
|---|---|---|
| Dates.DaysInMonth | script.js:79 | a month has 28 to 31 days, and February has 29 exactly in a Gregorian leap year |
| Dates.Weekday | script.js:83 | `getDay` is a weekday number from 0 (Sunday) to 6 (Saturday) |
| Dates.EpochIsThursday | script.js:83 | 1 January 1970 is day 0 and a Thursday |
| Dates.Examples | script.js:83 | 14 October 2026 is a Wednesday; 29 February 2000 is a Tuesday; leap-year lengths of February |
| Dates.IsPast | script.js:103 | `currentDay < today`: the time value of the day's local midnight is below that of the current instant |
| Dates.IsSameDay | script.js:115-119 | `isSameDay` holds exactly when year, month and day are all equal |
| Dates.IsSameDayReflexiveSymmetric | script.js:115-119 | `isSameDay` is reflexive and symmetric |
| Dates.DayNumberMonotone | script.js:103 | a day earlier in the calendar has a smaller time value |
| Dates.DayNumberOrder | script.js:103 | comparing time values orders valid dates as the calendar does; equal values mean equal dates |
| Dates.IsPastIff | script.js:103 | `currentDay < today` holds exactly for days before today, and for today itself once past midnight |
| Dates.AddDays | script.js:95 | normalising a day count always yields a valid date, `d - 1` days after the first of the month |
| Dates.MakeDate | script.js:78-79 | `new Date(y, m, d)` folds the month into the year first, then counts days, and yields a valid date |
| Dates.MakeDateInRange | script.js:95 | `new Date(y, m, day)` for a day the month has is that very date |
| Dates.LastDayOfMonth | script.js:79 | day 0 of the next month is the last day of this month |
| Dates.ShiftMonth | script.js:25-35 | `setMonth(getMonth() + delta)`: the cursor's year, month plus delta and day, normalised as `new Date` does |
| Dates.ShiftMonthLanding | script.js:25-35 | `setMonth(getMonth() ± 1)` keeps the day exactly when the target month has it, otherwise spills into the next month by the excess |
| Dates.ShiftMonthKeepsEarlyDay | script.js:25-35 | for days 1 to 28 a shift moves only the month, by the given amount |
| Dates.NextThenPrevious | script.js:25-35 | for days 1 to 28, "next" then "previous" (and the reverse) returns to the same date |
| Dates.NextMonthSkipsFebruary | script.js:31-35 | as written, "next" from 31 January 2026 lands on 3 March |
| Dates.PreviousMonthStaysInMarch | script.js:25-29 | as written, "previous" from 31 March 2026 lands on 3 March |
| Dates.ShiftMonthFromFirstLands | script.js:25-35 | the corrected shift always lands on the first of the target month |
| Dates.ShiftMonthFromFirstReturns | script.js:25-35 | with the corrected shift, "next" then "previous" always returns to the same month |
| Text.LeadingSpaces | script.js:177 | the white-space run at the start, and the character after it is not white space |
| Text.ContentEnd | script.js:177 | the length without trailing white space, and the last character kept is not white space |
| Text.Trim | script.js:177 | `trim` returns a slice of the value with only white space before and after it, and no white space at its own ends |
| Text.TrimUnique | script.js:177 | a slice of the value with only white space around it and none at its own ends is the trimmed value, so the contract of `trim` determines it |
| Text.TrimPadding | script.js:177 | white space added around a value does not change what `trim` returns |
| Text.TrimEmptyIff | script.js:185 | a value trims to empty exactly when it is all white space |
| Text.TrimIdempotent | script.js:177 | trimming twice is trimming once |
| Text.NatToStringValue | script.js:61 | the decimal text of a number reads back as that number |
| Text.ZeroPaddedValue | script.js:172 | zero-padded decimal text reads back as the number |
| DateString.ToDateString | script.js:172 | `toDateString`: weekday, month abbreviation, two-digit day and signed year of at least four digits, separated by single spaces |
| DateString.DateStringRoundTrip | script.js:172 | every valid date can be read back (month, day, signed year) from its `toDateString` text |
| DateString.DateStringInjective | script.js:172 | two dates have the same `toDateString` text exactly when they are equal |
| DateString.YearRoundTrip | script.js:172 | the signed, zero-padded year field reads back as the year |
| DateString.MonthLabel | script.js:61 | the heading: the month's full name, a space and the year as `${year}` prints it |
| DateString.IntToStringRoundTrip | script.js:61 | the text of `${year}` reads back as the year, for every integer |
| DateString.MonthLabelRoundTrip | script.js:54-62 | the month and the year read back from every heading |
| DateString.MonthLabelInjective | script.js:54-62 | two cursors get the same heading exactly when they share year and month |
| DateString.DateStringExample | script.js:54-62 | 14 October 2026 prints as "Wed Oct 14 2026", and its month heading is "October 2026" |
| Calendar.DayCellFor | script.js:95-109 | a day's cell: marked today when it is the current date, unavailable when its midnight is past or it is a Saturday or Sunday |
| Calendar.CalendarGrid | script.js:64-113 | the grid: seven headings, a blank per weekday before the 1st, then the cells of days 1 to N |
| Calendar.RenderGrid | script.js:64-113 | the loops of `renderCalendar` build exactly the grid function of the cursor's month |
| Calendar.RenderHeaders | script.js:69-75 | the heading loop appends the seven weekday names in order |
| Calendar.RenderBlanks | script.js:83-87 | the blank loop appends as many blanks as asked |
| Calendar.RenderDays | script.js:90-112 | the day loop appends one cell per day 1..N, each built from `new Date(y, m, day)` |
| Calendar.GridShape | script.js:78-112 | seven headings, then exactly weekday(1st) blanks, then exactly N day cells for days 1..N in order, each in its weekday's column |
| Calendar.WeekdayOfDay | script.js:83-95 | consecutive days of a month have consecutive weekdays |
| Calendar.SelectableIff | script.js:103-109 | a day takes clicks exactly when it is no weekend day, and is after today or is today at midnight |
| Calendar.WeekendsUnavailable | script.js:103 | Saturdays and Sundays never take clicks |
| Calendar.TodayMarkIff | script.js:97-100 | a cell is marked today exactly when its date is the current date |
| Calendar.TodayUnavailableAfterMidnight | script.js:80-104 | past midnight, today is marked as today and cannot be picked |
| Calendar.FutureWeekdaysSelectable | script.js:103-109 | every weekday after today can be picked |
| Validation.IndexOf | script.js:192 | the first position of a character, or the length when it is absent |
| Validation.MatchesEmailRegex | script.js:192 | the strings the email pattern matches: a split into local part, '@', name, '.', suffix, each non-empty and free of white space and '@' |
| Validation.IsEmailShape | script.js:192-193 | the direct email check: no white space, one '@' after a non-empty local part, a '.' strictly inside the domain |
| Validation.EmailShapeMatches | script.js:192-193 | a value passing the direct email check matches the email pattern |
| Validation.MatchesEmailShape | script.js:192-193 | a value matching the email pattern passes the direct check |
| Validation.EmailShapeIff | script.js:192-193 | the email pattern matches exactly when there is no white space, exactly one '@' after a non-empty local part, and a '.' inside the domain that is neither its first nor its last character |
| Validation.EmailAccepted | script.js:192-193 | "a@b.com" is accepted |
| Validation.EmailWithoutDotRejected | script.js:192-193 | "a@b" is rejected |
| Validation.EmailWithTwoAtsRejected | script.js:192-193 | "a@@b.com" is rejected |
| Validation.EmailWithoutLocalPartRejected | script.js:192-193 | "@b.com" is rejected |
| Validation.EmailWithSpaceRejected | script.js:192-193 | "a b@c.de" is rejected |
| Validation.EmailWithLeadingDotRejected | script.js:192-193 | "a@.com" is rejected |
| Validation.StripPhone | script.js:202 | removing separators never lengthens a value and leaves no white space, '-', '(' or ')' |
| Validation.StripPhoneSingle | script.js:202 | a single separator is removed and any other single character is kept; with the concatenation lemma this determines the stripped value |
| Validation.StripPhoneKeepsClean | script.js:202 | a value without separators is left as it is |
| Validation.StripPhoneIdempotent | script.js:202 | stripping twice is stripping once |
| Validation.StripPhoneKeepsDigits | script.js:202 | stripping keeps every digit |
| Validation.StripPhoneAppend | script.js:202 | stripping a concatenation is concatenating the stripped parts |
| Validation.MatchesPhoneRegex | script.js:201 | the strings the phone pattern matches: an optional '+', then a digit 1-9 and up to 15 more digits |
| Validation.IsPhoneShape | script.js:201 | the direct phone check: skip one leading '+', then a digit run of 1 to 16 digits starting 1-9 |
| Validation.PhoneShapeIff | script.js:201 | the phone pattern matches exactly when the value is an optional '+', a digit 1-9, then up to 15 digits |
| Validation.TooManyDigitsRejected | script.js:201-202 | a value with more than sixteen digits fails the phone check however it is punctuated |
| Validation.StripPhoneExample | script.js:202 | "+1 555-123-4567" strips to "+15551234567" |
| Validation.PhoneDigitsExample | script.js:201 | "+15551234567" matches the phone pattern |
| Validation.PhoneExampleAccepted | script.js:201-202 | "+1 555-123-4567" passes the phone check |
| Validation.PhoneExampleLeadingZero | script.js:201-202 | "0123" and "+0123" fail the phone check |
| Validation.ValidateField | script.js:176-216 | a control fails exactly when it is required and blank, or is an email or tel control whose non-blank value fails its pattern; the message shown is that of the last failing rule, so a blank required control never gets an email or phone message |
| Validation.ValidateFieldPadding | script.js:176-177 | white space around any control's value never changes its verdict or its message |
| Validation.EmailFieldAccepted | script.js:190-197 | a required email control holding "a@b.com" passes |
| Validation.EmailFieldPadded | script.js:177 | " a@b.com " trims to "a@b.com" |
| Validation.EmailFieldPaddedAccepted | script.js:176-197 | a required email control holding " a@b.com ", with a space on each side, passes |
| Validation.EmailFieldRejected | script.js:190-197 | a required email control holding "a@b" gets the email message |
| Validation.BlankFieldRequired | script.js:184-188 | a required control holding only spaces gets the required message |
| Validation.TrimPhoneExample | script.js:177 | "+1 555-123-4567" has no white space to trim |
| Validation.PhoneFieldAccepted | script.js:199-206 | a required tel control holding "+1 555-123-4567" passes |
| Validation.PhoneFieldRejected | script.js:199-206 | a required tel control holding "0123" gets the phone message |
| Validation.EmptyOptionalFieldPasses | script.js:199-206 | an empty optional tel control passes |
| FormCheck.Annotate | script.js:208-213 | after validating control k, its annotation is its verdict and every other control keeps its own |
| FormCheck.FormPassAnnotations | script.js:244-251 | after the form pass every required control carries its own verdict; other controls keep theirs |
| FormCheck.ValidateFields | script.js:243-251 | the loop visits every control, also after a failure, leaves the annotations of the form pass and succeeds exactly when every required control passes |
| BookingModel.TimeSlotsAreHalfHours | script.js:8-12 | the slot list is the 17 half hours "09:00", "09:30", ..., "17:00" in order |
| BookingModel.Init | script.js:4-21 | the initial state: the cursor is the current date, its month drawn, nothing selected, panel hidden, no banner, no timer |
| BookingModel.Navigate | script.js:25-35 | a navigation button: the cursor shifted by `setMonth`, the grid redrawn at the current instant, no day highlight |
| BookingModel.SelectDate | script.js:121-159 | `selectDate`: the day highlighted and selected, a fresh slot grid shown without a slot highlight |
| BookingModel.ClickDay | script.js:103-109 | a click on a grid cell: `selectDate` for a cell without the unavailable mark, nothing otherwise |
| BookingModel.SelectTimeSlot | script.js:161-174 | `selectTimeSlot`: the slot highlighted, the time stored, and the hidden field written when a date is selected |
| BookingModel.ClickSlot | script.js:152-155 | a click on a slot: `selectTimeSlot` for an available slot of the shown panel, nothing otherwise |
| BookingModel.Blur | script.js:48-51 | leaving a required control annotates it with its verdict; other controls have no handler |
| BookingModel.ValidateForm | script.js:242-269 | `validateForm`: the annotations of the form pass, and the banner of the last failing check |
| BookingModel.Submit | script.js:271-298 | `handleFormSubmission`: validation, then for a valid form the loading state and the reply timer |
| BookingModel.Reset | script.js:344-371 | `resetForm`: selection, day highlight, panel, hidden field and annotations cleared, and the reset banner |
| BookingModel.FireTimer | script.js:298-307 | a pending timer fires: the reply ends loading, shows the success banner and starts the reset timer; the reset timer resets |
| BookingModel.InitValid | script.js:4-21 | the initial state is valid |
| BookingModel.NavigateValid | script.js:25-35 | navigation keeps the state valid |
| BookingModel.ClickDayValid | script.js:103-133 | a click on the grid keeps the state valid |
| BookingModel.ClickSlotValid | script.js:152-174 | a click on a slot keeps the state valid |
| BookingModel.BlurValid | script.js:48-51 | validation on blur keeps the state valid |
| BookingModel.SubmitValid | script.js:271-308 | submission keeps the state valid |
| BookingModel.FireTimerValid | script.js:298-307 | a firing timer keeps the state valid |
| BookingModel.ResetValid | script.js:344-371 | reset keeps the state valid |
| BookingModel.NavigateKeepsSelection | script.js:25-35 | navigation moves the cursor by `setMonth` and drops the day highlight; date, time, hidden field and panel stay |
| BookingModel.UnselectableClickIgnored | script.js:103-109 | a click on a past day, a weekend day, a blank or a heading changes nothing |
| BookingModel.SelectDateKeepsTime | script.js:121-159 | choosing a day selects it and shows one slot per time, unavailable exactly where drawn; time and hidden field are unchanged |
| BookingModel.SelectTimeSetsHidden | script.js:161-174 | choosing an available slot sets the time, keeps the date, and writes "date at time" into the hidden field, from which the date reads back |
| BookingModel.ResetClears | script.js:344-371 | after reset: no date, no time, no day highlight, panel hidden, hidden field "", no annotations, the reset banner; cursor and timers unchanged |
| BookingModel.ResetIdempotent | script.js:344-371 | resetting twice is resetting once |
| BookingModel.FormInvalidAfterReset | script.js:254-257 | right after a reset the form is invalid, whatever the controls hold |
| BookingModel.ConsentMessageWins | script.js:253-266 | with neither selection nor consents, the consent message is the banner left standing |
| BookingModel.ValidateFormEffects | script.js:242-269 | validation gives every required control its verdict, changes the banner only when the selection or a consent is missing, and changes nothing else |
| BookingModel.MissingConsentFails | script.js:242-276 | without both consents the form is invalid, the consent message is the banner left standing, and a submission stops after validation |
| BookingModel.ValidationBannerShown | script.js:253-266 | a missing selection or missing consents always shows a banner, the consent message taking precedence; with both present the banner is left as it was |
| BookingModel.ValidationBanner | script.js:253-266 | the banner after validation: the consent message if a consent is missing, else the selection message if the date or time is missing, else the banner already shown |
| BookingModel.FormValid | script.js:242-269 | the verdict of validation: every required control passes, a date and a time are selected, and both consents are given |
| FormCheck.FormPass | script.js:247-251 | the pass over the controls: each required control, in document order, gets the annotation for its own verdict |
| BookingModel.SlotGrid | script.js:142-158 | one slot per entry of the time list, in order, carrying that time and marked unavailable exactly when its draw says so |
| DateString.DateTimeString | script.js:172 | the hidden field's text starts with the date's `toDateString` form and ends with the chosen time, with " at " between |
| Text.IntToString | script.js:61 | the decimal text of a year is non-empty and starts with a minus sign exactly when the year is negative |
| Validation.ErrorMessage | script.js:184-206 | the message shown under a control for each verdict: required, invalid email, invalid phone |
| Validation.ErrorMessagesDistinct | script.js:184-206 | the three verdicts show three different messages |
| Dates.ShiftMonthFromFirst | script.js:25-35 | corrected month navigation: the first of the target month, a valid date |
| BookingModel.ClickDayClearingTime | script.js:121-133 | corrected date selection: a selectable cell becomes the selected date and drops the chosen time and the hidden field's text; any other cell changes nothing |
| BookingModel.InvalidSubmitOnlyValidates | script.js:274-276 | an invalid submission is just validation: no loading, no timer, selection unchanged |
| BookingModel.SubmissionRunsToReset | script.js:279-307 | a valid submission goes to loading, then to the success banner with the reset timer, then to the reset state |
| BookingModel.DateTimeStringInjective | script.js:172 | with the same time, the hidden field's text is equal for two dates exactly when the dates are equal |
| BookingModel.SelectDateLeavesStaleDateTime | script.js:121-133 | as written, choosing another day after a time leaves a complete-looking selection whose hidden field names the old day |
| BookingModel.ClearingKeepsHiddenFieldConsistent | script.js:121-174 | with the corrected date selection, picking a day, picking a slot and resetting keep the hidden field equal to the selected date and time, or empty |
| Booking.RenderSlots | script.js:142-158 | the slot loop builds one slot per time, in order, unavailable exactly where drawn |
| Booking.ITSupportBooking.constructor | script.js:4-21 | the new object is the initial state for the current instant, and valid |
| Booking.ITSupportBooking.UpdateCurrentMonth | script.js:54-62 | the heading is the cursor's month name, a space and its year, and the cursor's month and year read back from it |
| Booking.ITSupportBooking.RenderCalendar | script.js:64-113 | the grid is redrawn for the cursor's month at the given instant, and nothing else changes but the day highlight |
| Booking.ITSupportBooking.PrevMonth | script.js:25-29 | the handler performs the navigation step by -1 and keeps the object valid |
| Booking.ITSupportBooking.NextMonth | script.js:31-35 | the handler performs the navigation step by +1 and keeps the object valid |
| Booking.ITSupportBooking.ClickDay | script.js:103-109 | the handler performs the click step on the grid and keeps the object valid |
| Booking.ITSupportBooking.SelectDate | script.js:121-133 | `selectDate` performs the date step |
| Booking.ITSupportBooking.RenderTimeSlots | script.js:135-159 | the panel is shown with a fresh slot grid and no slot highlight; nothing else changes |
| Booking.ITSupportBooking.ClickSlot | script.js:152-155 | the handler performs the slot click step and keeps the object valid |
| Booking.ITSupportBooking.SelectTimeSlot | script.js:161-174 | `selectTimeSlot` performs the time step |
| Booking.ITSupportBooking.BlurField | script.js:48-51 | the blur handler re-annotates a required control and keeps the object valid |
| Booking.ITSupportBooking.ValidateForm | script.js:242-269 | returns the form verdict, updates exactly the annotations and the banner, and keeps the object valid |
| Booking.ITSupportBooking.HandleFormSubmission | script.js:271-308 | performs the submission step and keeps the object valid |
| Booking.ITSupportBooking.FireTimer | script.js:298-307 | performs the step of the firing timer and keeps the object valid |
| Booking.ITSupportBooking.ResetForm | script.js:344-371 | performs the reset step and keeps the object valid |

## Left out

- DOM construction, CSS classes other than the ones that decide behaviour (`selected`, `unavailable`, `today`), styling of error elements, and the injected style sheet (script.js:218-240, 379-393): presentation only.
- Event-listener wiring (script.js:23-52) is not modelled as code: each listener is a handler method, and a click on an element without a listener is a step that changes nothing.
- `Math.random()` (script.js:148): replaced by a sequence of draws passed in; probabilities are not modelled.
- Timing of `setTimeout`: the 2 and 3 second delays are not modelled. Pending callbacks fire in any order, one at a time.
- The 5-second automatic removal of a banner (script.js:339-341) is left out. A banner stays until the next `showMessage` replaces it.
- `FormData` assembly, the marketing consent and `console.log` (script.js:281-301): their output goes nowhere.
- `event.preventDefault()` (script.js:272): browser navigation is not modelled.
- `form.reset()` clearing the control values (script.js:346): control values are parameters read when each handler runs, so the model does not hold them.
- `showLoadingState` (script.js:310-323): modelled as the `loading` flag only. The button text and the disabled state are left out, so a submission is possible while loading.
- Error elements (script.js:218-240): one annotation per control index. `clearFieldError` removes the first error element under the control's parent, so controls that share a parent can remove each other's message; that is not modelled.
- Time zones and daylight saving: a day is a local calendar date and `now` counts milliseconds since local midnight. Days of 23 or 25 hours are not modelled.
- `new Date(y, m, d)` maps years 0 to 99 to 1900 to 1999, and time values are limited to about 275,000 years around 1970. Neither is modelled. From today's date the first is reached only after about 23,000 presses of "previous month", the second only after about 3.3 million presses.
- Strings are sequences of Unicode scalar values rather than UTF-16 code units. All characters the patterns name lie in the Basic Multilingual Plane, so the checks agree.
- Booking.ITSupportBooking.UpdateCurrentMonth: returns the heading text instead of writing it into the page.
- Booking.ITSupportBooking.SelectDate, Booking.ITSupportBooking.NextMonth, Booking.ITSupportBooking.PrevMonth: model the code as written, not the corrections under Findings.
- One instant `now` stands for both readings of the clock: the one that starts the calendar cursor (script.js:5) and the one `renderCalendar` takes as today (script.js:80). The two can differ only when construction straddles midnight.

## Findings

| source | as written | input that shows it | evidently intended | confidence | as-written member | corrected member |
|---|---|---|---|---|---|---|
| script.js:25-35 | `setMonth(getMonth() ± 1)` on a cursor that keeps the day of the month it was created with | on 31 January 2026, "next month" shows March, not February; on 31 March 2026, "previous month" shows March again | move the calendar to the previous or next month, whatever the day | high, not executed | Dates.NextMonthSkipsFebruary, Dates.PreviousMonthStaysInMarch | Dates.ShiftMonthFromFirstLands, Dates.ShiftMonthFromFirstReturns |
| script.js:121-133 | `selectDate` keeps `selectedTime` and the hidden date-time field | choose Thu 15 Oct 2026, slot 09:00, then Fri 16 Oct 2026: the form validates, and the hidden field still reads "Thu Oct 15 2026 at 09:00" | a new date drops the time chosen for the old one | medium, not executed | BookingModel.SelectDateLeavesStaleDateTime | BookingModel.ClearingKeepsHiddenFieldConsistent |
