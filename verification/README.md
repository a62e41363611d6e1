# Dolcie salon: client-side booking rules in Dafny

This project models the rules the Dolcie salon web application applies in the browser and in its upload middleware, and proves properties of them:

- **Pricing** (`pricing.dfy`) models the customer booking page's price rules:
  - the stylist surcharge, which only a stylist whose name contains "victoria" carries;
  - the adjusted base price;
  - the promotion percentage and fixed promotion price;
  - the deposit and its 3.5% processing fee.
- **BookingWizard** (`wizard.dfy`) models the seven-step booking wizard (Policy, Promos, Service, Time, Details, Payment, Done):
  - the signed-in user's profile copied into the Details form;
  - the per-step guards of Next, and Back;
  - the SMS-consent dialog;
  - payment success;
  - the slot list of the Time step.
- **AdminBookings** (`admin_bookings.dfy`) models the admin bookings page:
  - the balance owed, where the first payment by id is the deposit and is owed on top of the service price;
  - the "Paid in Full" badge;
  - the status actions offered for each status;
  - the day list sorted by booking time.
- **MyBookings** (`my_bookings.dfy`) models the customer's bookings page:
  - bookings listed newest first and split into upcoming and history;
  - the self check-in button and its ±30-minute window.
- **Schedule** (`schedule.dfy`) models the stylist's weekly schedule:
  - the hour rows derived from the business hours, with JavaScript `parseInt` on "HH:MM";
  - the Monday-to-Sunday columns and week navigation;
  - the booking shown in a cell and the shading of past cells.
- **Faqs** (`faqs.dfy`) models moving an FAQ up or down and the id order sent to the server.
- **Categories** (`categories.dfy`) models the category search and the ten-per-page pagination.
- **Upload** (`upload.dfy`) models the image upload filter:
  - `path.extname`;
  - the unanchored `jpeg|jpg|png|webp` tests;
  - the stored file name;
  - the 5,000,000-byte limit.
- **Common**, **Seqs** and **Text** hold shared definitions:
  - money in cents, days and millisecond instants, booking and payment records;
  - find, filter and a stable sort;
  - ASCII lower-casing, substring search and decimal numerals.

**Conventions of the model**
- Money is an integer number of cents.
- `Math.round` is rounding half up on rationals (`Common.RoundHalfUp`).
- An instant is milliseconds since 1 January 1970 in local time, and a day is an integer day number.
- A booking or slot time is a minute of the day.
- Statuses are strings:
  - the customer's page lower-cases them before comparing;
  - the admin page and the schedule compare them exactly.

**Behaviour of the code that a reader might not expect**
- The deposit is the first payment after sorting by id, not the first payment in time.
- Surcharge eligibility is a test on the stylist's name, not a flag.
- The balance owed is clamped at zero.
- A guest who answers "No, thanks" in the SMS-consent dialog returns to the Details step, and pressing Next opens the dialog again. A guest therefore cannot reach Payment without ticking the consent box or answering "Yes" (`BookingWizard.GuestWithoutConsentNeverPays`).

## Model

| member | source | states |
|---|---|---|
| Common.RoundHalfUp | frontend/src/pages/customer/Booking.tsx:102-104 | `Math.round(n/d)`: the result is the integer nearest to n/d, halves rounded up (2dr ≤ 2n+d < 2dr+2d) |
| Common.TruncDiv | frontend/src/pages/customer/MyBookings.tsx:128 | `differenceInMinutes` truncates towards zero: for a ≥ 0, q·b ≤ a < q·b + b; for a < 0, q·b − b < a ≤ q·b ≤ 0 |
| Seqs.FilterIsSubsequence | frontend/src/pages/admin/Categories.tsx:138-140 | `Array.prototype.filter` keeps the kept elements in their original order: the result is a subsequence of the input |
| Seqs.FilterCount | frontend/src/pages/admin/Categories.tsx:138-140 | the filter keeps every satisfying value exactly as often as the input holds it, and no other value |
| Text.ToLower | frontend/src/pages/admin/Categories.tsx:139 | `toLowerCase` keeps the length and lower-cases each character on its own (ASCII letters only) |
| Text.Contains | frontend/src/pages/admin/Categories.tsx:139 | `includes` holds exactly when the pattern occurs at some index of the text |
| Pricing.QuoteFor | frontend/src/pages/customer/Booking.tsx:116-191 | a discounted price exists iff a pricing does; without a pricing the base is 0 and there is no promotion price; at percentage 0 the price is variation price plus surcharge; a percentage or promotion price needs an active promotion for the selected style; a surcharge needs a listed, assigned stylist |
| Pricing.SurchargeFor | frontend/src/pages/customer/Booking.tsx:121-140 | 0 with no stylist, "unassigned", or a name without "victoria" (any case); else the per-style override for the selected style if present, else the base surcharge; unparseable amounts count 0 |
| Pricing.StylistSurcharge | frontend/src/pages/customer/Booking.tsx:116-140 | a non-zero surcharge comes from a listed stylist with the selected id whose lower-cased name contains "victoria"; "unassigned" always gives 0 |
| Pricing.SurchargeNameIgnoresCase | frontend/src/pages/customer/Booking.tsx:125 | two names that lower-case alike get the same surcharge |
| Pricing.OverrideShadowsBase | frontend/src/pages/customer/Booking.tsx:128-135 | with an override for the style, changing the base surcharge changes nothing |
| Pricing.UnparseableSurchargeIsZero | frontend/src/pages/customer/Booking.tsx:137-139 | a missing or NaN base surcharge (and no override) gives surcharge 0 |
| Pricing.SelectedPricing | frontend/src/pages/customer/Booking.tsx:142-146 | a found pricing belongs to a style with the selected id and has the selected variation; when the first such style has that variation, one is found; nothing unless both ids are chosen |
| Pricing.AppliedDiscountPercentage | frontend/src/pages/customer/Booking.tsx:158-164 | a non-zero percentage needs an active promotion whose style equals the selected style; then it is the promotion's percentage (0 if not a number) |
| Pricing.PromoIgnoresVariation | frontend/src/pages/customer/Booking.tsx:158-164 | the promotion's variation never affects whether the percentage applies |
| Pricing.PromoForOtherStyle | frontend/src/pages/customer/Booking.tsx:162 | a promotion for another style gives percentage 0 |
| Pricing.DiscountedPrice | frontend/src/pages/customer/Booking.tsx:166-172 | present iff a pricing is selected; the base itself at percentage 0; otherwise within half a cent of base·(100−p)/100 |
| Pricing.DiscountWithinBase | frontend/src/pages/customer/Booking.tsx:166-172 | for 0 ≤ p ≤ q ≤ 100 the discounted price lies in [0, base], is monotone in the percentage, and is 0 at 100% |
| Pricing.EffectivePromoPrice | frontend/src/pages/customer/Booking.tsx:174-191 | a promotion price exists only with an active promotion for the selected style and a selected pricing |
| Pricing.PromoPriceOutcomes | frontend/src/pages/customer/Booking.tsx:174-191 | the four outcomes: none on no promotion, pricing or style match; the percentage price when the percentage is positive; else fixed price plus surcharge exactly when the fixed price is a positive number |
| Pricing.NoPromoFullPrice | frontend/src/pages/customer/Booking.tsx:148-151 | without a promotion the price shown is the adjusted base price (`AdjustedBasePrice`, the quote's `adjustedBase`), which is the variation price plus the surcharge, and there is no promotion price |
| Pricing.DepositAmount | frontend/src/pages/customer/Booking.tsx:94-98 | a missing, 0, NaN or empty-string setting gives the $50 default; a number is used as is; a non-empty string is what parseFloat reads |
| Pricing.ProcessingFee | frontend/src/pages/customer/Booking.tsx:100-102 | the fee is 3.5% of the deposit to within half a cent, and between 0 and the deposit |
| Pricing.TotalDepositCents | frontend/src/pages/customer/Booking.tsx:103-104 | the charged total is deposit plus fee, NaN exactly when the deposit is NaN, and never below a non-negative deposit |
| Pricing.DefaultCharge | frontend/src/pages/customer/Booking.tsx:94-104 | with no setting, or a setting of 0, 5175 cents are charged |
| Pricing.ZeroStringIsNotDefault | frontend/src/pages/customer/Booking.tsx:94-98 | the string "0" is truthy and yields a zero deposit, while the number 0 falls back to $50 |
| BookingWizard.Initial | frontend/src/pages/customer/Booking.tsx:53-91 | the wizard opens on the Policy step with nothing chosen but today, no dialog and no payment intent; a guest starts with empty details and no consent |
| BookingWizard.SignedInPrefill | frontend/src/pages/customer/Booking.tsx:275-289 | a signed-in user starts with their name, email and phone filled in, consenting unless they declined before, and with a complete profile passes the Details step |
| BookingWizard.GuestStartsWithoutConsent | frontend/src/pages/customer/Booking.tsx:78-84 | from the opening state a guest who never gives consent never gets past the Details step |
| BookingWizard.CanLeave | frontend/src/pages/customer/Booking.tsx:334-395 | only steps 1 to 5 can be left by Next, and the Promos step always can |
| BookingWizard.HandleNext | frontend/src/pages/customer/Booking.tsx:334-395 | at steps 1–5 the step advances by one iff that step's guard holds (policy; none; style and variation; date and time; details filled and signed in or consenting), else it stays; other steps are untouched |
| BookingWizard.PromoPreselects | frontend/src/pages/customer/Booking.tsx:341-354 | leaving Promos with a promotion for a style selects its style and variation and clears the stylist |
| BookingWizard.GuestWithoutConsentStays | frontend/src/pages/customer/Booking.tsx:382-391 | a guest with details filled but no consent stays at Details and the consent dialog opens |
| BookingWizard.HandleBack | frontend/src/pages/customer/Booking.tsx:397-404 | one step back above step 1, none at step 1; leaving Payment drops the payment intent |
| BookingWizard.HandlePaymentSuccess | frontend/src/pages/customer/Booking.tsx:406-423 | Done is reached only when the booking was created with style, date and time present; otherwise nothing changes |
| BookingWizard.Dispatch | frontend/src/pages/customer/Booking.tsx:1337-1397 | while the consent dialog is open only its answers act; the step changes only on Next (by one, when the step's guard holds), Back (by one, from steps 2 to 6), a consent answer, or a successful payment with an intent (to Done); the policy flag changes only at step 1, the time only at the Time step by a date or an available slot |
| BookingWizard.DispatchStep | frontend/src/pages/customer/Booking.tsx:1337-1397 | every event keeps the step in 1..7 and the dialog only at Details; Done is entered only from Payment by a successful payment with style, date and time; at Done with no dialog nothing changes |
| BookingWizard.Run | frontend/src/pages/customer/Booking.tsx:1337-1397 | any sequence of events keeps a valid wizard valid, and changes nothing once the wizard is done |
| BookingWizard.DoneRequiresPayment | frontend/src/pages/customer/Booking.tsx:397-423 | any sequence of events from a valid state stays valid and reaches Done only if it contains a successful payment |
| BookingWizard.DecliningGuestReturnsToDetails | frontend/src/pages/customer/Booking.tsx:1385-1388 | Next opens the consent dialog; "No, thanks" returns to Details; Next reopens the same dialog |
| BookingWizard.GuestWithoutConsentNeverPays | frontend/src/pages/customer/Booking.tsx:382-393 | a guest who never ticks consent nor answers "Yes" never gets beyond the Details step, whatever events follow |
| BookingWizard.VisibleSlots | frontend/src/pages/customer/Booking.tsx:996-1009 | on another day all slots are listed; today, exactly the slots starting strictly after now, each as often as given, in their original order |
| BookingWizard.SlotAtNowHidden | frontend/src/pages/customer/Booking.tsx:1008 | a slot at the current minute is hidden, the next minute's is shown |
| AdminBookings.TotalPaidAppend | frontend/src/pages/admin/Bookings.tsx:129 | a new payment adds its amount to the total paid |
| AdminBookings.TotalPaid | frontend/src/pages/admin/Bookings.tsx:129 | with no negative amount the total paid is never negative and at least every single payment |
| AdminBookings.InitialDeposit | frontend/src/pages/admin/Bookings.tsx:132-133 | 0 without payments; otherwise the amount of the first payment carrying the least id |
| AdminBookings.FirstIsEarliest | frontend/src/pages/admin/Bookings.tsx:132 | the payment the stable sort puts first is the earliest-listed one of least id |
| AdminBookings.RemainingBalance | frontend/src/pages/admin/Bookings.tsx:143 | never negative; equal to price + deposit − total paid when that is positive, else 0 |
| AdminBookings.PaidTowardsService | frontend/src/pages/admin/Bookings.tsx:232 | total paid beyond the deposit, never negative |
| AdminBookings.BalanceLessPaidTowardsService | frontend/src/pages/admin/Bookings.tsx:138-143 | with no negative payment, the balance owed is the service price less what was paid towards the service, never below zero |
| AdminBookings.DepositNotDeducted | frontend/src/pages/admin/Bookings.tsx:121-143 | with no payment, or the deposit alone, the whole service price is still owed |
| AdminBookings.SettlingPaymentClearsBalance | frontend/src/pages/admin/Bookings.tsx:129-161 | paying exactly the proposed balance with an id after the deposit's brings the balance to 0 |
| AdminBookings.DepositScenario | frontend/src/pages/admin/Bookings.tsx:121-143 | $150 service with $50 deposit owes $150; after $150 more it owes 0 |
| AdminBookings.PaidInFullIffNoBalance | frontend/src/pages/admin/Bookings.tsx:770-777 | the badge shows exactly when the dialog's balance is at most one cent |
| AdminBookings.CardChargeCents | frontend/src/pages/admin/Bookings.tsx:173-179 | the card charge is the amount plus 3.5% to within half a cent, never below the amount |
| AdminBookings.OfferedActions | frontend/src/pages/admin/Bookings.tsx:754-829 | Start iff status is booked; Mark Complete iff in_progress; Restore iff cancelled |
| AdminBookings.StatusAfter | frontend/src/pages/admin/Bookings.tsx:754-829 | exactly Start, Mark Complete, Cancel and Restore set a status, and only in_progress, completed, cancelled or booked |
| AdminBookings.StatusTargets | frontend/src/pages/admin/Bookings.tsx:754-829 | the statuses reachable from the page are among those four and never the booking's current status |
| AdminBookings.StatusTargetTable | frontend/src/pages/admin/Bookings.tsx:754-829 | booked → {in_progress, cancelled}; in_progress → {completed, cancelled}; checked_in → {cancelled}; cancelled → {booked}; completed → none |
| AdminBookings.ActionConditions | frontend/src/pages/admin/Bookings.tsx:767-823 | Cancel and Reschedule iff neither cancelled nor completed; Record Payment iff completed and not paid in full; the badge iff completed and paid in full |
| AdminBookings.BookingList | frontend/src/pages/admin/Bookings.tsx:513-522 | exactly the bookings of the selected day (or from today on), each as often as fetched; ascending by booking time for datetime strings; in the fetched order for bare "HH:MM" times |
| AdminBookings.InViewClock | frontend/src/pages/admin/Bookings.tsx:513-519 | with a selected date the clock does not matter; without one, a booking in view today was in view on every earlier day |
| MyBookings.NewestFirst | frontend/src/pages/customer/MyBookings.tsx:93-95 | the same bookings, ordered by date descending |
| MyBookings.HistoryIgnoresCase | frontend/src/pages/customer/MyBookings.tsx:97-103 | whether a booking is history does not depend on the status's letter case |
| MyBookings.UpcomingBookings | frontend/src/pages/customer/MyBookings.tsx:97-99 | every booking not completed or cancelled, each as often as fetched, in newest-first order |
| MyBookings.PastBookings | frontend/src/pages/customer/MyBookings.tsx:101-103 | every completed or cancelled booking, each as often as fetched, in newest-first order |
| MyBookings.ListsPartitionBookings | frontend/src/pages/customer/MyBookings.tsx:97-103 | upcoming and history together hold every booking exactly once |
| MyBookings.ListsDisjoint | frontend/src/pages/customer/MyBookings.tsx:97-103 | no booking is both upcoming and history |
| MyBookings.ListsNewestFirst | frontend/src/pages/customer/MyBookings.tsx:93-103 | both lists keep the newest-first order |
| MyBookings.FilterNewestFirst | frontend/src/pages/customer/MyBookings.tsx:97-103 | filtering a newest-first list keeps it newest first |
| MyBookings.CanCheckIn | frontend/src/pages/customer/MyBookings.tsx:114 | the button is only offered on a booking dated today that is not history |
| MyBookings.NoCheckInAfterwards | frontend/src/pages/customer/MyBookings.tsx:114 | checked-in, in-progress, completed and cancelled bookings never offer Check In |
| MyBookings.CheckInIgnoresCase | frontend/src/pages/customer/MyBookings.tsx:114 | the button does not depend on the status's letter case |
| MyBookings.CheckInClick | frontend/src/pages/customer/MyBookings.tsx:116-139 | for datetime booking times, check-in is requested iff the whole minutes from the appointment lie in [−30, 30]; for bare "HH:MM" times the minute difference is NaN and check-in is requested at any moment |
| MyBookings.CheckInWindow | frontend/src/pages/customer/MyBookings.tsx:119-139 | in milliseconds the window is open iff now is strictly within 31 minutes of the appointment |
| MyBookings.CheckInBoundaries | frontend/src/pages/customer/MyBookings.tsx:128-137 | exactly 30 minutes early or late is allowed; 31 is refused |
| MyBookings.AppointmentInstant | frontend/src/pages/customer/MyBookings.tsx:119-125 | the appointment is a whole minute on the booking's own day |
| MyBookings.MinutesFromAppointment | frontend/src/pages/customer/MyBookings.tsx:128 | zero at the appointment instant, and k exactly k whole minutes later or earlier |
| Schedule.ParseUnsigned | frontend/src/pages/stylist/StylistSchedule.tsx:62-63 | NaN exactly when the first character after the optional 0x prefix is not a digit in the radix; without the prefix the value is the decimal value of the leading digits |
| Schedule.ParseInt | frontend/src/pages/stylist/StylistSchedule.tsx:62-63 | a string of leading decimal digits reads as their value, and a minus sign before them negates it |
| Schedule.HourField | frontend/src/pages/stylist/StylistSchedule.tsx:62-63 | decimal digits up to the colon (or the end) read as the hour they write |
| Schedule.ParseIntDecimal | frontend/src/pages/stylist/StylistSchedule.tsx:62-63 | `parseInt` reads back any decimal numeral followed by anything but a digit or x |
| Schedule.BeforeColonPrefix | frontend/src/pages/stylist/StylistSchedule.tsx:62-63 | `split(':')[0]` of text without a colon, a colon and more gives back that text |
| Schedule.HourFieldOfSetting | frontend/src/pages/stylist/StylistSchedule.tsx:62-63 | the hour field of "h:mm" written in decimal is h |
| Schedule.ZeroNineHour | frontend/src/pages/stylist/StylistSchedule.tsx:62 | "09:00" reads as hour 9 |
| Schedule.MinOpening | frontend/src/pages/stylist/StylistSchedule.tsx:55-66 | `minH` is at most 24 and at most every readable opening hour of an open day |
| Schedule.MaxClosing | frontend/src/pages/stylist/StylistSchedule.tsx:56-66 | `maxH` is at least 0 and at least every readable closing hour of an open day |
| Schedule.MinOpeningIsLeast | frontend/src/pages/stylist/StylistSchedule.tsx:55-66 | `minH` is the least of 24 and every readable opening hour of an open day, attained unless 24 |
| Schedule.MaxClosingIsGreatest | frontend/src/pages/stylist/StylistSchedule.tsx:56-66 | `maxH` is the greatest of 0 and every readable closing hour of an open day, attained unless 0 |
| Schedule.HoursOfFewerDays | frontend/src/pages/stylist/StylistSchedule.tsx:59-67 | days drawn from another set give no earlier first row and no later last row |
| Schedule.HoursIgnoreDayOrder | frontend/src/pages/stylist/StylistSchedule.tsx:59-67 | the order the days are listed in does not change the range |
| Schedule.HourRange | frontend/src/pages/stylist/StylistSchedule.tsx:51-74 | start ≤ end; 10 and 16 without hours or open day; otherwise the least opening hour, and the greatest closing hour − 1 if above it, else the start |
| Schedule.PrefixStep | frontend/src/pages/stylist/StylistSchedule.tsx:59-66 | one more day lowers `minH`, raises `maxH` and sets `hasOpenDays` as the loop body does |
| Schedule.HourRangeCoversOpenDays | frontend/src/pages/stylist/StylistSchedule.tsx:69-73 | no readable opening hour lies before the first row and no readable closing hour after the last row + 1 |
| Schedule.IgnoredDays | frontend/src/pages/stylist/StylistSchedule.tsx:59-66 | a closed day, or an open one with unreadable hours, changes nothing |
| Schedule.HourRows | frontend/src/pages/stylist/StylistSchedule.tsx:76 | end − start + 1 consecutive hours from the start |
| Schedule.HourRowsExact | frontend/src/pages/stylist/StylistSchedule.tsx:76 | an hour is a row iff it lies between the first and last hour |
| Schedule.WeekStart | frontend/src/pages/stylist/StylistSchedule.tsx:47 | the week starts on the Monday on or at most six days before the day |
| Schedule.WeekStartUnique | frontend/src/pages/stylist/StylistSchedule.tsx:47 | that Monday is the only one within the six days before |
| Schedule.WeekDays | frontend/src/pages/stylist/StylistSchedule.tsx:48 | seven consecutive days, Monday to Sunday, containing the day |
| Schedule.SameWeekSameColumns | frontend/src/pages/stylist/StylistSchedule.tsx:47-48 | every day of a week shows the same columns |
| Schedule.WeekNavigation | frontend/src/pages/stylist/StylistSchedule.tsx:78-79 | next and previous week move the columns by exactly seven days |
| Schedule.BookingForCell | frontend/src/pages/stylist/StylistSchedule.tsx:82-100 | the first listed booking of that day and hour not spelled "cancelled"; none iff no booking fills the cell; none at all when booking times are bare "HH:MM" clock times, which parse to invalid dates |
| Schedule.FillsCell | frontend/src/pages/stylist/StylistSchedule.tsx:85-98 | only a booking whose time is a valid datetime fills a cell, and then it starts within that cell's hour |
| Schedule.BookingCell | frontend/src/pages/stylist/StylistSchedule.tsx:93-98 | a booking with a datetime fills exactly the cell of its day and the hour its time falls in |
| Schedule.CancelledHidden | frontend/src/pages/stylist/StylistSchedule.tsx:98 | a "cancelled" booking never shows; one spelled "Cancelled" does |
| Schedule.ClockTimeHidden | frontend/src/pages/stylist/StylistSchedule.tsx:88-90 | a booking that shows in its cell with a datetime shows in no cell when its time is a bare clock time |
| Schedule.IsPastCell | frontend/src/pages/stylist/StylistSchedule.tsx:211 | a cell of hour 0..23 is shaded as past exactly when its whole hour has ended by now |
| Schedule.PastCellsAreEarlier | frontend/src/pages/stylist/StylistSchedule.tsx:211 | every cell earlier than a past cell is past |
| Faqs.Move | frontend/src/pages/admin/Faqs.tsx:152-160 | nothing iff up at the first or down at the last entry; otherwise the entry and its neighbour swap and all else stays |
| Faqs.MoveIsPermutation | frontend/src/pages/admin/Faqs.tsx:156-160 | a move keeps the same entries, each as often |
| Faqs.UpThenDown | frontend/src/pages/admin/Faqs.tsx:152-160 | up at i then down at i−1 restores the list |
| Faqs.DownThenUp | frontend/src/pages/admin/Faqs.tsx:152-160 | down at i then up at i+1 restores the list |
| Faqs.ReorderRequest | frontend/src/pages/admin/Faqs.tsx:152-165 | a request is sent iff the arrow is enabled (lines 252 and 261 disable it at the ends) |
| Faqs.ReorderRequestSwapsIds | frontend/src/pages/admin/Faqs.tsx:156-163 | the ids sent are the page's ids with the two neighbours' swapped |
| Categories.FilterCategories | frontend/src/pages/admin/Categories.tsx:138-140 | exactly the categories whose lower-cased name contains the lower-cased search, each as often as in the input and in the input's order (a subsequence of it) |
| Categories.EmptySearchKeepsAll | frontend/src/pages/admin/Categories.tsx:138-140 | an empty search lists every category in order |
| Categories.SearchIgnoresCase | frontend/src/pages/admin/Categories.tsx:139 | the search term's case does not matter |
| Categories.NameInfixFound | frontend/src/pages/admin/Categories.tsx:138-140 | a name containing the term in any case is found |
| Categories.TotalPages | frontend/src/pages/admin/Categories.tsx:142 | ceil(count / 10): 0 for none, else the least t with count ≤ 10t |
| Categories.PageItems | frontend/src/pages/admin/Categories.tsx:143-146 | a page never holds more than ten items |
| Categories.PageWindow | frontend/src/pages/admin/Categories.tsx:143-146 | page p ≥ 1 is the items from 10(p−1) to 10p, as many as exist |
| Categories.PageSizes | frontend/src/pages/admin/Categories.tsx:142-146 | pages before the last are full, the last is not empty, later ones are empty |
| Categories.FirstPagesArePrefix | frontend/src/pages/admin/Categories.tsx:143-146 | pages 1..k together are the first 10k items |
| Categories.AllPagesShowEverything | frontend/src/pages/admin/Categories.tsx:142-146 | pages 1..totalPages together are exactly the filtered list |
| Categories.PreviousPage | frontend/src/pages/admin/Categories.tsx:254 | one page back, never below 1 |
| Categories.NextPage | frontend/src/pages/admin/Categories.tsx:266 | one page on, never beyond the last |
| Categories.NavigationStaysInRange | frontend/src/pages/admin/Categories.tsx:249-267 | with controls shown both buttons stay in [1, totalPages], are disabled exactly at the ends, and undo each other |
| Categories.SearchChanged | frontend/src/pages/admin/Categories.tsx:63-69 | a new debounced search returns to page 1 |
| Categories.NewSearchShowsFirstMatches | frontend/src/pages/admin/Categories.tsx:63-69 | after a new search the page shows the first ten matches |
| Upload.StripTrailingSlashes | backend/src/middleware/uploadMiddleware.ts:22 | the path without its trailing slashes, a prefix that does not end in a slash |
| Upload.LastIndexOf | backend/src/middleware/uploadMiddleware.ts:22 | the last position of the character, or none when absent |
| Upload.BaseExtension | backend/src/middleware/uploadMiddleware.ts:22 | an extension is empty or starts with a dot |
| Upload.ExtName | backend/src/middleware/uploadMiddleware.ts:31 | `path.extname` of the file name is empty or starts with a dot |
| Upload.ExtNameIsTail | backend/src/middleware/uploadMiddleware.ts:31 | `path.extname` is the tail of the path without trailing slashes, holding no slash and no dot but the leading one |
| Upload.ExtNameOfPlainName | backend/src/middleware/uploadMiddleware.ts:22 | `path.extname` of stem.ext is .ext |
| Upload.DotFileHasNoExtension | backend/src/middleware/uploadMiddleware.ts:22 | `path.extname` of a dot file is empty |
| Upload.CheckFileType | backend/src/middleware/uploadMiddleware.ts:27-40 | accepted iff the lower-cased extension and the MIME type as sent both contain jpeg, jpg, png or webp; otherwise the error "Images Only!" |
| Upload.MatchesImageType | backend/src/middleware/uploadMiddleware.ts:29-33 | the type test passes iff the text contains `jpeg`, `jpg`, `png` or `webp` somewhere, case-sensitively; its contract states that a passing text is at least as long as the shortest of these words, and `Upload.MatchesImageTypeWithin` that the test is unanchored |
| Upload.MatchesImageTypeWithin | backend/src/middleware/uploadMiddleware.ts:29-33 | the type test is unanchored: text around a match still matches |
| Upload.UnanchoredExtensionAccepted | backend/src/middleware/uploadMiddleware.ts:29-31 | a ".jpgx" file with an image MIME type is accepted |
| Upload.UpperCaseExtensionAccepted | backend/src/middleware/uploadMiddleware.ts:31 | a ".JPG" file with an image MIME type is accepted |
| Upload.UpperCaseMimeRejected | backend/src/middleware/uploadMiddleware.ts:33-38 | MIME type "image/JPEG" is rejected whatever the name |
| Upload.DotFileRejected | backend/src/middleware/uploadMiddleware.ts:31-38 | a file named ".png" is rejected |
| Upload.StoredFilename | backend/src/middleware/uploadMiddleware.ts:21-23 | the name is field, dash, timestamp and extension, of the summed length |
| Upload.StoredFilenameTimestamp | backend/src/middleware/uploadMiddleware.ts:21-23 | equal names for the same field and file mean equal timestamps |
| Upload.HandleUpload | backend/src/middleware/uploadMiddleware.ts:43-49 | stored iff the filter accepts and the size is at most 5,000,000 bytes (the limit taken as inclusive), under the stored name; a filter error carries "Images Only!" |
| Upload.SizeLimitBoundary | backend/src/middleware/uploadMiddleware.ts:45 | with the limit taken as inclusive, 5,000,000 bytes are accepted and 5,000,001 are not |

## Left out

- Date parsing and time zones are left out. `parseISO`, `isValid`, `isSameDay`, `startOfDay` and `new Date()` become day numbers and millisecond instants in local time. Consequently the guards against missing booking dates and times (`getBookingForSlot`'s `!b.bookingDate` and `!b.bookingTime` tests) and against invalid booking dates are not modelled. An invalid booking time is modelled only as a bare "HH:MM" time (`Common.ClockTimes`): it shows in no cell of the stylist schedule (`Schedule.BookingForCell`). An invalid date inside the check-in handler raises nothing: its minute difference is NaN, which `MyBookings.CheckInClick` models for bare "HH:MM" times.
- `parseFloat` and `Number` are not modelled character by character. Their results are values of `Common.Numeric` (absent, a number in cents, or NaN). Only `parseInt` on the business-hour strings is modelled in full.
- Floating point is left out: money is exact in cents and its rounding errors are not modelled.
- Pricing.DiscountedPrice: percentages are whole numbers; a fractional percentage is not modelled.
- AdminBookings.PaidInFullIffNoBalance: the `0.01` tolerance in dollars is one cent exactly, without floating-point error.
- AdminBookings.BookingList: datetime strings are taken to share one date, so they sort by the minute of the day; a list mixing datetimes with bare "HH:MM" times, and datetimes on different dates, are not modelled.
- Upload.HandleUpload and Upload.SizeLimitBoundary: the 5,000,000-byte limit is taken as inclusive. The middleware only passes `limits.fileSize` to the upload library; whether a file of exactly that size passes is the library's behaviour, which is not part of this model.
- BookingWizard.Dispatch: the `loading` flag that disables Back and Next while a request runs (Booking.tsx lines 1346 and 1358) is not modelled; both buttons act whenever they are shown. Its events are also wider than the page's: a date before today and any slot, listed or not, can be picked.
- BookingWizard.Initial: the signed-in prefill is applied as the wizard opens. In the page it is an effect that runs after the first render; events before it are not modelled. A missing profile field (`|| ''`) is modelled as the empty string in the profile.
- AdminBookings.InitialDeposit: payment ids are modelled as integers whose order is the order `localeCompare` gives the id strings.
- Lower-casing is ASCII only. White space for `parseInt` covers the ASCII spaces, no-break space and byte-order mark only.
- Network calls and browser services are outside the model:
  - the services (`bookingService`, `faqService`, settings and promotions) and what they return;
  - Stripe payment intents and confirmation (the wizard receives "intent ready" and "payment succeeded" as events);
  - `localStorage` and the auth token (a `Session` parameter);
  - toasts, JSX rendering, animation, zod forms and React Query invalidation.
- The admin actions' server effects are not modelled (status updates, recorded payments, the reschedule dialog's date and time). Only which actions are offered and the status each sets are modelled.
- The signed-in user's consent switch and its confirmation dialog (Booking.tsx lines 1128-1147 and 1399-1424) are not modelled. They update the stored notification preference through the user service.
- The booking request built on payment success is not modelled (which consent it sends for a signed-in user). Only whether the wizard reaches Done is modelled.
- Upload storage is not modelled: the multer disk storage, the upload directory and `fs.mkdirSync`. Of the storage only the file name is modelled, with the clock `Date.now()` as a parameter.
- Server-side slot generation, reservation and status enforcement are not modelled. Available slots arrive as a list of minutes with an availability flag.
- Schedule.HourRange is a method with a loop, as in the page. The fold it computes is also available as the functions `MinOpening` and `MaxClosing`.
