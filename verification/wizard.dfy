/** The seven-step booking wizard of the customer booking page: Policy,
    Promos, Service, Time, Details, Payment, Done. Steps move forward only
    through `HandleNext` (guarded per step) or a confirmed payment, and back
    one at a time. */
module BookingWizard {
  import opened Common
  import opened Seqs
  import Pricing

  /** The contact details collected at the Details step. */
  datatype GuestDetails = GuestDetails(fullName: string, email: string, phone: string, smsConsent: bool)

  /** The signed-in user's profile; `notificationConsent` may be unset. */
  datatype UserProfile = UserProfile(fullName: string, email: string, phone: string, notificationConsent: Option<bool>)

  /** The wizard's state. `date` is a day number, `time` a minute of the day;
      `clientSecret` records whether a payment intent has been obtained. */
  datatype Wizard = Wizard(
    step: int,
    policyAgreed: bool,
    styleId: string,
    categoryId: string,
    stylistId: string,
    date: Option<int>,
    time: Option<int>,
    details: GuestDetails,
    authSmsConsent: bool,
    consentDialogOpen: bool,
    clientSecret: bool)

  /** What the page reads from outside the wizard: whether a token is held,
      the stored current user, and the promotion selected at the Promos step. */
  datatype Session = Session(isLoggedIn: bool, currentUser: Option<UserProfile>, activePromo: Option<Pricing.Promo>)

  const PolicyStep: int := 1
  const PromoStep: int := 2
  const ServiceStep: int := 3
  const TimeStep: int := 4
  const DetailsStep: int := 5
  const PaymentStep: int := 6
  const DoneStep: int := 7

  /** The SMS consent a signed-in user starts with: their stored choice, or
      consent when they have never made one. */
  function DefaultConsent(user: UserProfile): bool {
    if user.notificationConsent.Some? then user.notificationConsent.value else true
  }

  /** The wizard as it opens on day `today`, once the mount effect has copied
      a signed-in user's profile into the Details form. */
  function Initial(today: int, session: Session): (w: Wizard)
    ensures w.step == PolicyStep && !w.policyAgreed && w.time.None? && w.date == Some(today)
    ensures w.styleId == "" && w.categoryId == "" && w.stylistId == ""
    ensures !w.consentDialogOpen && !w.clientSecret
    ensures Valid(w)
    ensures session.isLoggedIn && session.currentUser.Some? ==>
              var user := session.currentUser.value;
              && w.details == GuestDetails(user.fullName, user.email, user.phone, DefaultConsent(user))
              && w.authSmsConsent == DefaultConsent(user)
    ensures !(session.isLoggedIn && session.currentUser.Some?) ==>
              w.details == GuestDetails("", "", "", false) && w.authSmsConsent
  {
    var empty := Wizard(PolicyStep, false, "", "", "", Some(today), None,
                        GuestDetails("", "", "", false), true, false, false);
    if session.isLoggedIn && session.currentUser.Some? then
      var user := session.currentUser.value;
      empty.(details := GuestDetails(user.fullName, user.email, user.phone, DefaultConsent(user)),
             authSmsConsent := DefaultConsent(user))
    else empty
  }

  /** A signed-in user finds their profile in the Details form, consenting
      unless they have declined before; with a complete profile the Details
      step lets them through at once. */
  lemma SignedInPrefill(today: int, session: Session, user: UserProfile)
    requires session.isLoggedIn && session.currentUser == Some(user)
    ensures var w := Initial(today, session);
      && w.details.fullName == user.fullName && w.details.email == user.email && w.details.phone == user.phone
      && (w.details.smsConsent <==> user.notificationConsent != Some(false))
      && w.authSmsConsent == w.details.smsConsent
    ensures user.fullName != "" && user.email != "" && user.phone != "" ==>
              CanLeave(Initial(today, session).(step := DetailsStep), session, DetailsStep)
  {
  }

  /** A guest starts without SMS consent, so only the consent box or the
      dialog's "Yes" lets them pay. */
  lemma GuestStartsWithoutConsent(today: int, session: Session, events: seq<Event>)
    requires !session.isLoggedIn
    requires forall i :: 0 <= i < |events| ==> GivesNoConsent(events[i])
    ensures Run(Initial(today, session), session, events).step <= DetailsStep
  {
    GuestWithoutConsentNeverPays(Initial(today, session), session, events);
  }

  /** The condition under which Next leaves step `s` (steps 1 to 5). */
  predicate CanLeave(w: Wizard, session: Session, s: int)
    ensures CanLeave(w, session, s) ==> PolicyStep <= s <= DetailsStep
    ensures s == PromoStep ==> CanLeave(w, session, s)
  {
    if s == PolicyStep then w.policyAgreed
    else if s == PromoStep then true
    else if s == ServiceStep then w.styleId != "" && w.categoryId != ""
    else if s == TimeStep then w.date.Some? && w.time.Some?
    else if s == DetailsStep then
      && w.details.fullName != "" && w.details.email != "" && w.details.phone != ""
      && (session.isLoggedIn || w.details.smsConsent)
    else false
  }

  /** `handleNext`. */
  function HandleNext(w: Wizard, session: Session): (w': Wizard)
    ensures 1 <= w.step <= 5 ==> (w'.step == w.step + 1 <==> CanLeave(w, session, w.step))
    ensures 1 <= w.step <= 5 && !CanLeave(w, session, w.step) ==> w'.step == w.step
    ensures !(1 <= w.step <= 5) ==> w' == w
  {
    if w.step == PolicyStep then
      if !w.policyAgreed then w else w.(step := PromoStep)
    else if w.step == PromoStep then
      var promo := session.activePromo;
      var w1 := if promo.Some? && promo.value.styleId != "" then
                  w.(styleId := promo.value.styleId, categoryId := promo.value.categoryId, stylistId := "")
                else w;
      w1.(step := ServiceStep)
    else if w.step == ServiceStep then
      if w.styleId == "" || w.categoryId == "" then w else w.(step := TimeStep)
    else if w.step == TimeStep then
      if w.date.None? || w.time.None? then w
      else
        var w1 := if session.isLoggedIn && session.currentUser.Some? then
                    var user := session.currentUser.value;
                    var consent := DefaultConsent(user);
                    w.(details := GuestDetails(user.fullName, user.email, user.phone, consent), authSmsConsent := consent)
                  else w;
        w1.(step := DetailsStep)
    else if w.step == DetailsStep then
      if w.details.fullName == "" || w.details.email == "" || w.details.phone == "" then w
      else if !session.isLoggedIn && !w.details.smsConsent then w.(consentDialogOpen := true)
      else w.(step := PaymentStep)
    else w
  }

  /** Leaving the Promos step with a promotion of a known style preselects
      that style and the promotion's variation and clears the stylist. */
  lemma PromoPreselects(w: Wizard, session: Session)
    requires w.step == PromoStep
    requires session.activePromo.Some? && session.activePromo.value.styleId != ""
    ensures HandleNext(w, session).styleId == session.activePromo.value.styleId
    ensures HandleNext(w, session).categoryId == session.activePromo.value.categoryId
    ensures HandleNext(w, session).stylistId == ""
  {
  }

  /** A guest who has not given SMS consent is shown the consent dialog and
      stays at the Details step. */
  lemma GuestWithoutConsentStays(w: Wizard, session: Session)
    requires w.step == DetailsStep && !session.isLoggedIn && !w.details.smsConsent
    requires w.details.fullName != "" && w.details.email != "" && w.details.phone != ""
    ensures HandleNext(w, session).step == DetailsStep
    ensures HandleNext(w, session).consentDialogOpen
  {
  }

  /** `handleBack`: one step back, never below the first; leaving the Payment
      step discards the payment intent. */
  function HandleBack(w: Wizard): (w': Wizard)
    ensures w.step > 1 ==> w'.step == w.step - 1
    ensures w.step <= 1 ==> w'.step == w.step
    ensures w.step == PaymentStep ==> !w'.clientSecret
  {
    var w1 := if w.step == PaymentStep then w.(clientSecret := false) else w;
    if w1.step > 1 then w1.(step := w1.step - 1) else w1
  }

  /** `handlePaymentSuccess`: once the booking has been created the wizard is
      done; without a style, date and time, or when creating the booking
      fails, nothing changes. */
  function HandlePaymentSuccess(w: Wizard, bookingCreated: bool): (w': Wizard)
    ensures w'.step == DoneStep && w.step != DoneStep ==>
              bookingCreated && w.styleId != "" && w.date.Some? && w.time.Some?
    ensures w' == w || w' == w.(step := DoneStep)
  {
    if w.styleId == "" || w.date.None? || w.time.None? then w
    else if bookingCreated then w.(step := DoneStep)
    else w
  }

  /** What the customer can do on the page. */
  datatype Event =
    | AgreePolicy(agreed: bool)
    | SelectService(styleId: string, categoryId: string, stylistId: string)
    | PickDate(day: int)
    | PickSlot(day: int, minute: int, available: bool)
    | EditDetails(details: GuestDetails)
    | Next
    | Back
    | ConsentAnswer(yes: bool)
    | DismissConsent
    | PaymentIntentReady
    | PaymentSucceeded(bookingCreated: bool)

  /** One event applied to the wizard. Each control exists only on the step
      that renders it: the Next button below step 6, the Back button on steps
      2 to 6, the payment form on step 6 once a payment intent exists, and a
      slot button only when the slot is available. While the consent dialog
      is open it is modal: only its answers and dismissing it have effect.
      The events are wider than what the page can send: `PickDate` accepts
      days before today, which the calendar disables, and `PickSlot` takes
      any day and minute, whereas the page only offers the slots
      `VisibleSlots` lists for the selected date. */
  function Dispatch(w: Wizard, session: Session, e: Event): (r: Wizard)
    ensures w.consentDialogOpen && !e.ConsentAnswer? && !e.DismissConsent? ==> r == w
    ensures r.step != w.step ==> e.Next? || e.Back? || e.ConsentAnswer? || e.PaymentSucceeded?
    ensures e.Next? && r.step != w.step ==> w.step < PaymentStep && CanLeave(w, session, w.step) && r.step == w.step + 1
    ensures e.Back? && r.step != w.step ==> PromoStep <= w.step <= PaymentStep && r.step == w.step - 1
    ensures e.PaymentSucceeded? && r.step != w.step ==>
              w.step == PaymentStep && w.clientSecret && e.bookingCreated && r.step == DoneStep
    ensures r.policyAgreed != w.policyAgreed ==> e.AgreePolicy? && w.step == PolicyStep
    ensures r.time != w.time ==> w.step == TimeStep && (e.PickDate? || (e.PickSlot? && e.available))
  {
    if w.consentDialogOpen && !e.ConsentAnswer? && !e.DismissConsent? then w
    else
    match e
    case AgreePolicy(a) => if w.step == PolicyStep then w.(policyAgreed := a) else w
    case SelectService(s, c, st) =>
      if w.step == ServiceStep then w.(styleId := s, categoryId := c, stylistId := st) else w
    case PickDate(d) => if w.step == TimeStep then w.(date := Some(d), time := None) else w
    case PickSlot(d, m, available) =>
      if w.step == TimeStep && available then w.(date := Some(d), time := Some(m)) else w
    case EditDetails(dt) => if w.step == DetailsStep then w.(details := dt) else w
    case Next => if w.step < PaymentStep then HandleNext(w, session) else w
    case Back => if w.step < DoneStep && w.step != PolicyStep then HandleBack(w) else w
    case ConsentAnswer(yes) =>
      if !w.consentDialogOpen then w
      else
        var w1 := if yes then w.(details := w.details.(smsConsent := true)) else w;
        w1.(consentDialogOpen := false, step := DetailsStep)
    case DismissConsent => w.(consentDialogOpen := false)
    case PaymentIntentReady =>
      if w.step == PaymentStep && !w.clientSecret then w.(clientSecret := true) else w
    case PaymentSucceeded(created) =>
      if w.step == PaymentStep && w.clientSecret then HandlePaymentSuccess(w, created) else w
  }

  /** The consent dialog is only ever open at the Details step. */
  ghost predicate Valid(w: Wizard) {
    && PolicyStep <= w.step <= DoneStep
    && (w.consentDialogOpen ==> w.step == DetailsStep)
  }

  /** Every event keeps the wizard within its seven steps; the Done step is
      entered only from the Payment step, by a payment whose booking was
      created with a style, date and time, and is never left. */
  lemma DispatchStep(w: Wizard, session: Session, e: Event)
    ensures Valid(w) ==> Valid(Dispatch(w, session, e))
    ensures w.step != DoneStep && Dispatch(w, session, e).step == DoneStep ==>
              && e.PaymentSucceeded? && e.bookingCreated && w.step == PaymentStep
              && w.styleId != "" && w.date.Some? && w.time.Some?
    ensures w.step == DoneStep && !w.consentDialogOpen ==> Dispatch(w, session, e) == w
  {
  }

  /** Applies events in order. Validity is kept throughout, and once the
      wizard is done no further event changes anything. */
  function Run(w: Wizard, session: Session, events: seq<Event>): (r: Wizard)
    ensures Valid(w) ==> Valid(r)
    ensures w.step == DoneStep && !w.consentDialogOpen ==> r == w
    decreases |events|
  {
    if |events| == 0 then w
    else
      DispatchStep(w, session, events[0]);
      Run(Dispatch(w, session, events[0]), session, events[1..])
  }

  /** A run from a state short of Done reaches Done only if one of its events
      is a payment whose booking was created. */
  lemma {:induction false} DoneRequiresPayment(w: Wizard, session: Session, events: seq<Event>)
    requires Valid(w)
    ensures Valid(Run(w, session, events))
    ensures w.step != DoneStep && Run(w, session, events).step == DoneStep ==>
              exists i :: 0 <= i < |events| && events[i] == PaymentSucceeded(true)
    decreases |events|
  {
    if |events| > 0 {
      var w1 := Dispatch(w, session, events[0]);
      DispatchStep(w, session, events[0]);
      DoneRequiresPayment(w1, session, events[1..]);
      if w.step != DoneStep && Run(w, session, events).step == DoneStep {
        if w1.step == DoneStep {
          assert events[0] == PaymentSucceeded(true);
        } else {
          var i :| 0 <= i < |events| - 1 && events[1..][i] == PaymentSucceeded(true);
          assert events[i + 1] == PaymentSucceeded(true);
        }
      }
    }
  }

  /** An event that does not give SMS consent: neither the Details form with
      the consent box ticked nor "Yes" in the consent dialog. */
  predicate GivesNoConsent(e: Event) {
    && !(e.EditDetails? && e.details.smsConsent)
    && e != ConsentAnswer(true)
  }

  /** "No, thanks" in the consent dialog returns the guest to the Details
      step, and pressing Next there opens the dialog again. */
  lemma DecliningGuestReturnsToDetails(w: Wizard, session: Session)
    requires w.step == DetailsStep && !session.isLoggedIn && !w.details.smsConsent
    requires w.details.fullName != "" && w.details.email != "" && w.details.phone != ""
    requires !w.consentDialogOpen
    ensures Dispatch(w, session, Next).consentDialogOpen
    ensures Dispatch(Dispatch(w, session, Next), session, ConsentAnswer(false)).step == DetailsStep
    ensures Dispatch(Dispatch(Dispatch(w, session, Next), session, ConsentAnswer(false)), session, Next)
            == Dispatch(w, session, Next)
  {
  }

  /** A guest who never gives SMS consent never gets past the Details step,
      whatever else they do: the Payment step requires consent from anyone
      not signed in. */
  lemma {:induction false} GuestWithoutConsentNeverPays(w: Wizard, session: Session, events: seq<Event>)
    requires !session.isLoggedIn
    requires w.step <= DetailsStep && !w.details.smsConsent
    requires forall i :: 0 <= i < |events| ==> GivesNoConsent(events[i])
    ensures Run(w, session, events).step <= DetailsStep
    ensures !Run(w, session, events).details.smsConsent
    decreases |events|
  {
    if |events| > 0 {
      var w1 := Dispatch(w, session, events[0]);
      assert w1.step <= DetailsStep && !w1.details.smsConsent;
      assert forall i :: 0 <= i < |events| - 1 ==> events[1..][i] == events[i + 1];
      GuestWithoutConsentNeverPays(w1, session, events[1..]);
    }
  }

  /** A slot offered at the Time step: its minute of the day and whether it
      can still be booked. */
  datatype Slot = Slot(minute: int, available: bool)

  /** The slots listed for `day` when the clock reads `now`: on the current
      day only those starting strictly after `now`, in their original order;
      on any other day all of them. Unavailable slots stay listed (their
      button is disabled). */
  function VisibleSlots(slots: seq<Slot>, day: int, now: int): (r: seq<Slot>)
    ensures DayOf(now) != day ==> r == slots
    ensures DayOf(now) == day ==> forall i :: 0 <= i < |r| ==> InstantAt(day, r[i].minute) > now
    ensures DayOf(now) == day ==> forall i :: 0 <= i < |slots| && InstantAt(day, slots[i].minute) > now ==> slots[i] in r
    ensures forall i :: 0 <= i < |r| ==> r[i] in slots
    ensures IsSubsequence(r, slots)
    ensures DayOf(now) == day ==> forall i :: 0 <= i < |slots| ==>
              multiset(r)[slots[i]] == if InstantAt(day, slots[i].minute) > now then multiset(slots)[slots[i]] else 0
  {
    if DayOf(now) != day then
      SubsequenceOfItself(slots);
      slots
    else
      var future := (s: Slot) => InstantAt(day, s.minute) > now;
      FilterIsSubsequence(slots, future);
      FilterCount(slots, future);
      Filter(slots, future)
  }

  /** A slot at exactly the current minute is no longer offered; one a minute
      later is. */
  lemma SlotAtNowHidden(s: Slot, day: int, minute: int)
    requires 0 <= minute < MinutesPerDay - 1
    ensures VisibleSlots([s.(minute := minute)], day, InstantAt(day, minute)) == []
    ensures VisibleSlots([s.(minute := minute + 1)], day, InstantAt(day, minute)) == [s.(minute := minute + 1)]
  {
    InstantAtDay(day, minute);
  }
}
