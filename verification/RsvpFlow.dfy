/**
 * The RSVP section of the page: the selected invitation (`currentInvitation`),
 * the form controls it fills in, and the handlers that move between the
 * lookup step, the form step and the confirmation.
 */
module RsvpFlow {
  import opened Wrappers
  import opened JsStrings
  import opened Invitations
  import opened GuestForm
  import opened RsvpStore

  /** What `lookup_invitation` answered: an error (or a thrown exception, or no data), or its rows. */
  datatype LookupResponse = LookupFailed | LookupRows(rows: seq<Invitation>)

  /** Why a submission is stopped before anything is sent, in the order the checks run. */
  datatype Rejection = NoInvitation | UnansweredGuest | NoAccommodation | NoEmail

  function RejectionAlert(r: Rejection): string {
    match r
    case NoInvitation => "Please select an invitation first."
    case UnansweredGuest => "Please indicate attendance for all guests in your party."
    case NoAccommodation => "Please select your accommodation preference."
    case NoEmail => "Please enter your email address."
  }

  const RetryAlert := "There was an error submitting your RSVP. Please try again."

  function WriteAlert(outcome: RpcOutcome): string {
    match outcome
    case RpcRejected(error) => "There was an error submitting your RSVP: " + error
    case _ => RetryAlert
  }

  /** How a submission ended: stopped by a check, refused by the backend, or confirmed. */
  datatype SubmitResult = Rejected(reason: Rejection, alert: string) | WriteFailed(alert: string) | Confirmed(message: string)

  /** The first failing check of `submitRSVP`, if any, for the given form state. */
  function FirstProblem(invitation: Option<Invitation>, cards: seq<GuestCard>,
                        castleStay: Option<string>, email: string): Option<Rejection>
  {
    if invitation.None? then Some(NoInvitation)
    else if !AllAnswered(cards) then Some(UnansweredGuest)
    else if AnyAttending(cards) && castleStay.None? then Some(NoAccommodation)
    else if email == "" then Some(NoEmail)
    else None
  }

  /** The line under the welcome heading; the party size is printed as JavaScript prints a number. */
  function PartyInfo(partySize: int): string {
    PartyOf + (if partySize >= 0 then NatToString(partySize) else "-" + NatToString(-partySize)) + IsInvited
  }

  const Welcome := "Welcome, "
  const PartyOf := "Your party of "
  const IsInvited := " is invited to celebrate with us."

  /** The invitation a lookup of `code` selects: live, the first row the lookup procedure
      returns; in demo mode, the demo invitation with the upper-cased code. */
  function Lookup(live: bool, code: string, response: LookupResponse): Option<Invitation> {
    if live then (if response.LookupRows? && |response.rows| > 0 then Some(response.rows[0]) else None)
    else FindDemo(code)
  }

  /** The email field after selecting `inv`: its address when it has one, else what was typed. */
  function Prefill(inv: Invitation, typed: string): string {
    if Truthy(inv.email) then inv.email.value else typed
  }

  /** Fresh cards for `names`: one per name, in order, unanswered, with its display name. */
  predicate FreshCards(cards: seq<GuestCard>, names: seq<string>) {
    CardsFor(cards, names)
    && forall i :: 0 <= i < |cards| ==> cards[i].choice == None && cards[i].displayName == DisplayName(names[i])
  }

  /** The values of the form's inputs other than the code and the guest cards. */
  datatype InputValues = InputValues(email: string, dietary: string, message: string, castleStay: Option<string>)

  /** The text and the visibility of the parts of the RSVP section. */
  datatype View = View(
    partyHeading: string,
    partyInfo: string,
    successMessage: string,
    lookupErrorVisible: bool,
    lookupVisible: bool,
    formVisible: bool,
    successVisible: bool)

  class RsvpSession {
    /** Whether a database client is configured; demo mode otherwise. */
    const live: bool

    var currentInvitation: Option<Invitation>
    // form controls
    var codeInput: string
    var cards: seq<GuestCard>
    var email: string
    var dietary: string
    var message: string
    var castleStay: Option<string>
    // page text and visibility
    var partyHeading: string
    var partyInfo: string
    var successMessage: string
    var lookupErrorVisible: bool
    var lookupVisible: bool
    var formVisible: bool
    var successVisible: bool

    /** The cards on the page belong to the selected invitation, and the form is only
        shown with an invitation selected. */
    ghost predicate Valid()
      reads this
    {
      && (currentInvitation.Some? ==> CardsFor(cards, currentInvitation.value.guestNames))
      && (formVisible ==> currentInvitation.Some?)
    }

    ghost function Inputs(): InputValues
      reads this
    {
      InputValues(email, dietary, message, castleStay)
    }

    ghost function Shown(): View
      reads this
    {
      View(partyHeading, partyInfo, successMessage, lookupErrorVisible, lookupVisible, formVisible, successVisible)
    }

    /** What a lookup of `code` did to the page: the found invitation is selected (heading,
        email prefill, fresh cards, the form replacing the lookup step, the error hidden); when
        nothing is found only the error is shown. The code field is not covered. */
    twostate predicate LookedUp(code: string, response: LookupResponse)
      reads this
    {
      var found := Lookup(live, code, response);
      if found.Some? then
        var inv := found.value;
        && currentInvitation == found && FreshCards(cards, inv.guestNames)
        && Inputs() == old(Inputs()).(email := Prefill(inv, old(email)))
        && Shown() == old(Shown()).(partyHeading := Welcome + inv.partyName + "!", partyInfo := PartyInfo(inv.partySize),
                                    lookupErrorVisible := false, lookupVisible := false, formVisible := true)
      else
        && currentInvitation == old(currentInvitation) && cards == old(cards)
        && Inputs() == old(Inputs())
        && Shown() == old(Shown()).(lookupErrorVisible := true)
    }

    constructor (live: bool)
      ensures Valid() && this.live == live
      ensures currentInvitation == None && cards == []
      ensures lookupVisible && !formVisible && !successVisible && !lookupErrorVisible
    {
      this.live := live;
      currentInvitation := None;
      codeInput, cards, email, dietary, message, castleStay := "", [], "", "", "", None;
      partyHeading, partyInfo, successMessage := "", "", "";
      lookupErrorVisible, lookupVisible, formVisible, successVisible := false, true, false, false;
    }

    ghost function Problem(): Option<Rejection>
      reads this
    {
      FirstProblem(currentInvitation, cards, castleStay, email)
    }

    /** The row `submitRSVP` writes for the selected invitation. */
    ghost function PendingRecord(): RsvpRecord
      reads this
      requires currentInvitation.Some?
    {
      RsvpRecord(currentInvitation.value.id, AnsweredResponses(cards), dietary,
                 if castleStay.Some? then castleStay.value else "", email, message)
    }

    /** `selectInvitation`: remember the invitation, fill the header, pre-fill the email
        when the invitation has one, build fresh guest cards, and show the form. */
    method SelectInvitation(inv: Invitation)
      modifies this
      ensures Valid()
      ensures currentInvitation == Some(inv) && FreshCards(cards, inv.guestNames)
      ensures Inputs() == old(Inputs()).(email := Prefill(inv, old(email)))
      ensures codeInput == old(codeInput)
      ensures Shown() == old(Shown()).(partyHeading := Welcome + inv.partyName + "!", partyInfo := PartyInfo(inv.partySize),
                                       lookupVisible := false, formVisible := true)
    {
      ghost var before, shown := Inputs(), Shown();
      var built := BuildGuestList(inv.guestNames);
      assert FreshCards(built, inv.guestNames);
      currentInvitation := Some(inv);
      partyHeading := Welcome + inv.partyName + "!";
      partyInfo := PartyInfo(inv.partySize);
      email := Prefill(inv, email);
      cards := built;
      lookupVisible, formVisible := false, true;
      assert Inputs() == before.(email := email);
      assert Shown() == shown.(partyHeading := partyHeading, partyInfo := partyInfo, lookupVisible := false, formVisible := true);
    }

    /** `resetToLookup`: forget the selection, show the lookup step alone, clear the inputs.
        The cards stay on the page, with their radios cleared by the form reset. */
    method ResetToLookup()
      requires Valid()
      modifies this
      ensures Valid()
      ensures currentInvitation == None
      ensures codeInput == "" && Inputs() == InputValues("", "", "", None)
      ensures Shown() == old(Shown()).(lookupErrorVisible := false, lookupVisible := true,
                                       formVisible := false, successVisible := false)
      ensures |cards| == |old(cards)|
      ensures forall i :: 0 <= i < |cards| ==> cards[i] == old(cards[i]).(choice := None)
    {
      ghost var shown := Shown();
      currentInvitation := None;
      formVisible, successVisible, lookupVisible := false, false, true;
      codeInput := "";
      email, dietary, message, castleStay := "", "", "", None;
      var shownCards := cards;
      cards := seq(|shownCards|, i requires 0 <= i < |shownCards| => shownCards[i].(choice := None));
      lookupErrorVisible := false;
      assert Shown() == shown.(lookupErrorVisible := false, lookupVisible := true, formVisible := false, successVisible := false);
    }

    /** `lookupByCode`: hide the error, then select the invitation the backend (or, in demo
        mode, the demo table) returns for the upper-cased code, or show the error. */
    method LookupByCode(code: string, response: LookupResponse)
      requires Valid()
      modifies this
      ensures Valid()
      ensures LookedUp(code, response)
      ensures codeInput == old(codeInput)
    {
      lookupErrorVisible := false;
      if live {
        if response.LookupFailed? || |response.rows| == 0 {
          lookupErrorVisible := true;
          return;
        }
        SelectInvitation(response.rows[0]);
      } else {
        var found := FindByCode(DemoInvitations(), Upper(code));
        if found.Some? {
          SelectInvitation(found.value);
        } else {
          lookupErrorVisible := true;
        }
      }
    }

    /** The guest types `text` into the code field. */
    method EnterCode(text: string)
      requires Valid()
      modifies this
      ensures Valid()
      ensures codeInput == text
      ensures currentInvitation == old(currentInvitation) && cards == old(cards)
      ensures Inputs() == old(Inputs()) && Shown() == old(Shown())
    {
      codeInput := text;
    }

    /** The code form's submit handler: trim and upper-case the code field, and look it up
        unless nothing is left. */
    method SubmitCodeForm(response: LookupResponse)
      requires Valid()
      modifies this
      ensures Valid()
      ensures Upper(Trim(old(codeInput))) == "" ==> unchanged(this)
      ensures Upper(Trim(old(codeInput))) != "" ==> LookedUp(Upper(Trim(old(codeInput))), response)
      ensures codeInput == old(codeInput)
    {
      var code := Upper(Trim(codeInput));
      if code != "" {
        LookupByCode(code, response);
      }
    }

    /** A `code` query parameter fills the code field (upper-cased) and triggers a lookup
        with the parameter as given. */
    method CheckUrlForCode(param: Option<string>, response: LookupResponse)
      requires Valid()
      modifies this
      ensures Valid()
      ensures !Truthy(param) ==> unchanged(this)
      ensures Truthy(param) ==> codeInput == Upper(param.value) && LookedUp(param.value, response)
    {
      if Truthy(param) {
        codeInput := Upper(param.value);
        LookupByCode(param.value, response);
      }
    }

    /** The guest ticks one of the two radios of card `i`. */
    method ChooseAttendance(i: nat, attending: bool)
      requires Valid() && i < |cards|
      modifies this
      ensures Valid()
      ensures cards == old(cards)[i := old(cards)[i].(choice := Some(if attending then "yes" else "no"))]
      ensures currentInvitation == old(currentInvitation) && codeInput == old(codeInput)
      ensures Inputs() == old(Inputs()) && Shown() == old(Shown())
    {
      cards := cards[i := cards[i].(choice := Some(if attending then "yes" else "no"))];
    }

    /** The guest fills the remaining inputs of the form. */
    method FillDetails(newEmail: string, newDietary: string, newMessage: string, newCastleStay: Option<string>)
      requires Valid()
      modifies this
      ensures Valid()
      ensures Inputs() == InputValues(newEmail, newDietary, newMessage, newCastleStay)
      ensures cards == old(cards) && currentInvitation == old(currentInvitation) && codeInput == old(codeInput)
      ensures Shown() == old(Shown())
    {
      email, dietary, message, castleStay := newEmail, newDietary, newMessage, newCastleStay;
    }

    /** `submitRSVP`. The four checks run in order and stop the submission before the store is
        touched. In live mode the store is read and then updated or inserted into; only a
        successful write shows the confirmation. Demo mode confirms without writing.
        `readFails` says whether the read of the invitation's row failed. */
    method SubmitRsvp(store: Store, readFails: bool, outcome: RpcOutcome) returns (result: SubmitResult)
      requires Valid()
      modifies this, store
      ensures Valid()
      ensures old(store.Valid()) && !readFails ==> store.Valid()
      ensures old(Problem()).Some? ==>
                result == Rejected(old(Problem()).value, RejectionAlert(old(Problem()).value)) && store.rows == old(store.rows) && unchanged(this)
      ensures old(Problem()).None? ==>
                var rec := old(PendingRecord());
                && AlignedWith(rec.guestResponses, old(cards))
                && (live && !outcome.RpcOk? ==>
                      result == WriteFailed(WriteAlert(outcome)) && store.rows == old(store.rows) && unchanged(this))
                && (!live || outcome.RpcOk? ==>
                      && result == Confirmed(ConfirmationMessage(CountAttending(rec.guestResponses), |rec.guestResponses|))
                      && store.rows == (if live then Written(old(store.rows), rec, readFails) else old(store.rows))
                      && currentInvitation == old(currentInvitation) && cards == old(cards)
                      && codeInput == old(codeInput) && Inputs() == old(Inputs())
                      && Shown() == old(Shown()).(successMessage := result.message, formVisible := false, successVisible := true))
    {
      if currentInvitation.None? {
        return Rejected(NoInvitation, RejectionAlert(NoInvitation));
      }
      var guestResponses, allAnswered, anyAttending := CollectResponses(cards);
      if !allAnswered {
        return Rejected(UnansweredGuest, RejectionAlert(UnansweredGuest));
      }
      if anyAttending && castleStay.None? {
        return Rejected(NoAccommodation, RejectionAlert(NoAccommodation));
      }
      if email == "" {
        return Rejected(NoEmail, RejectionAlert(NoEmail));
      }
      AnsweredResponsesAligned(cards);
      var rec := RsvpRecord(currentInvitation.value.id, guestResponses, dietary,
                            if castleStay.Some? then castleStay.value else "", email, message);
      if live {
        store.Save(rec, readFails, outcome);
        if !outcome.RpcOk? {
          return WriteFailed(WriteAlert(outcome));
        }
      }
      AnyAttendingIffCount(cards);
      ShowSuccess(guestResponses, anyAttending);
      result := Confirmed(successMessage);
    }

    /** `showSuccess`: the confirmation text for the collected responses replaces the form. */
    method ShowSuccess(responses: seq<GuestResponse>, anyAttending: bool)
      requires Valid()
      requires anyAttending <==> CountAttending(responses) > 0
      modifies this
      ensures Valid()
      ensures Shown() == old(Shown()).(successMessage := ConfirmationMessage(CountAttending(responses), |responses|),
                                       formVisible := false, successVisible := true)
      ensures currentInvitation == old(currentInvitation) && cards == old(cards)
      ensures codeInput == old(codeInput) && Inputs() == old(Inputs())
    {
      var text := SuccessMessage(responses, anyAttending);
      SuccessMessageByCounts(responses, anyAttending);
      successMessage := text;
      formVisible, successVisible := false, true;
    }
  }
}
