/**
 * The per-guest part of the RSVP form: one card per invited name, the
 * responses collected from the cards when the form is submitted, and the
 * confirmation message shown once the RSVP is stored.
 */
module GuestForm {
  import opened Wrappers
  import opened JsStrings

  /** A guest card: the original name, its position, the name shown, and the
      value of its checked attendance radio (`"yes"` or `"no"`), if any. */
  datatype GuestCard = GuestCard(name: string, index: nat, displayName: string, choice: Option<string>)

  /** What is stored for one guest. */
  datatype GuestResponse = GuestResponse(name: string, attending: bool)

  const YourGuest := "Your Guest"

  /** A name that stands for an unnamed plus-one. */
  predicate IsPlaceholder(name: string) {
    Lower(name) == "guest"
  }

  function DisplayName(name: string): string {
    if IsPlaceholder(name) then YourGuest else name
  }

  /** `cards` carry `names` in order, each with its own position, whatever their display names. */
  predicate CardsFor(cards: seq<GuestCard>, names: seq<string>) {
    |cards| == |names| && forall i :: 0 <= i < |cards| ==> cards[i].name == names[i] && cards[i].index == i
  }

  /** `buildGuestList`: one unanswered card per name, in input order. */
  method BuildGuestList(names: seq<string>) returns (cards: seq<GuestCard>)
    ensures CardsFor(cards, names)
    ensures forall i :: 0 <= i < |cards| ==> cards[i].choice == None
    ensures forall i :: 0 <= i < |cards| ==>
              (cards[i].displayName == YourGuest <== IsPlaceholder(names[i]))
              && (!IsPlaceholder(names[i]) ==> cards[i].displayName == names[i])
  {
    cards := [];
    for i := 0 to |names|
      invariant CardsFor(cards, names[..i])
      invariant forall j :: 0 <= j < i ==> cards[j].choice == None && cards[j].displayName == DisplayName(names[j])
    {
      var isGuest := Lower(names[i]) == "guest";
      var displayName := if isGuest then YourGuest else names[i];
      cards := cards + [GuestCard(names[i], i, displayName, None)];
    }
  }

  // ------------------------------------------------------------ collecting responses

  function ResponseOf(card: GuestCard): GuestResponse {
    GuestResponse(card.name, card.choice == Some("yes"))
  }

  /** The responses of the answered cards, in card order. */
  function AnsweredResponses(cards: seq<GuestCard>): seq<GuestResponse> {
    if cards == [] then []
    else
      var last := cards[|cards| - 1];
      AnsweredResponses(cards[..|cards| - 1]) + (if last.choice.Some? then [ResponseOf(last)] else [])
  }

  predicate AllAnswered(cards: seq<GuestCard>) {
    forall i :: 0 <= i < |cards| ==> cards[i].choice.Some?
  }

  predicate AnyAttending(cards: seq<GuestCard>) {
    exists i :: 0 <= i < |cards| && cards[i].choice == Some("yes")
  }

  /** The `forEach` over the cards in `submitRSVP`: the responses of the answered cards,
      whether every card is answered, and whether any guest attends. */
  method CollectResponses(cards: seq<GuestCard>) returns (responses: seq<GuestResponse>, allAnswered: bool, anyAttending: bool)
    ensures responses == AnsweredResponses(cards)
    ensures allAnswered <==> AllAnswered(cards)
    ensures anyAttending <==> AnyAttending(cards)
  {
    responses, allAnswered, anyAttending := [], true, false;
    for i := 0 to |cards|
      invariant responses == AnsweredResponses(cards[..i])
      invariant allAnswered <==> AllAnswered(cards[..i])
      invariant anyAttending <==> AnyAttending(cards[..i])
    {
      assert cards[..i + 1][..i] == cards[..i];
      var card := cards[i];
      if card.choice.None? {
        allAnswered := false;
        continue;
      }
      var attending := card.choice.value == "yes";
      if attending {
        anyAttending := true;
      }
      responses := responses + [GuestResponse(card.name, attending)];
    }
    assert cards[..|cards|] == cards;
  }

  /** One response per card, in card order, carrying the card's original name;
      `attending` is set exactly by a `"yes"`. */
  predicate AlignedWith(responses: seq<GuestResponse>, cards: seq<GuestCard>) {
    |responses| == |cards|
    && forall i :: 0 <= i < |cards| ==>
         responses[i].name == cards[i].name && (responses[i].attending <==> cards[i].choice == Some("yes"))
  }

  /** With every card answered there is exactly one response per card, in card order,
      carrying the card's original name; `attending` is set exactly by a `"yes"`. */
  lemma {:induction false} AnsweredResponsesAligned(cards: seq<GuestCard>)
    requires AllAnswered(cards)
    ensures AlignedWith(AnsweredResponses(cards), cards)
  {
    if cards != [] {
      var init := cards[..|cards| - 1];
      assert AllAnswered(init) by {
        forall i | 0 <= i < |init| ensures init[i].choice.Some? {
          assert init[i] == cards[i];
        }
      }
      AnsweredResponsesAligned(init);
    }
  }

  // ------------------------------------------------------------ confirmation message

  function CountAttending(rs: seq<GuestResponse>): (n: nat)
    ensures n <= |rs|
  {
    if rs == [] then 0 else (if rs[0].attending then 1 else 0) + CountAttending(rs[1..])
  }

  lemma {:induction false} CountAttendingAppend(a: seq<GuestResponse>, b: seq<GuestResponse>)
    ensures CountAttending(a + b) == CountAttending(a) + CountAttending(b)
  {
    if a == [] {
      assert a + b == b;
    } else {
      assert (a + b)[1..] == a[1..] + b;
      CountAttendingAppend(a[1..], b);
    }
  }

  /** Among the answered cards some guest attends exactly when the attending count is positive. */
  lemma {:induction false} AnyAttendingIffCount(cards: seq<GuestCard>)
    ensures AnyAttending(cards) <==> CountAttending(AnsweredResponses(cards)) > 0
  {
    if cards != [] {
      var init := cards[..|cards| - 1];
      var last := cards[|cards| - 1];
      AnyAttendingIffCount(init);
      var tail := if last.choice.Some? then [ResponseOf(last)] else [];
      CountAttendingAppend(AnsweredResponses(init), tail);
      if AnyAttending(init) {
        var i :| 0 <= i < |init| && init[i].choice == Some("yes");
        assert cards[i] == init[i];
      }
      if AnyAttending(cards) {
        var i :| 0 <= i < |cards| && cards[i].choice == Some("yes");
        if i < |init| {
          assert init[i] == cards[i];
        }
      }
    }
  }

  const Closing := " We will be in touch with more details soon."
  const Thrilled := "We are thrilled that "
  const JoiningOne := "you will be joining us!"
  const JoiningAll := "your whole party will be joining us!"
  const OfTotal := " of "
  const PartialTail := " guests will be attending. We look forward to celebrating with you!"
  const Sorry := "We are sorry you will not be able to join us. You will be missed!"

  /** The message `showSuccess` puts on the page, as the source computes it from the
      responses and the `anyAttending` flag of the collecting loop. */
  function SuccessMessage(responses: seq<GuestResponse>, anyAttending: bool): string {
    var attendingCount := CountAttending(responses);
    var totalCount := |responses|;
    SuccessText(attendingCount, totalCount, anyAttending) + Closing
  }

  function SuccessText(attendingCount: nat, totalCount: nat, anyAttending: bool): string {
    if anyAttending then
      if attendingCount == totalCount then
        Thrilled + (if totalCount == 1 then JoiningOne else JoiningAll)
      else
        NatToString(attendingCount) + OfTotal + NatToString(totalCount) + PartialTail
    else
      Sorry
  }

  /** The confirmation text for `attending` of `total` guests, case by case. */
  function ConfirmationMessage(attending: nat, total: nat): string {
    ConfirmationText(attending, total) + Closing
  }

  function ConfirmationText(attending: nat, total: nat): string {
    if 0 < attending == total == 1 then Thrilled + JoiningOne
    else if 0 < attending == total then Thrilled + JoiningAll
    else if 0 < attending < total then NatToString(attending) + OfTotal + NatToString(total) + PartialTail
    else Sorry
  }

  /** The message depends on nothing but the attending and total counts. */
  lemma SuccessMessageByCounts(responses: seq<GuestResponse>, anyAttending: bool)
    requires anyAttending <==> CountAttending(responses) > 0
    ensures SuccessMessage(responses, anyAttending)
            == ConfirmationMessage(CountAttending(responses), |responses|)
  {
    SuccessTextByCounts(CountAttending(responses), |responses|, anyAttending);
  }

  lemma SuccessTextByCounts(attending: nat, total: nat, anyAttending: bool)
    requires attending <= total
    requires anyAttending <==> attending > 0
    ensures SuccessText(attending, total, anyAttending) == ConfirmationText(attending, total)
  {
  }

  /** Every confirmation ends with the same closing sentence. */
  lemma ConfirmationEndsWithClosing(attending: nat, total: nat)
    ensures EndsWith(ConfirmationMessage(attending, total), Closing)
  {
  }

  datatype Turnout = WholePartyOfOne | WholeParty | Partial | Nobody

  function TurnoutOf(attending: nat, total: nat): Turnout {
    if 0 < attending == total == 1 then WholePartyOfOne
    else if 0 < attending == total then WholeParty
    else if 0 < attending < total then Partial
    else Nobody
  }

  /** A reader can tell from the message alone which of the four cases occurred. */
  lemma ConfirmationTellsTurnout(a1: nat, t1: nat, a2: nat, t2: nat)
    requires ConfirmationMessage(a1, t1) == ConfirmationMessage(a2, t2)
    ensures TurnoutOf(a1, t1) == TurnoutOf(a2, t2)
  {
  }
}
