/**
 * The RSVP notification function: when an `rsvps` row is inserted or
 * updated it splits the guests into attending and declining, builds the
 * subject, the two lists and the defaulted fields of the e-mail, and its plain-text body.
 */
module NotifyRsvp {
  import opened Wrappers
  import opened JsStrings
  import opened GuestForm

  /** The fields of the changed `rsvps` row the function reads. */
  datatype RsvpRow = RsvpRow(
    guestResponses: seq<GuestResponse>,
    dietaryRestrictions: Option<string>,
    message: Option<string>,
    castlePreference: Option<string>)

  /** The database-webhook payload: the event type (`INSERT` or `UPDATE`) and the new row. */
  datatype Payload = Payload(eventType: string, record: RsvpRow)

  /** Everything of the e-mail that does not depend on the clock or the HTML layout. */
  datatype Notification = Notification(
    subject: string,
    actionWord: string,
    attendingList: string,
    decliningList: string,
    accommodation: string,
    dietary: string,
    message: string,
    content: string)

  // ---------------------------------------------------------------- partition

  function AttendingNames(rs: seq<GuestResponse>): (r: seq<string>)
    ensures |r| <= |rs|
  {
    if rs == [] then [] else (if rs[0].attending then [rs[0].name] else []) + AttendingNames(rs[1..])
  }

  function DecliningNames(rs: seq<GuestResponse>): (r: seq<string>)
    ensures |r| <= |rs|
  {
    if rs == [] then [] else (if rs[0].attending then [] else [rs[0].name]) + DecliningNames(rs[1..])
  }

  function Names(rs: seq<GuestResponse>): (r: seq<string>)
    ensures |r| == |rs|
  {
    if rs == [] then [] else [rs[0].name] + Names(rs[1..])
  }

  function Flags(rs: seq<GuestResponse>): (r: seq<bool>)
    ensures |r| == |rs|
  {
    if rs == [] then [] else [rs[0].attending] + Flags(rs[1..])
  }

  function CountTrue(flags: seq<bool>): (r: nat)
    ensures r <= |flags|
  {
    if flags == [] then 0 else (if flags[0] then 1 else 0) + CountTrue(flags[1..])
  }

  /** Deals the names back out in the original order: the next attending name where the flag
      is set, the next declining name where it is not. */
  function Weave(flags: seq<bool>, att: seq<string>, dec: seq<string>): (r: seq<string>)
    requires |att| == CountTrue(flags) && |dec| == |flags| - CountTrue(flags)
    ensures |r| == |flags|
  {
    if flags == [] then []
    else if flags[0] then [att[0]] + Weave(flags[1..], att[1..], dec)
    else [dec[0]] + Weave(flags[1..], att, dec[1..])
  }

  /** The attending and declining lists partition the guests: together they hold every
      name, each list in guest order, and interleaving them by the attendance flags
      gives the guest list back. */
  lemma {:induction false} PartitionWeave(rs: seq<GuestResponse>)
    ensures |AttendingNames(rs)| == CountTrue(Flags(rs))
    ensures |DecliningNames(rs)| == |rs| - CountTrue(Flags(rs))
    ensures |AttendingNames(rs)| + |DecliningNames(rs)| == |rs|
    ensures Weave(Flags(rs), AttendingNames(rs), DecliningNames(rs)) == Names(rs)
  {
    if rs != [] {
      var tail := rs[1..];
      PartitionWeave(tail);
      var flags := Flags(rs);
      assert flags[0] == rs[0].attending && flags[1..] == Flags(tail);
      var att, dec := AttendingNames(rs), DecliningNames(rs);
      if rs[0].attending {
        assert att == [rs[0].name] + AttendingNames(tail) && dec == DecliningNames(tail);
        assert att[0] == rs[0].name && att[1..] == AttendingNames(tail);
        assert Weave(flags, att, dec) == [rs[0].name] + Weave(Flags(tail), AttendingNames(tail), dec);
      } else {
        assert dec == [rs[0].name] + DecliningNames(tail) && att == AttendingNames(tail);
        assert dec[0] == rs[0].name && dec[1..] == DecliningNames(tail);
        assert Weave(flags, att, dec) == [rs[0].name] + Weave(Flags(tail), att, DecliningNames(tail));
      }
    }
  }

  /** A guest's name is on the list matching their answer. */
  lemma {:induction false} ListedByAnswer(rs: seq<GuestResponse>, i: nat)
    requires i < |rs|
    ensures rs[i].attending ==> rs[i].name in AttendingNames(rs)
    ensures !rs[i].attending ==> rs[i].name in DecliningNames(rs)
  {
    if i > 0 {
      ListedByAnswer(rs[1..], i - 1);
    }
  }

  // ---------------------------------------------------------------- text

  /** A list as the e-mail shows it: the names joined with ", ", or "None". */
  function DisplayList(names: seq<string>): string {
    if |names| > 0 then Join(names, ListSeparator) else "None"
  }

  function SubjectPrefix(eventType: string): string {
    if eventType == "UPDATE" then "RSVP Updated: " else "New RSVP: "
  }

  function Subject(eventType: string, attending: seq<string>): (r: string)
    ensures IsPrefix(SubjectPrefix(eventType), r)
    ensures attending != [] ==> r == SubjectPrefix(eventType) + DisplayList(attending)
    ensures attending == [] ==> r == SubjectPrefix(eventType) + (if eventType == "UPDATE" then "Response changed" else "Declined")
  {
    var names := if |attending| > 0 then Join(attending, ListSeparator)
                 else if eventType == "UPDATE" then "Response changed" else "Declined";
    var r := SubjectPrefix(eventType) + names;
    assert r[..|SubjectPrefix(eventType)|] == SubjectPrefix(eventType);
    r
  }

  /** The subject tells an update from a new response. */
  lemma SubjectTellsKind(t1: string, a1: seq<string>, t2: string, a2: seq<string>)
    requires Subject(t1, a1) == Subject(t2, a2)
    ensures (t1 == "UPDATE") == (t2 == "UPDATE")
  {
    var s := Subject(t1, a1);
    assert s[0] == SubjectPrefix(t1)[0] && s[0] == SubjectPrefix(t2)[0];
  }

  function ActionWord(eventType: string): string {
    if eventType == "UPDATE" then "Updated" else "Received"
  }

  /** The plain-text body. */
  function PlainText(actionWord: string, attendingList: string, decliningList: string): string {
    "RSVP " + actionWord + ": " + attendingList + " attending, " + decliningList + " declined."
  }

  /** The e-mail for one payload. */
  function Summarize(p: Payload): (n: Notification)
    ensures n.actionWord == "Updated" <==> p.eventType == "UPDATE"
    ensures n.accommodation != "" && n.dietary != "" && n.message != ""
    ensures Truthy(p.record.castlePreference) ==> n.accommodation == p.record.castlePreference.value
    ensures !Truthy(p.record.castlePreference) ==> n.accommodation == "Not specified"
    ensures Truthy(p.record.dietaryRestrictions) ==> n.dietary == p.record.dietaryRestrictions.value
    ensures Truthy(p.record.message) ==> n.message == p.record.message.value
    ensures !Truthy(p.record.dietaryRestrictions) ==> n.dietary == "None"
    ensures !Truthy(p.record.message) ==> n.message == "No message"
    ensures IsPrefix(SubjectPrefix(p.eventType), n.subject)
  {
    var rs := p.record.guestResponses;
    var attending := AttendingNames(rs);
    var declining := DecliningNames(rs);
    var word := ActionWord(p.eventType);
    var attendingList := DisplayList(attending);
    var decliningList := DisplayList(declining);
    Notification(
      Subject(p.eventType, attending),
      word,
      attendingList,
      decliningList,
      OrDefault(p.record.castlePreference, "Not specified"),
      OrDefault(p.record.dietaryRestrictions, "None"),
      OrDefault(p.record.message, "No message"),
      PlainText(word, attendingList, decliningList))
  }

  /** No guest is left out of the plain-text body. */
  lemma EveryGuestInPlainText(p: Payload, i: nat)
    requires i < |p.record.guestResponses|
    ensures Contains(Summarize(p).content, p.record.guestResponses[i].name)
  {
    var rs := p.record.guestResponses;
    var name := rs[i].name;
    var n := Summarize(p);
    ListedByAnswer(rs, i);
    if rs[i].attending {
      var names := AttendingNames(rs);
      var j :| 0 <= j < |names| && names[j] == name;
      JoinContains(names, ListSeparator, j);
      ContainsWithin("RSVP " + n.actionWord + ": ", n.attendingList,
                     " attending, " + n.decliningList + " declined.", name);
      assert n.content == "RSVP " + n.actionWord + ": " + n.attendingList
                          + (" attending, " + n.decliningList + " declined.");
    } else {
      var names := DecliningNames(rs);
      var j :| 0 <= j < |names| && names[j] == name;
      JoinContains(names, ListSeparator, j);
      ContainsWithin("RSVP " + n.actionWord + ": " + n.attendingList + " attending, ", n.decliningList,
                     " declined.", name);
    }
  }

  /** The subject names the attending guests exactly as the body lists them, so they can be
      read back from it. */
  lemma SubjectListsAttending(p: Payload)
    requires AttendingNames(p.record.guestResponses) != []
    requires forall i :: 0 <= i < |p.record.guestResponses| ==>
               ',' !in p.record.guestResponses[i].name && Trimmed(p.record.guestResponses[i].name)
    ensures var n := Summarize(p);
            && n.subject == SubjectPrefix(p.eventType) + n.attendingList
            && ParseList(n.subject[|SubjectPrefix(p.eventType)|..]) == AttendingNames(p.record.guestResponses)
  {
    var rs := p.record.guestResponses;
    var att := AttendingNames(rs);
    forall j | 0 <= j < |att| ensures ',' !in att[j] && Trimmed(att[j]) {
      AttendingFrom(rs, j);
    }
    ListRoundTrip(att);
    var n := Summarize(p);
    assert n.subject[|SubjectPrefix(p.eventType)|..] == n.attendingList;
  }

  lemma {:induction false} AttendingFrom(rs: seq<GuestResponse>, j: nat)
    requires j < |AttendingNames(rs)|
    ensures exists i :: 0 <= i < |rs| && rs[i].attending && rs[i].name == AttendingNames(rs)[j]
  {
    if rs[0].attending && j == 0 {
      assert rs[0].name == AttendingNames(rs)[0];
    } else {
      var k := if rs[0].attending then j - 1 else j;
      assert AttendingNames(rs)[j] == AttendingNames(rs[1..])[k];
      AttendingFrom(rs[1..], k);
      var i :| 0 <= i < |rs[1..]| && rs[1..][i].attending && rs[1..][i].name == AttendingNames(rs[1..])[k];
      assert rs[i + 1] == rs[1..][i];
    }
  }
}
