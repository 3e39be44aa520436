/**
 * Invitations as the RSVP page sees them, the fixed table used when no
 * database client is configured (demo mode), and the demo code lookup.
 */
module Invitations {
  import opened Wrappers
  import opened JsStrings

  /** One invited party. `email` is `None` when the record has no address. */
  datatype Invitation = Invitation(
    id: string,
    code: string,
    partyName: string,
    guestNames: seq<string>,
    partySize: int,
    email: Option<string>)

  /** The five sample invitations of demo mode. */
  function DemoInvitations(): (r: seq<Invitation>)
    ensures |r| == 5
    ensures forall i :: 0 <= i < |r| ==> r[i].partySize == |r[i].guestNames| >= 1
  {
    [ Invitation("demo-1", "SMITH01", "The Smith Family",
                 ["John Smith", "Jane Smith", "Tommy Smith", "Sarah Smith"], 4,
                 Some("john.smith@email.com")),
      Invitation("demo-2", "JONES02", "Michael & Lisa Jones",
                 ["Michael Jones", "Lisa Jones"], 2, Some("mjones@email.com")),
      Invitation("demo-3", "BROWN03", "David Brown",
                 ["David Brown"], 1, Some("dbrown@email.com")),
      Invitation("demo-4", "WILSON4", "The Wilson Family",
                 ["Robert Wilson", "Emily Wilson", "Jack Wilson"], 3, Some("rwilson@email.com")),
      Invitation("demo-5", "TAYLOR5", "Sarah Taylor & Guest",
                 ["Sarah Taylor", "Guest"], 2, Some("staylor@email.com")) ]
  }

  /** `table[k]` is the first invitation of `table` whose code is `key`. */
  predicate FirstWithCode(table: seq<Invitation>, key: string, k: int) {
    0 <= k < |table| && table[k].code == key
    && forall j :: 0 <= j < k ==> table[j].code != key
  }

  /** Position of the first invitation of `table` whose code is `key`. */
  function FindIndex(table: seq<Invitation>, key: string): (r: Option<nat>)
    ensures r.None? <==> forall j :: 0 <= j < |table| ==> table[j].code != key
    ensures r.Some? ==> FirstWithCode(table, key, r.value)
  {
    if table == [] then None
    else if table[0].code == key then Some(0)
    else match FindIndex(table[1..], key)
      case None => None
      case Some(k) => Some(k + 1)
  }

  /** `Array.prototype.find` with an exact code comparison: the first invitation carrying `key`. */
  function FindByCode(table: seq<Invitation>, key: string): (r: Option<Invitation>)
    ensures r.None? <==> forall j :: 0 <= j < |table| ==> table[j].code != key
    ensures r.Some? ==> r.value in table && r.value.code == key
    ensures r.Some? ==> exists k :: FirstWithCode(table, key, k) && r.value == table[k]
  {
    match FindIndex(table, key)
    case None => None
    case Some(k) => Some(table[k])
  }

  /** Demo-mode lookup: the demo invitation whose code equals the input upper-cased. */
  function FindDemo(code: string): (r: Option<Invitation>)
    ensures r.Some? <==> exists i :: 0 <= i < |DemoInvitations()| && DemoInvitations()[i].code == Upper(code)
    ensures r.Some? ==> r.value in DemoInvitations() && r.value.code == Upper(code)
  {
    FindByCode(DemoInvitations(), Upper(code))
  }

  /** The demo codes are pairwise distinct, so the first match is the only match. */
  lemma DemoCodesDistinct()
    ensures forall i, j :: 0 <= i < j < |DemoInvitations()| ==>
              DemoInvitations()[i].code != DemoInvitations()[j].code
  {
  }

  /** Entering `smith01` in demo mode selects the Smith family invitation. */
  lemma DemoSmithScenario()
    ensures FindDemo("smith01") == Some(DemoInvitations()[0])
    ensures DemoInvitations()[0].guestNames == ["John Smith", "Jane Smith", "Tommy Smith", "Sarah Smith"]
  {
    assert Upper("smith01") == "SMITH01";
  }
}
