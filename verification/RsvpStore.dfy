/**
 * The hosted RSVP table as the page reaches it through three remote
 * procedures: `get_rsvp_by_invitation`, `update_rsvp` and `insert_rsvp`.
 * The table is a sequence of rows; the page reads first and then either
 * updates or inserts, so that it holds at most one row per invitation.
 */
module RsvpStore {
  import opened Wrappers
  import opened GuestForm

  datatype RsvpRecord = RsvpRecord(
    invitationId: string,
    guestResponses: seq<GuestResponse>,
    dietaryRestrictions: string,
    castlePreference: string,
    email: string,
    message: string)

  /** How a write procedure answered: success, a transport or database error
      (`result.error`, or a thrown exception), or `{success: false, error}`. */
  datatype RpcOutcome = RpcOk | RpcError | RpcRejected(error: string)

  /** No two rows belong to the same invitation. */
  predicate UniqueIds(rows: seq<RsvpRecord>) {
    forall i, j :: 0 <= i < j < |rows| ==> rows[i].invitationId != rows[j].invitationId
  }

  predicate HasRow(rows: seq<RsvpRecord>, id: string) {
    exists i :: 0 <= i < |rows| && rows[i].invitationId == id
  }

  /** The rows of every other invitation, in table order. */
  function RowsExcept(rows: seq<RsvpRecord>, id: string): seq<RsvpRecord> {
    if rows == [] then []
    else (if rows[0].invitationId == id then [] else [rows[0]]) + RowsExcept(rows[1..], id)
  }

  /** `update_rsvp`: every row of the record's invitation takes the new contents. */
  function Replace(rows: seq<RsvpRecord>, rec: RsvpRecord): (r: seq<RsvpRecord>)
    ensures |r| == |rows|
    ensures forall i :: 0 <= i < |r| ==>
              r[i] == if rows[i].invitationId == rec.invitationId then rec else rows[i]
  {
    if rows == [] then []
    else [if rows[0].invitationId == rec.invitationId then rec else rows[0]] + Replace(rows[1..], rec)
  }

  /** Check, then update or insert: the write `submitRSVP` performs. */
  function Upsert(rows: seq<RsvpRecord>, rec: RsvpRecord): seq<RsvpRecord> {
    if HasRow(rows, rec.invitationId) then Replace(rows, rec) else rows + [rec]
  }

  lemma {:induction false} RowsExceptReplace(rows: seq<RsvpRecord>, rec: RsvpRecord)
    ensures RowsExcept(Replace(rows, rec), rec.invitationId) == RowsExcept(rows, rec.invitationId)
  {
    if rows != [] {
      RowsExceptReplace(rows[1..], rec);
      assert Replace(rows, rec)[1..] == Replace(rows[1..], rec);
    }
  }

  lemma {:induction false} RowsExceptAppend(rows: seq<RsvpRecord>, rec: RsvpRecord)
    ensures RowsExcept(rows + [rec], rec.invitationId) == RowsExcept(rows, rec.invitationId)
  {
    if rows == [] {
      assert RowsExcept([rec], rec.invitationId) == [] + RowsExcept([], rec.invitationId);
    } else {
      RowsExceptAppend(rows[1..], rec);
      assert (rows + [rec])[1..] == rows[1..] + [rec];
    }
  }

  /** After the write the table still holds at most one row per invitation; the
      submitted invitation has exactly one row, holding the submitted record; and
      the rows of every other invitation are untouched and in the same order. */
  lemma UpsertKeepsOneRowPerInvitation(rows: seq<RsvpRecord>, rec: RsvpRecord)
    requires UniqueIds(rows)
    ensures var r := Upsert(rows, rec);
            UniqueIds(r)
            && (exists i :: 0 <= i < |r| && r[i] == rec)
            && (forall i :: 0 <= i < |r| && r[i].invitationId == rec.invitationId ==> r[i] == rec)
            && RowsExcept(r, rec.invitationId) == RowsExcept(rows, rec.invitationId)
            && |r| == |rows| + (if HasRow(rows, rec.invitationId) then 0 else 1)
  {
    var r := Upsert(rows, rec);
    if HasRow(rows, rec.invitationId) {
      var k :| 0 <= k < |rows| && rows[k].invitationId == rec.invitationId;
      assert r[k] == rec;
      ReplaceKeepsIds(rows, rec);
      RowsExceptReplace(rows, rec);
    } else {
      assert r[|rows|] == rec;
      AppendKeepsUnique(rows, rec);
      RowsExceptAppend(rows, rec);
    }
  }

  lemma ReplaceKeepsIds(rows: seq<RsvpRecord>, rec: RsvpRecord)
    requires UniqueIds(rows)
    ensures UniqueIds(Replace(rows, rec))
  {
    var r := Replace(rows, rec);
    forall i | 0 <= i < |rows| ensures r[i].invitationId == rows[i].invitationId {
    }
  }

  lemma AppendKeepsUnique(rows: seq<RsvpRecord>, rec: RsvpRecord)
    requires UniqueIds(rows) && !HasRow(rows, rec.invitationId)
    ensures UniqueIds(rows + [rec])
  {
    var r := rows + [rec];
    forall i, j | 0 <= i < j < |r| ensures r[i].invitationId != r[j].invitationId {
      if j == |rows| {
        assert r[i] == rows[i];
      } else {
        assert r[i] == rows[i] && r[j] == rows[j];
      }
    }
  }

  /** Submitting the same record twice leaves the table as one submission does. */
  lemma UpsertIdempotent(rows: seq<RsvpRecord>, rec: RsvpRecord)
    ensures Upsert(Upsert(rows, rec), rec) == Upsert(rows, rec)
  {
    UpsertHasRow(rows, rec);
    if HasRow(rows, rec.invitationId) {
      ReplaceTwice(rows, rec);
    } else {
      ReplaceAfterAppend(rows, rec);
    }
  }

  lemma UpsertHasRow(rows: seq<RsvpRecord>, rec: RsvpRecord)
    ensures HasRow(Upsert(rows, rec), rec.invitationId)
  {
    var r := Upsert(rows, rec);
    if HasRow(rows, rec.invitationId) {
      var k :| 0 <= k < |rows| && rows[k].invitationId == rec.invitationId;
      assert r[k].invitationId == rec.invitationId;
    } else {
      assert r[|rows|].invitationId == rec.invitationId;
    }
  }

  lemma ReplaceTwice(rows: seq<RsvpRecord>, rec: RsvpRecord)
    ensures Replace(Replace(rows, rec), rec) == Replace(rows, rec)
  {
    var once := Replace(rows, rec);
    var twice := Replace(once, rec);
    forall i | 0 <= i < |rows| ensures twice[i] == once[i] {
    }
  }

  lemma ReplaceAfterAppend(rows: seq<RsvpRecord>, rec: RsvpRecord)
    requires !HasRow(rows, rec.invitationId)
    ensures Replace(rows + [rec], rec) == rows + [rec]
  {
    var r := Replace(rows + [rec], rec);
    forall i | 0 <= i < |rows| + 1 ensures r[i] == (rows + [rec])[i] {
      if i < |rows| {
        assert rows[i].invitationId != rec.invitationId;
      }
    }
  }

  /** The table after a submission whose write procedure succeeds. The answer of the read is
      used without looking at its error, so a failed read looks like a missing row and the
      record is inserted even when its invitation already has one. */
  function Written(rows: seq<RsvpRecord>, rec: RsvpRecord, readFails: bool): seq<RsvpRecord> {
    if readFails then rows + [rec] else Upsert(rows, rec)
  }

  /** A failed read for an invitation that already has a row leaves it with two. */
  lemma FailedReadDuplicates(rows: seq<RsvpRecord>, rec: RsvpRecord)
    requires HasRow(rows, rec.invitationId)
    ensures !UniqueIds(Written(rows, rec, true))
  {
    var k :| 0 <= k < |rows| && rows[k].invitationId == rec.invitationId;
    var r := Written(rows, rec, true);
    assert r[k] == rows[k] && r[|rows|] == rec;
  }

  class Store {
    var rows: seq<RsvpRecord>

    ghost predicate Valid()
      reads this
    {
      UniqueIds(rows)
    }

    constructor (initial: seq<RsvpRecord>)
      ensures rows == initial
    {
      rows := initial;
    }

    /** `get_rsvp_by_invitation`, first element: the invitation's row, if it has one. A failed
        call answers no data, which reads as no row. */
    method GetByInvitation(id: string, readFails: bool) returns (existing: Option<RsvpRecord>)
      ensures readFails ==> existing.None?
      ensures !readFails ==> (existing.Some? <==> HasRow(rows, id))
      ensures existing.Some? ==> existing.value in rows && existing.value.invitationId == id
    {
      existing := None;
      if readFails {
        return;
      }
      var i := 0;
      while i < |rows|
        invariant 0 <= i <= |rows|
        invariant forall j :: 0 <= j < i ==> rows[j].invitationId != id
      {
        if rows[i].invitationId == id {
          return Some(rows[i]);
        }
        i := i + 1;
      }
    }

    /** The write of `submitRSVP`: read the invitation's row, then update it or insert one;
        the table changes only when the chosen procedure succeeds. After a successful read it
        keeps one row per invitation. */
    method Save(rec: RsvpRecord, readFails: bool, outcome: RpcOutcome)
      modifies this
      ensures rows == if outcome.RpcOk? then Written(old(rows), rec, readFails) else old(rows)
      ensures old(Valid()) && !readFails ==> Valid()
    {
      var existing := GetByInvitation(rec.invitationId, readFails);
      if existing.Some? {
        UpdateRsvp(rec, outcome);
      } else {
        InsertRsvp(rec, outcome);
      }
      if UniqueIds(old(rows)) && !readFails {
        UpsertKeepsOneRowPerInvitation(old(rows), rec);
      }
    }

    /** `update_rsvp`; the table changes only when the procedure succeeds. */
    method UpdateRsvp(rec: RsvpRecord, outcome: RpcOutcome)
      modifies this
      ensures rows == if outcome.RpcOk? then Replace(old(rows), rec) else old(rows)
    {
      if outcome.RpcOk? {
        rows := Replace(rows, rec);
      }
    }

    /** `insert_rsvp`; the table changes only when the procedure succeeds. */
    method InsertRsvp(rec: RsvpRecord, outcome: RpcOutcome)
      modifies this
      ensures rows == if outcome.RpcOk? then old(rows) + [rec] else old(rows)
    {
      if outcome.RpcOk? {
        rows := rows + [rec];
      }
    }
  }
}
