/**
 * The invitation sync script: every entry of the invitations file is
 * validated, normalised, and written to the `invitations` table keyed by its
 * upper-cased code — updated when the code's row exists, inserted otherwise —
 * while the run counts what was added, updated and refused.
 *
 * The table is a sequence of rows. Whether the existence probe and the write
 * succeed is not something the script decides, so each entry comes with an
 * `EntryIo` saying how those two backend calls turned out.
 */
module InvitationSync {
  import opened Wrappers
  import opened JsStrings

  /** One entry of the invitations file; an absent field is `None`. */
  datatype RawEntry = RawEntry(
    code: Option<string>,
    partyName: Option<string>,
    guestNames: Option<seq<string>>,
    email: Option<string>,
    notes: Option<string>)

  /** A row of the `invitations` table, as the script writes it. */
  datatype InvitationRecord = InvitationRecord(
    code: string,
    partyName: string,
    guestNames: seq<string>,
    partySize: nat,
    email: Option<string>,
    notes: Option<string>)

  /** How the existence probe and the following write turned out for one entry. */
  datatype EntryIo = EntryIo(lookupFails: bool, writeFails: bool)

  datatype Tally = Tally(added: nat, updated: nat, errors: nat)

  datatype SyncState = SyncState(rows: seq<InvitationRecord>, tally: Tally)

  /** `value || null`. */
  function OrNull(s: Option<string>): (r: Option<string>)
    ensures r.Some? <==> Truthy(s)
    ensures r.Some? ==> r == s
    ensures r != Some("")
  {
    if Truthy(s) then s else None
  }

  /** The entry has a code, a party name and at least one guest name. */
  predicate IsValidEntry(e: RawEntry) {
    Truthy(e.code) && Truthy(e.partyName) && e.guestNames.Some? && |e.guestNames.value| > 0
  }

  /** The record written for an entry, or `None` when the entry is skipped as invalid. */
  function Normalize(e: RawEntry): (r: Option<InvitationRecord>)
    ensures r.Some? <==> IsValidEntry(e)
    ensures r.Some? ==>
              && r.value.code == Upper(e.code.value)
              && |r.value.code| == |e.code.value|
              && r.value.partyName == e.partyName.value
              && r.value.guestNames == e.guestNames.value
              && r.value.partySize == |r.value.guestNames| > 0
              && (r.value.email.Some? <==> Truthy(e.email)) && (r.value.email.Some? ==> r.value.email == e.email)
              && (r.value.notes.Some? <==> Truthy(e.notes)) && (r.value.notes.Some? ==> r.value.notes == e.notes)
  {
    if IsValidEntry(e) then
      var names := e.guestNames.value;
      Some(InvitationRecord(Upper(e.code.value), e.partyName.value, names, |names|, OrNull(e.email), OrNull(e.notes)))
    else
      None
  }

  /** The file entry that would reproduce a record exactly. */
  function AsEntry(rec: InvitationRecord): RawEntry {
    RawEntry(Some(rec.code), Some(rec.partyName), Some(rec.guestNames), rec.email, rec.notes)
  }

  /** Normalising is a projection: a normalised record, written back as an entry,
      normalises to itself. */
  lemma NormalizeIdempotent(e: RawEntry)
    requires IsValidEntry(e)
    ensures Normalize(AsEntry(Normalize(e).value)) == Normalize(e)
  {
    UpperIdempotent(e.code.value);
  }

  /** The number of rows with code `c`; the probe (`.single()`) finds a row only when it is 1. */
  function CountCode(rows: seq<InvitationRecord>, c: string): nat {
    if rows == [] then 0 else (if rows[0].code == c then 1 else 0) + CountCode(rows[1..], c)
  }

  predicate HasCode(rows: seq<InvitationRecord>, c: string) {
    exists i :: 0 <= i < |rows| && rows[i].code == c
  }

  predicate UniqueCodes(rows: seq<InvitationRecord>) {
    forall i, j :: 0 <= i < j < |rows| ==> rows[i].code != rows[j].code
  }

  /** In a table with unique codes the probe finds a row exactly when the code is present. */
  lemma {:induction false} CountCodeUnique(rows: seq<InvitationRecord>, c: string)
    requires UniqueCodes(rows)
    ensures CountCode(rows, c) == if HasCode(rows, c) then 1 else 0
  {
    if rows != [] {
      var tail := rows[1..];
      assert UniqueCodes(tail) by {
        forall i, j | 0 <= i < j < |tail| ensures tail[i].code != tail[j].code {
          assert tail[i] == rows[i + 1] && tail[j] == rows[j + 1];
        }
      }
      CountCodeUnique(tail, c);
      if rows[0].code == c {
        forall j | 0 <= j < |tail| ensures tail[j].code != c {
          assert tail[j] == rows[j + 1];
        }
        assert HasCode(rows, c) by { assert rows[0].code == c; }
      } else {
        if HasCode(rows, c) {
          var i :| 0 <= i < |rows| && rows[i].code == c;
          assert tail[i - 1].code == c;
        }
        if HasCode(tail, c) {
          var j :| 0 <= j < |tail| && tail[j].code == c;
          assert rows[j + 1].code == c;
        }
      }
    }
  }

  /** `.update(record).eq('code', c)`: every row with code `c` becomes `rec`. */
  function UpdateByCode(rows: seq<InvitationRecord>, c: string, rec: InvitationRecord): (r: seq<InvitationRecord>)
    ensures |r| == |rows|
    ensures forall i :: 0 <= i < |rows| ==> r[i] == if rows[i].code == c then rec else rows[i]
  {
    seq(|rows|, i requires 0 <= i < |rows| => if rows[i].code == c then rec else rows[i])
  }

  /** One pass of the loop body. */
  function Step(s: SyncState, e: RawEntry, io: EntryIo): SyncState {
    match Normalize(e)
    case None => s.(tally := s.tally.(errors := s.tally.errors + 1))
    case Some(rec) =>
      if io.writeFails then s.(tally := s.tally.(errors := s.tally.errors + 1))
      else if !io.lookupFails && CountCode(s.rows, rec.code) == 1 then
        SyncState(UpdateByCode(s.rows, rec.code, rec), s.tally.(updated := s.tally.updated + 1))
      else
        SyncState(s.rows + [rec], s.tally.(added := s.tally.added + 1))
  }

  /** The table and counters after syncing `entries` into `rows`. */
  function Run(rows: seq<InvitationRecord>, entries: seq<RawEntry>, ios: seq<EntryIo>): SyncState
    requires |ios| == |entries|
    decreases |entries|
  {
    if entries == [] then SyncState(rows, Tally(0, 0, 0))
    else
      var n := |entries| - 1;
      Step(Run(rows, entries[..n], ios[..n]), entries[n], ios[n])
  }

  /** The number of valid entries. */
  function ValidCount(entries: seq<RawEntry>): (r: nat)
    ensures r <= |entries|
  {
    if entries == [] then 0
    else
      var n := |entries| - 1;
      ValidCount(entries[..n]) + if IsValidEntry(entries[n]) then 1 else 0
  }

  predicate AllOk(ios: seq<EntryIo>) {
    forall i :: 0 <= i < |ios| ==> !ios[i].lookupFails && !ios[i].writeFails
  }

  /** Each entry counts exactly once; every invalid entry is an error, and with a healthy
      backend only those are; every addition adds exactly one row. */
  lemma {:induction false} TallyAccounts(rows: seq<InvitationRecord>, entries: seq<RawEntry>, ios: seq<EntryIo>)
    requires |ios| == |entries|
    ensures var s := Run(rows, entries, ios);
            && s.tally.added + s.tally.updated + s.tally.errors == |entries|
            && s.tally.errors >= |entries| - ValidCount(entries)
            && (AllOk(ios) ==> s.tally.errors == |entries| - ValidCount(entries))
            && |s.rows| == |rows| + s.tally.added
    decreases |entries|
  {
    if entries != [] {
      var n := |entries| - 1;
      TallyAccounts(rows, entries[..n], ios[..n]);
      if AllOk(ios) {
        assert AllOk(ios[..n]);
      }
    }
  }

  /** The record of the last valid entry whose normalised code is `c`. */
  function LastRecord(entries: seq<RawEntry>, c: string): (r: Option<InvitationRecord>)
    ensures r.Some? ==> r.value.code == c
  {
    if entries == [] then None
    else
      var n := |entries| - 1;
      match Normalize(entries[n])
      case Some(rec) => if rec.code == c then Some(rec) else LastRecord(entries[..n], c)
      case None => LastRecord(entries[..n], c)
  }

  /** `rows` with every row whose code the file mentions replaced by the file's last record for it. */
  function ApplyLast(rows: seq<InvitationRecord>, entries: seq<RawEntry>): (r: seq<InvitationRecord>)
    ensures |r| == |rows|
    ensures forall i :: 0 <= i < |rows| ==> r[i].code == rows[i].code
  {
    seq(|rows|, i requires 0 <= i < |rows| =>
      var last := LastRecord(entries, rows[i].code);
      if last.Some? then last.value else rows[i])
  }

  /** What a run with a healthy backend does to a table with unique codes: codes stay unique,
      the old rows stay in place with the file's last record for their code, and after them
      come the new codes, each with its last record; every valid code ends up present. */
  lemma {:induction false} OkRunShape(rows: seq<InvitationRecord>, entries: seq<RawEntry>, ios: seq<EntryIo>)
    requires |ios| == |entries| && AllOk(ios) && UniqueCodes(rows)
    ensures var r := Run(rows, entries, ios).rows;
            && UniqueCodes(r)
            && |rows| <= |r| && r[..|rows|] == ApplyLast(rows, entries)
            && (forall i :: |rows| <= i < |r| ==> LastRecord(entries, r[i].code).Some?)
            && (forall i :: 0 <= i < |r| && LastRecord(entries, r[i].code).Some? ==>
                  r[i] == LastRecord(entries, r[i].code).value)
            && (forall c :: LastRecord(entries, c).Some? ==> HasCode(r, c))
    decreases |entries|
  {
    if entries == [] {
      assert ApplyLast(rows, entries) == rows;
    } else {
      var n := |entries| - 1;
      var init := entries[..n];
      assert AllOk(ios[..n]);
      OkRunShape(rows, init, ios[..n]);
      var s := Run(rows, init, ios[..n]).rows;
      match Normalize(entries[n])
      case None =>
        forall c ensures LastRecord(entries, c) == LastRecord(init, c) { }
        assert ApplyLast(rows, entries) == ApplyLast(rows, init);
      case Some(rec) =>
        CountCodeUnique(s, rec.code);
        forall c ensures LastRecord(entries, c) == if c == rec.code then Some(rec) else LastRecord(init, c) { }
        if HasCode(s, rec.code) {
          OkUpdateShape(rows, init, entries, s, rec);
        } else {
          OkInsertShape(rows, init, entries, s, rec);
        }
    }
  }

  lemma OkUpdateShape(rows: seq<InvitationRecord>, init: seq<RawEntry>, entries: seq<RawEntry>,
                      s: seq<InvitationRecord>, rec: InvitationRecord)
    requires forall c :: LastRecord(entries, c) == if c == rec.code then Some(rec) else LastRecord(init, c)
    requires UniqueCodes(s) && HasCode(s, rec.code)
    requires |rows| <= |s| && s[..|rows|] == ApplyLast(rows, init)
    requires forall i :: |rows| <= i < |s| ==> LastRecord(init, s[i].code).Some?
    requires forall i :: 0 <= i < |s| && LastRecord(init, s[i].code).Some? ==> s[i] == LastRecord(init, s[i].code).value
    requires forall c :: LastRecord(init, c).Some? ==> HasCode(s, c)
    ensures var r := UpdateByCode(s, rec.code, rec);
            && UniqueCodes(r)
            && |rows| <= |r| && r[..|rows|] == ApplyLast(rows, entries)
            && (forall i :: |rows| <= i < |r| ==> LastRecord(entries, r[i].code).Some?)
            && (forall i :: 0 <= i < |r| && LastRecord(entries, r[i].code).Some? ==>
                  r[i] == LastRecord(entries, r[i].code).value)
            && (forall c :: LastRecord(entries, c).Some? ==> HasCode(r, c))
  {
    var r := UpdateByCode(s, rec.code, rec);
    assert forall i :: 0 <= i < |s| ==> r[i].code == s[i].code;
    forall i | 0 <= i < |rows| ensures r[i] == ApplyLast(rows, entries)[i] {
      assert s[i] == ApplyLast(rows, init)[i];
    }
    forall c | LastRecord(entries, c).Some? ensures HasCode(r, c) {
      var i :| 0 <= i < |s| && s[i].code == c;
      assert r[i].code == c;
    }
  }

  lemma OkInsertShape(rows: seq<InvitationRecord>, init: seq<RawEntry>, entries: seq<RawEntry>,
                      s: seq<InvitationRecord>, rec: InvitationRecord)
    requires forall c :: LastRecord(entries, c) == if c == rec.code then Some(rec) else LastRecord(init, c)
    requires UniqueCodes(s) && !HasCode(s, rec.code)
    requires |rows| <= |s| && s[..|rows|] == ApplyLast(rows, init)
    requires forall i :: |rows| <= i < |s| ==> LastRecord(init, s[i].code).Some?
    requires forall i :: 0 <= i < |s| && LastRecord(init, s[i].code).Some? ==> s[i] == LastRecord(init, s[i].code).value
    requires forall c :: LastRecord(init, c).Some? ==> HasCode(s, c)
    ensures var r := s + [rec];
            && UniqueCodes(r)
            && |rows| <= |r| && r[..|rows|] == ApplyLast(rows, entries)
            && (forall i :: |rows| <= i < |r| ==> LastRecord(entries, r[i].code).Some?)
            && (forall i :: 0 <= i < |r| && LastRecord(entries, r[i].code).Some? ==>
                  r[i] == LastRecord(entries, r[i].code).value)
            && (forall c :: LastRecord(entries, c).Some? ==> HasCode(r, c))
  {
    var r := s + [rec];
    assert forall i :: 0 <= i < |s| ==> s[i].code != rec.code;
    forall i | 0 <= i < |rows| ensures r[i] == ApplyLast(rows, entries)[i] {
      assert s[i] == ApplyLast(rows, init)[i];
    }
    forall c | LastRecord(entries, c).Some? ensures HasCode(r, c) {
      if c == rec.code {
        assert r[|s|].code == c;
      } else {
        var i :| 0 <= i < |s| && s[i].code == c;
        assert r[i].code == c;
      }
    }
  }

  /** Re-syncing a file into a table that already holds every code it mentions only updates:
      nothing is added, and each row becomes the file's last record for its code. */
  lemma RerunOnlyUpdates(rows: seq<InvitationRecord>, entries: seq<RawEntry>, ios: seq<EntryIo>)
    requires |ios| == |entries| && AllOk(ios) && UniqueCodes(rows)
    requires forall c :: LastRecord(entries, c).Some? ==> HasCode(rows, c)
    ensures Run(rows, entries, ios).rows == ApplyLast(rows, entries)
    ensures Run(rows, entries, ios).tally == Tally(0, ValidCount(entries), |entries| - ValidCount(entries))
  {
    RerunRows(rows, entries, ios);
    TallyAccounts(rows, entries, ios);
  }

  lemma {:induction false} RerunRows(rows: seq<InvitationRecord>, entries: seq<RawEntry>, ios: seq<EntryIo>)
    requires |ios| == |entries| && AllOk(ios) && UniqueCodes(rows)
    requires forall c :: LastRecord(entries, c).Some? ==> HasCode(rows, c)
    ensures Run(rows, entries, ios).rows == ApplyLast(rows, entries)
    ensures Run(rows, entries, ios).tally.added == 0
    decreases |entries|
  {
    if entries == [] {
      assert ApplyLast(rows, entries) == rows;
    } else {
      var n := |entries| - 1;
      var init := entries[..n];
      assert AllOk(ios[..n]);
      forall c | LastRecord(init, c).Some? ensures HasCode(rows, c) {
        assert LastRecord(entries, c).Some?;
      }
      RerunRows(rows, init, ios[..n]);
      match Normalize(entries[n])
      case None =>
        forall c ensures LastRecord(entries, c) == LastRecord(init, c) { }
        assert ApplyLast(rows, entries) == ApplyLast(rows, init);
      case Some(rec) =>
        forall c ensures LastRecord(entries, c) == if c == rec.code then Some(rec) else LastRecord(init, c) { }
        assert LastRecord(entries, rec.code).Some?;
        RerunUpdateStep(rows, init, entries, rec);
    }
  }

  /** A valid entry whose code the table holds updates that row to its record. */
  lemma RerunUpdateStep(rows: seq<InvitationRecord>, init: seq<RawEntry>, entries: seq<RawEntry>, rec: InvitationRecord)
    requires forall c :: LastRecord(entries, c) == if c == rec.code then Some(rec) else LastRecord(init, c)
    requires UniqueCodes(rows) && HasCode(rows, rec.code)
    ensures var s := ApplyLast(rows, init);
            CountCode(s, rec.code) == 1 && UpdateByCode(s, rec.code, rec) == ApplyLast(rows, entries)
  {
    var s := ApplyLast(rows, init);
    var k :| 0 <= k < |rows| && rows[k].code == rec.code;
    assert UniqueCodes(s);
    assert s[k].code == rec.code;
    CountCodeUnique(s, rec.code);
    forall i | 0 <= i < |rows| ensures UpdateByCode(s, rec.code, rec)[i] == ApplyLast(rows, entries)[i] { }
  }

  /** With a healthy backend, syncing the same file twice leaves the table as the first run
      left it, and the second run adds nothing. */
  lemma SyncIdempotent(rows: seq<InvitationRecord>, entries: seq<RawEntry>, first: seq<EntryIo>, second: seq<EntryIo>)
    requires |first| == |entries| && |second| == |entries| && AllOk(first) && AllOk(second) && UniqueCodes(rows)
    ensures var once := Run(rows, entries, first).rows;
            && Run(once, entries, second).rows == once
            && Run(once, entries, second).tally.added == 0
  {
    var once := Run(rows, entries, first).rows;
    OkRunShape(rows, entries, first);
    RerunOnlyUpdates(once, entries, second);
    assert ApplyLast(once, entries) == once;
  }

  /** With a healthy backend, each valid code of the file ends up in exactly one row, holding
      the file's last record for that code. */
  lemma OneRowPerCode(rows: seq<InvitationRecord>, entries: seq<RawEntry>, ios: seq<EntryIo>, k: nat)
    requires |ios| == |entries| && AllOk(ios) && UniqueCodes(rows)
    requires k < |entries| && IsValidEntry(entries[k])
    ensures var r := Run(rows, entries, ios).rows;
            var c := Normalize(entries[k]).value.code;
            && CountCode(r, c) == 1
            && exists i :: 0 <= i < |r| && LastRecord(entries, c) == Some(r[i])
  {
    var r := Run(rows, entries, ios).rows;
    var c := Normalize(entries[k]).value.code;
    LastRecordCovers(entries, k);
    OkRunShape(rows, entries, ios);
    CountCodeUnique(r, c);
    var i :| 0 <= i < |r| && r[i].code == c;
    assert LastRecord(entries, c) == Some(r[i]);
  }

  lemma {:induction false} LastRecordCovers(entries: seq<RawEntry>, k: nat)
    requires k < |entries| && IsValidEntry(entries[k])
    ensures LastRecord(entries, Normalize(entries[k]).value.code).Some?
    decreases |entries|
  {
    var n := |entries| - 1;
    if k < n {
      LastRecordCovers(entries[..n], k);
    }
  }

  /** The `invitations` table, as the sync script sees it. */
  class InvitationTable {
    var rows: seq<InvitationRecord>

    constructor (initial: seq<InvitationRecord>)
      ensures rows == initial
    {
      rows := initial;
    }

    /** `syncInvitations`: an empty file returns at once; otherwise each entry is
        validated, normalised and upserted by code, and counted. */
    method Sync(entries: seq<RawEntry>, ios: seq<EntryIo>) returns (added: nat, updated: nat, errors: nat)
      requires |ios| == |entries|
      modifies this
      ensures entries == [] ==> rows == old(rows) && added == 0 && updated == 0 && errors == 0
      ensures Run(old(rows), entries, ios) == SyncState(rows, Tally(added, updated, errors))
    {
      if |entries| == 0 {
        return 0, 0, 0;
      }
      added, updated, errors := 0, 0, 0;
      for i := 0 to |entries|
        invariant Run(old(rows), entries[..i], ios[..i]) == SyncState(rows, Tally(added, updated, errors))
      {
        assert entries[..i + 1][..i] == entries[..i] && ios[..i + 1][..i] == ios[..i];
        var inv := entries[i];
        if !Truthy(inv.code) || !Truthy(inv.partyName) || inv.guestNames.None? || |inv.guestNames.value| == 0 {
          errors := errors + 1;
          continue;
        }
        var names := inv.guestNames.value;
        var record := InvitationRecord(Upper(inv.code.value), inv.partyName.value, names, |names|,
                                       OrNull(inv.email), OrNull(inv.notes));
        var existing := !ios[i].lookupFails && CountCode(rows, record.code) == 1;
        if existing {
          if ios[i].writeFails {
            errors := errors + 1;
          } else {
            rows := UpdateByCode(rows, record.code, record);
            updated := updated + 1;
          }
        } else {
          if ios[i].writeFails {
            errors := errors + 1;
          } else {
            rows := rows + [record];
            added := added + 1;
          }
        }
      }
      assert entries[..|entries|] == entries && ios[..|ios|] == ios;
    }
  }
}
