/** The booking form: the schema bounds, the price shown and stored, and the decision sequence
    of a submit up to the reservation row it would insert. */
module Booking {
  import opened Wrappers
  import opened FormErrors
  import opened Rooms

  const MinGuests := 1
  const MaxGuests := 10
  const MaxNotesLength := 500
  const PendingStatus := "pendente"

  const NanGuestsMessage := "Expected number, received nan"
  const MinGuestsMessage := "Número de hóspedes deve ser no mínimo 1"
  const MaxGuestsMessage := "Máximo 10 hóspedes"
  const NotesMessage := "Observações devem ter no máximo 500 caracteres"

  /** The `reservas` row a successful submit inserts. Dates are day numbers; the total is in cents. */
  datatype ReservationRow = ReservationRow(
    userId: Option<string>,
    roomId: Option<string>,
    checkIn: int,
    checkOut: int,
    guests: int,
    total: int,
    notes: Option<string>,
    status: string)

  /** How a submit ends. */
  datatype SubmitOutcome =
    | DatesMissing                        // a toast; nothing else happens
    | CheckOutNotAfterCheckIn             // a toast; nothing else happens
    | Invalid(errors: map<string, string>) // shown under the fields; no insert
    | InsertFailed(row: ReservationRow)   // the insert was attempted and the store refused it
    | Created(row: ReservationRow)        // the row was inserted

  /** The price shown on the form and stored with the reservation: nights times the nightly rate,
      and 0 while a date or the room is still missing. */
  function TotalValue(checkIn: Option<int>, checkOut: Option<int>, room: Option<Room>): (total: int)
    ensures checkIn.None? || checkOut.None? || room.None? ==> total == 0
    ensures checkIn.Some? && checkOut.Some? && room.Some? ==>
              total == (checkOut.value - checkIn.value) * room.value.rate
    ensures checkIn.Some? && checkOut.Some? && room.Some? && checkOut.value > checkIn.value && room.value.rate >= 0 ==>
              total >= room.value.rate
  {
    if checkIn.None? || checkOut.None? || room.None? then 0
    else
      var nights := checkOut.value - checkIn.value;
      assert nights >= 1 && room.value.rate >= 0 ==> nights * room.value.rate >= room.value.rate by {
        if nights >= 1 && room.value.rate >= 0 {
          assert nights * room.value.rate == room.value.rate + (nights - 1) * room.value.rate;
        }
      }
      nights * room.value.rate
  }

  /** The message the guest count's issue carries, when it has one. */
  function GuestMessage(guests: Option<int>): (message: string)
    ensures message == NanGuestsMessage <==> guests.None?
    ensures message == MinGuestsMessage <==> guests.Some? && guests.value < MinGuests
    ensures message == MaxGuestsMessage <==> guests.Some? && guests.value >= MinGuests
  {
    if guests.None? then NanGuestsMessage
    else if guests.value < MinGuests then MinGuestsMessage
    else MaxGuestsMessage
  }

  /** The issues the schema raises for the guest count. `None` is the NaN that parsing an
      empty or non-numeric field gives; a NaN stops the number's other checks. */
  function GuestIssues(guests: Option<int>): (issues: seq<Issue>)
    ensures issues == [] <==> GuestsValid(guests)
    ensures issues != [] ==> issues == [Issue(["numHospedes"], GuestMessage(guests))]
  {
    match guests
    case None => [Issue(["numHospedes"], NanGuestsMessage)]
    case Some(n) =>
      (if n < MinGuests then [Issue(["numHospedes"], MinGuestsMessage)] else [])
      + (if n > MaxGuests then [Issue(["numHospedes"], MaxGuestsMessage)] else [])
  }

  /** The issues the schema raises for the notes; empty notes are passed as absent and not checked. */
  function NotesIssues(notes: string): (issues: seq<Issue>)
    ensures issues == [] <==> |notes| <= MaxNotesLength
    ensures issues != [] ==> issues == [Issue(["observacoes"], NotesMessage)]
  {
    if notes != "" && |notes| > MaxNotesLength then [Issue(["observacoes"], NotesMessage)] else []
  }

  /** All issues of one parse, in the schema's field order. */
  function ReservationIssues(guests: Option<int>, notes: string): (issues: seq<Issue>)
    ensures issues == [] <==> GuestsValid(guests) && |notes| <= MaxNotesLength
    ensures forall i :: 0 <= i < |issues| ==>
              Field(issues[i]) == Some("numHospedes") || Field(issues[i]) == Some("observacoes")
  {
    GuestIssues(guests) + NotesIssues(notes)
  }

  predicate GuestsValid(guests: Option<int>) {
    guests.Some? && MinGuests <= guests.value <= MaxGuests
  }

  /** The schema accepts exactly the guest counts 1 to 10 (whatever the room's capacity) and the
      notes of at most 500 characters; when it rejects, the error map has one entry per failing
      field, with that field's message. */
  lemma {:induction false} ReservationValidation(guests: Option<int>, notes: string)
    ensures ReservationIssues(guests, notes) == [] <==> GuestsValid(guests) && |notes| <= MaxNotesLength
    ensures "numHospedes" in ErrorMap(ReservationIssues(guests, notes)) <==> !GuestsValid(guests)
    ensures "observacoes" in ErrorMap(ReservationIssues(guests, notes)) <==> |notes| > MaxNotesLength
    ensures ErrorMap(ReservationIssues(guests, notes)).Keys <= {"numHospedes", "observacoes"}
    ensures !GuestsValid(guests) ==>
              ErrorMap(ReservationIssues(guests, notes))["numHospedes"] == GuestMessage(guests)
    ensures |notes| > MaxNotesLength ==> ErrorMap(ReservationIssues(guests, notes))["observacoes"] == NotesMessage
  {
    var g := GuestIssues(guests);
    var n := NotesIssues(notes);
    assert ReservationIssues(guests, notes) == g + n;
    assert g == [] <==> GuestsValid(guests);
    assert n == [] <==> |notes| <= MaxNotesLength;
    var e0 := if g == [] then map[] else map["numHospedes" := GuestMessage(guests)];
    assert ErrorMap(g) == e0 by {
      if g != [] {
        assert g == [Issue(["numHospedes"], GuestMessage(guests))];
        ErrorMapOfOne(g[0]);
      }
    }
    var e1 := if n == [] then e0 else e0["observacoes" := NotesMessage];
    assert ErrorMap(g + n) == e1 by {
      if n == [] { assert g + n == g; } else { ErrorMapSnoc(g, n[0]); }
    }
    assert "numHospedes" != "observacoes";
  }

  /** The row a submit that passed every check inserts: status `pendente`, the validated guest
      count, the computed total and empty notes stored as null. */
  function PendingRow(userId: Option<string>, roomId: Option<string>, room: Option<Room>,
                      checkIn: int, checkOut: int, guests: int, notes: string): (row: ReservationRow)
    ensures row.status == PendingStatus
    ensures row.userId == userId && row.roomId == roomId
    ensures row.checkIn == checkIn && row.checkOut == checkOut && row.guests == guests
    ensures row.notes.None? <==> notes == ""
    ensures row.notes.Some? ==> row.notes.value == notes
    ensures room.None? ==> row.total == 0
    ensures room.Some? ==> row.total == (checkOut - checkIn) * room.value.rate
  {
    ReservationRow(userId, roomId, checkIn, checkOut, guests,
                   TotalValue(Some(checkIn), Some(checkOut), room),
                   if notes == "" then None else Some(notes),
                   PendingStatus)
  }

  /** A submit of the booking form. The checks run in the page's order and the first failing one
      ends it; the insert is attempted only when all pass, and `insertFails` is the store's answer.
      Nothing looks at other reservations or at the room's capacity before the insert. */
  method HandleSubmit(userId: Option<string>, roomId: Option<string>, room: Option<Room>,
                      checkIn: Option<int>, checkOut: Option<int>, guests: Option<int>, notes: string,
                      insertFails: bool)
    returns (outcome: SubmitOutcome)
    ensures outcome == DatesMissing <==> checkIn.None? || checkOut.None?
    ensures outcome == CheckOutNotAfterCheckIn <==>
              checkIn.Some? && checkOut.Some? && checkOut.value <= checkIn.value
    ensures outcome.Invalid? <==>
              checkIn.Some? && checkOut.Some? && checkOut.value > checkIn.value
              && ReservationIssues(guests, notes) != []
    ensures outcome.Invalid? ==> outcome.errors == ErrorMap(ReservationIssues(guests, notes))
    ensures outcome.Created? || outcome.InsertFailed? ==>
              checkIn.Some? && checkOut.Some? && guests.Some?
              && outcome.row == PendingRow(userId, roomId, room, checkIn.value, checkOut.value, guests.value, notes)
    ensures outcome.Created? <==>
              checkIn.Some? && checkOut.Some? && checkOut.value > checkIn.value
              && GuestsValid(guests) && |notes| <= MaxNotesLength && !insertFails
    ensures outcome.Created? ==>
              var r := outcome.row;
              && r.status == PendingStatus
              && r.checkOut - r.checkIn >= 1
              && MinGuests <= r.guests <= MaxGuests
              && (r.notes.Some? ==> 0 < |r.notes.value| <= MaxNotesLength)
              && (room.Some? ==> r.total == (r.checkOut - r.checkIn) * room.value.rate)
              && (room.Some? && room.value.rate >= 0 ==> r.total >= room.value.rate)
  {
    ReservationValidation(guests, notes);
    if checkIn.None? || checkOut.None? {
      return DatesMissing;
    }
    if checkOut.value <= checkIn.value {
      return CheckOutNotAfterCheckIn;
    }
    var issues := ReservationIssues(guests, notes);
    if issues != [] {
      var errors := CollectErrors(issues);
      return Invalid(errors);
    }
    var row := PendingRow(userId, roomId, room, checkIn.value, checkOut.value, guests.value, notes);
    if insertFails {
      return InsertFailed(row);
    }
    return Created(row);
  }
}
