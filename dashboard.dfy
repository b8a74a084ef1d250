/** The guest's reservation list: the badge colour and label of a status, the short reservation
    number and the plural of the guest count. */
module Dashboard {
  import Booking

  const UnknownStatusColor := "bg-gray-500"

  /** The badge colours of the four statuses the application writes. */
  const StatusColors: map<string, string> := map[
    "pendente" := "bg-yellow-500",
    "confirmada" := "bg-green-500",
    "cancelada" := "bg-red-500",
    "concluida" := "bg-blue-500"]

  /** The display labels of the same four statuses. */
  const StatusLabels: map<string, string> := map[
    "pendente" := "Pendente",
    "confirmada" := "Confirmada",
    "cancelada" := "Cancelada",
    "concluida" := "Concluída"]

  /** The badge colour of a status; any status outside the table is grey. */
  function StatusColor(status: string): (color: string)
    ensures status in StatusColors ==> color == StatusColors[status]
    ensures status !in StatusColors ==> color == UnknownStatusColor
  {
    if status in StatusColors then StatusColors[status] else UnknownStatusColor
  }

  /** The badge label of a status; any status outside the table is shown as it is stored. */
  function StatusLabel(status: string): (text: string)
    ensures status in StatusLabels ==> text == StatusLabels[status]
    ensures status !in StatusLabels ==> text == status
  {
    if status in StatusLabels then StatusLabels[status] else status
  }

  /** The colour tells the statuses apart: the four known statuses have four different colours,
      none of them grey, so grey means exactly "a status outside the table". */
  lemma StatusColorsDistinguish(s: string, t: string)
    ensures s in StatusColors && t in StatusColors && s != t ==> StatusColor(s) != StatusColor(t)
    ensures StatusColor(s) == UnknownStatusColor <==> s !in StatusColors
  {
  }

  /** A label equals its status exactly when the status is outside the table: every known status
      gets a label different from its stored spelling. */
  lemma StatusLabelPassThrough(s: string)
    ensures StatusLabel(s) == s <==> s !in StatusLabels
  {
    if s in StatusLabels {
      assert StatusLabels[s][0] != s[0];
    }
  }

  /** A reservation the booking form creates shows as a yellow "Pendente" badge. */
  lemma CreatedReservationShowsPending(row: Booking.ReservationRow)
    requires row.status == Booking.PendingStatus
    ensures StatusColor(row.status) == "bg-yellow-500" && StatusLabel(row.status) == "Pendente"
  {
  }

  /** The short reservation number: the first eight characters of the id, or all of a shorter id. */
  function ShortId(id: string): (short: string)
    ensures |short| == if |id| < 8 then |id| else 8
    ensures short <= id
  {
    if |id| < 8 then id else id[..8]
  }

  /** The ending of "pessoa" after the guest count: plural exactly when there is more than one guest. */
  function GuestSuffix(guests: int): (suffix: string)
    ensures suffix == "s" <==> guests > 1
    ensures suffix == "" <==> guests <= 1
  {
    if guests > 1 then "s" else ""
  }
}
