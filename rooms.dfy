/** The room catalogue page: the room record, the picture shown for a room and where the
    "reserve" button leads. */
module Rooms {
  import opened Wrappers

  /** A row of the `quartos` table. The nightly rate is a whole number of cents. */
  datatype Room = Room(
    id: string,
    number: string,
    kind: string,
    description: string,
    capacity: int,
    rate: int,
    imageUrl: Option<string>,
    available: bool)

  const StandardImage := "https://images.unsplash.com/photo-1631049307264-da0ec9d70304?q=80&w=2070"
  const DeluxeImage := "https://images.unsplash.com/photo-1582719478250-c89cae4dc85b?q=80&w=2070"
  const PremiumImage := "https://images.unsplash.com/photo-1578683010236-d716f9a3f461?q=80&w=2070"

  /** The picture table keyed by room type. */
  const RoomImages: map<string, string> :=
    map["Standard" := StandardImage, "Deluxe" := DeluxeImage, "Suíte Premium" := PremiumImage]

  /** The stock picture for a room type, falling back to the Standard one for any other type. */
  function RoomImage(kind: string): (url: string)
    ensures url == StandardImage || url == DeluxeImage || url == PremiumImage
    ensures kind in RoomImages ==> url == RoomImages[kind]
    ensures kind !in RoomImages ==> url == StandardImage
  {
    if kind in RoomImages then RoomImages[kind] else RoomImages["Standard"]
  }

  /** The three known types each get their own picture, and no two share one. */
  lemma KnownKindsHaveDistinctImages()
    ensures RoomImage("Standard") == StandardImage
    ensures RoomImage("Deluxe") == DeluxeImage
    ensures RoomImage("Suíte Premium") == PremiumImage
    ensures StandardImage != DeluxeImage && DeluxeImage != PremiumImage && StandardImage != PremiumImage
  {
  }

  /** The picture on a room card: the room's own picture when it has a non-empty one,
      the stock picture for its type otherwise. */
  function DisplayedImage(room: Room): (url: string)
    ensures room.imageUrl.Some? && room.imageUrl.value != "" ==> url == room.imageUrl.value
    ensures room.imageUrl.None? || room.imageUrl.value == "" ==> url == RoomImage(room.kind)
    ensures url != ""
  {
    match room.imageUrl
    case Some(u) => if u != "" then u else RoomImage(room.kind)
    case None => RoomImage(room.kind)
  }

  /** Where the "reserve" button navigates: to the login page without a user, to the booking
      form of that room with one. */
  function ReserveTarget(user: Option<string>, roomId: string): (path: string)
    ensures user.None? <==> path == "/auth"
    ensures user.Some? ==> path == "/reservar/" + roomId
  {
    if user.None? then "/auth" else "/reservar/" + roomId
  }
}
