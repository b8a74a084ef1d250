# Hotel booking and document rules

A model of the decision logic that lives inside the pages of the hotel website: the booking
form (`Reservar.tsx`), the document upload page of a reservation (`UploadDocumento.tsx`), the
guest's reservation list (`Dashboard.tsx`) and the room catalogue (`Quartos.tsx`). Everything
else in those pages is rendering, routing and pass-through calls to the hosted backend.

Modules:

- `Wrappers` — `Option`, for a field not filled in and for JavaScript `undefined`/`null`.
- `Text` — `split` on one character, `Join`, its inverse on separator-free pieces, the decimal
  text of a timestamp and how a template literal renders an absent value.
- `FormErrors` — the per-field error map both forms build from a schema failure (`ErrorMap`, a
  left fold where the last write to a field wins) and the loop that builds it (`CollectErrors`).
- `Rooms` — the room record, the picture table with its Standard fallback, the picture choice
  on a card and the login gate of the "reserve" button.
- `Booking` — the booking schema (1 to 10 guests, notes of at most 500 characters), the total
  price, and `HandleSubmit`, the submit sequence up to the `pendente` row it would insert.
- `Documents` — the upload schema (5 MiB, four MIME types, a non-empty document type), the
  extension and storage key of an upload, the path the delete handler recovers from a public
  address, and the two handlers over `DocumentStore`, a class holding the bucket, the
  `documentos` table and the log of calls made to them.
- `Dashboard` — status colour and label with their fallbacks, the short reservation number and
  the plural of the guest count.

Dates are whole day numbers, the nightly rate and the total are whole numbers of cents, the
timestamp of an upload is a parameter, and the success or failure of every backend call is a
boolean parameter decided by the backend.

The model follows the code; in particular:

- The submit handler bounds the guest count by the schema's fixed 10, not by the room's
  capacity; the capacity appears only as the `max` of the input box.
- Nothing checks a new reservation against existing ones for overlapping dates before the
  insert, and nothing restricts which status an administrator writes; neither is modelled.
- The upload schema accepts any non-empty document type, not only the four the select box offers.
- The MIME whitelist has four strings, `image/jpg` among them.
- The upload handler does not check that the reservation of a document belongs to the uploading
  user.

## Model

| member | source | states |
|---|---|---|
| `FormErrors.ErrorMap` | src/pages/Reservar.tsx:128-133 | the map has at most one entry per issue; which fields have entries and which message each keeps is stated by `ErrorMapKeys` and `ErrorMapLastWins` |
| `FormErrors.Field` | src/pages/Reservar.tsx:130-131 | an issue is filed under a field exactly when its path starts with a non-empty name, and then under that name |
| `FormErrors.ErrorMapKeys` | src/pages/Reservar.tsx:128-133 | the error map has an entry for a field exactly when some issue is filed under it |
| `FormErrors.ErrorMapLastWins` | src/pages/UploadDocumento.tsx:134-139 | a field's entry is the message of the last issue filed under it (later writes overwrite earlier ones) |
| `FormErrors.ErrorMapSnoc` | src/pages/UploadDocumento.tsx:135-138 | one more issue applies its single write on top of the map built so far |
| `FormErrors.ErrorMapOfOne` | src/pages/Reservar.tsx:129-133 | a single issue gives a one-entry map with its message |
| `FormErrors.ErrorMapOfTwo` | src/pages/Reservar.tsx:129-133 | two issues give both writes, the second applied last |
| `FormErrors.CollectErrors` | src/pages/Reservar.tsx:127-134 | the `forEach` loop that fills the fresh map computes exactly `ErrorMap` of the issues (the same loop is at src/pages/UploadDocumento.tsx:133-140) |
| `Booking.GuestMessage` | src/pages/Reservar.tsx:21 | the NaN message exactly for a count that did not parse, the minimum message exactly for a count below 1, the maximum message for any other count |
| `Booking.GuestIssues` | src/pages/Reservar.tsx:21 | no issue exactly for a count from 1 to 10; otherwise exactly one issue, under `numHospedes`, carrying `GuestMessage` (a NaN count raises only the type issue) |
| `Booking.NotesIssues` | src/pages/Reservar.tsx:22 | no issue exactly when the notes have at most 500 characters (empty notes are passed as absent); otherwise one issue under `observacoes` with the length message |
| `Booking.ReservationIssues` | src/pages/Reservar.tsx:20-23 | no issue exactly when the guest count and the notes both pass; every issue is filed under `numHospedes` or `observacoes` |
| `Booking.TotalValue` | src/pages/Reservar.tsx:69-73 | 0 whenever a date or the room is missing; otherwise nights times the nightly rate, which is at least one night's rate for a stay of at least one night at a non-negative rate |
| `Booking.ReservationValidation` | src/pages/Reservar.tsx:20-23 | the schema accepts exactly 1 to 10 guests and notes of at most 500 characters (empty notes unchecked); on rejection the error map has one entry per failing field, with the NaN, minimum or maximum message for the guest count and the length message for the notes |
| `Booking.PendingRow` | src/pages/Reservar.tsx:107-116 | status `pendente`; the user, room, dates and guest count as given; notes null exactly when empty, otherwise the notes; total 0 without a loaded room and nights × nightly rate with one |
| `Booking.HandleSubmit` | src/pages/Reservar.tsx:75-116 | missing dates end the submit first, then a check-out not after the check-in, then schema issues (errors = `ErrorMap` of the issues); only when all pass is the insert attempted, with a `pendente` row carrying the validated guest count, the computed total, empty notes as null; every created row has at least one night, 1 to 10 guests, notes of 1 to 500 characters or none, and total = nights × rate (at least the rate when the rate is non-negative) |
| `Rooms.RoomImage` | src/pages/Quartos.tsx:68-75 | the picture is always one of the three table pictures: the type's own for a known type, the Standard one for any other |
| `Rooms.KnownKindsHaveDistinctImages` | src/pages/Quartos.tsx:69-73 | Standard, Deluxe and Suíte Premium map to their own pictures, and the three differ |
| `Rooms.DisplayedImage` | src/pages/Quartos.tsx:104 | the room's own picture when present and non-empty, the type's stock picture otherwise; never empty |
| `Rooms.ReserveTarget` | src/pages/Quartos.tsx:55-66 | the login page exactly when no user is signed in; otherwise `/reservar/` followed by the room id |
| `Dashboard.StatusColor` | src/pages/Dashboard.tsx:70-78 | a known status gets its table colour, any other status grey |
| `Dashboard.StatusColorsDistinguish` | src/pages/Dashboard.tsx:71-77 | the four known statuses have four different colours, and grey appears exactly for unknown statuses |
| `Dashboard.StatusLabel` | src/pages/Dashboard.tsx:80-88 | a known status gets its table label, any other status is shown unchanged |
| `Dashboard.StatusLabelPassThrough` | src/pages/Dashboard.tsx:81-87 | the label equals the stored status exactly when the status is unknown |
| `Dashboard.CreatedReservationShowsPending` | src/pages/Reservar.tsx:115 | a row created with status `pendente` is listed with the yellow "Pendente" badge |
| `Dashboard.ShortId` | src/pages/Dashboard.tsx:134 | the short number is a prefix of the id of length min(8, length of the id) |
| `Dashboard.GuestSuffix` | src/pages/Dashboard.tsx:170 | "s" exactly when there is more than one guest, empty otherwise |
| `Text.Split` | src/pages/UploadDocumento.tsx:156 | `split` gives at least one piece, no piece contains the separator, and the last piece is a suffix of the string |
| `Text.SplitJoin` | src/pages/UploadDocumento.tsx:156-157 | splitting the join of separator-free pieces gives back exactly those pieces |
| `Text.JoinSplit` | src/pages/UploadDocumento.tsx:156 | joining the pieces with the separator gives back the original string |
| `Text.SplitWithoutSeparator` | src/pages/UploadDocumento.tsx:93 | a string without the separator splits into itself alone |
| `Text.SplitAppendPiece` | src/pages/UploadDocumento.tsx:156 | appending a separator and a separator-free tail adds exactly that tail as a last piece |
| `Text.NatToString` | src/pages/UploadDocumento.tsx:94 | the timestamp's text is non-empty, made of decimal digits only, and its digits denote exactly the timestamp |
| `Text.NatToStringInjective` | src/pages/UploadDocumento.tsx:94 | different timestamps have different texts |
| `Text.TemplateText` | src/pages/UploadDocumento.tsx:94 | an absent user id renders as `undefined` in the key |
| `Documents.UploadIssues` | src/pages/UploadDocumento.tsx:18-23 | no issue exactly for a non-empty document type with a file of at most 5 MiB of one of the four MIME types; every issue is filed under `tipoDocumento` or `arquivo` |
| `Documents.UploadValidation` | src/pages/UploadDocumento.tsx:15-23 | the schema accepts exactly a non-empty document type with a file of at most 5 MiB of one of the four MIME types; errors go under `tipoDocumento` and `arquivo`, and when both file checks fail the MIME-type message is the one kept |
| `Documents.FileSizeBoundary` | src/pages/UploadDocumento.tsx:21 | the ceiling is 5 × 1024 × 1024 bytes and inclusive: exactly that size passes, one byte more raises the size issue |
| `Documents.FileExtension` | src/pages/UploadDocumento.tsx:93 | the extension has no `.` and is a suffix of the name |
| `Documents.ExtensionOfDotlessName` | src/pages/UploadDocumento.tsx:93 | a name without `.` is its own extension (`pop` of a one-piece split) |
| `Documents.ExtensionAfterLastDot` | src/pages/UploadDocumento.tsx:93 | the extension is what follows the last `.` |
| `Documents.ExtensionSlashFree` | src/pages/UploadDocumento.tsx:93 | a name without `/` gives an extension without `/` |
| `Documents.StorageKey` | src/pages/UploadDocumento.tsx:94 | the key `<user id>/<timestamp>.<ext>`, an absent id rendered as `undefined`; its contract is carried by `StorageKeyShape`, `StorageKeyExtension` and `DistinctTimestampsGiveDistinctKeys` |
| `Documents.StorageKeyShape` | src/pages/UploadDocumento.tsx:94 | the key `<user id>/<timestamp>.<ext>` splits at `/` into exactly the user id and the file name, when neither the id nor the extension has a `/` |
| `Documents.StorageKeyExtension` | src/pages/UploadDocumento.tsx:93-94 | the extension taken from a key is the extension it was built with, when that has no `.` |
| `Documents.DistinctTimestampsGiveDistinctKeys` | src/pages/UploadDocumento.tsx:94 | two uploads by the same user with the same extension at different timestamps get different keys |
| `Documents.PublicUrl` | src/pages/UploadDocumento.tsx:103-105 | the bucket's address, `/` and the key; its contract is carried by `PublicUrlShape` and `StoredKeyRecovered` |
| `Documents.PublicUrlShape` | src/pages/UploadDocumento.tsx:103-105 | the public address of a key starts with the bucket's address and ends with `/` and the key |
| `Documents.ExtractPath` | src/pages/UploadDocumento.tsx:156-157 | the last two `/`-separated pieces of the address joined by `/`, with `undefined` for a missing piece; its contract is carried by `ExtractPathShape`, `ExtractPathRoundTrip` and `ExtractPathWithoutSlash` |
| `Documents.ExtractPathShape` | src/pages/UploadDocumento.tsx:156-157 | the recovered path splits into exactly two pieces, a folder and a file |
| `Documents.ExtractPathRoundTrip` | src/pages/UploadDocumento.tsx:156-157 | from an address ending in `/<folder>/<file>` with slash-free pieces the handler recovers `<folder>/<file>` |
| `Documents.ExtractPathWithoutSlash` | src/pages/UploadDocumento.tsx:156-157 | from an address with no `/` the handler recovers `undefined/<address>` |
| `Documents.StoredKeyRecovered` | src/pages/UploadDocumento.tsx:94 | the path recovered from the public address of a key `<user>/<timestamp>.<ext>` is that key, when the user id and the extension have no `/` |
| `Documents.SlashInFolderBreaksRoundTrip` | src/pages/UploadDocumento.tsx:156-157 | for a key whose folder contains `/`, the recovered path keeps only the folder's last segment and differs from the key |
| `Documents.SlashInUserIdBreaksRoundTrip` | src/pages/UploadDocumento.tsx:157 | with a `/` in the user id the recovered path drops the id's leading part and differs from the key |
| `Documents.UploadKeepsBacked` | src/pages/UploadDocumento.tsx:96-116 | storing the object and then inserting a row that leads to it keeps every row pointing at a stored object |
| `Documents.DeleteKeepsBacked` | src/pages/UploadDocumento.tsx:160-172 | removing a row's object and then the row keeps the other rows backed when none shares the object |
| `Documents.FailedRowDeleteLeavesDangling` | src/pages/UploadDocumento.tsx:164-172 | a removed object whose row could not be deleted leaves that row pointing at nothing |
| `Documents.DocumentStore.Upload` | src/pages/UploadDocumento.tsx:96-100 | a successful upload adds the key to the bucket; the call is logged with its result; the table is untouched |
| `Documents.DocumentStore.Insert` | src/pages/UploadDocumento.tsx:108-116 | a successful insert adds the row under a fresh id; an insert under a used id fails; the bucket is untouched |
| `Documents.DocumentStore.Remove` | src/pages/UploadDocumento.tsx:160-164 | a successful remove takes the path out of the bucket; the table is untouched |
| `Documents.DocumentStore.Delete` | src/pages/UploadDocumento.tsx:167-172 | a successful delete takes the row out of the table; the bucket is untouched |
| `Documents.HandleUpload` | src/pages/UploadDocumento.tsx:75-116 | no file: the one `arquivo` error and no call; schema issues: their error map and no call; otherwise the upload under `<user>/<timestamp>.<ext>` is called first and the row insert only after it succeeded, a failed insert leaves the object stored, and an inserted row's address leads back to its key |
| `Documents.HandleDelete` | src/pages/UploadDocumento.tsx:153-172 | the storage remove of the recovered path is called first and the row delete only after it succeeded; a storage failure changes nothing, a row failure leaves the row with its object gone |
| `Documents.UploadThenDelete` | src/pages/UploadDocumento.tsx:295 | deleting the document an upload created removes exactly the key the upload stored; when both succeed the table is as before and the bucket has lost only that key |

## Left out

- Every call to the hosted backend is reduced to a success or a failure chosen by the backend;
  the database's own filtering and ordering of the lists is not modelled.
- `getPublicUrl` is modelled as the bucket's base address, a `/` and the key; the backend's exact
  address format is not part of this model.
- Floating-point prices, `toFixed(2)` display rounding, `parseInt` beyond its NaN case, and the
  `date-fns` day difference and date formatting: dates are day numbers and amounts are cents.
- Booking.ReservationValidation: measures the notes in Dafny characters (Unicode scalar values),
  while the schema counts UTF-16 code units, so notes with characters outside the Basic
  Multilingual Plane count differently.
- FormErrors.Field: path elements are names only; a numeric first path element (never produced
  by these two flat schemas) is not modelled.
- Documents.UploadValidation: the `instanceof File` check is not modelled because a selected
  file always passes it, and the handler stops earlier when no file is selected.
- The browser's own form validation, which can stop a submit before the handlers run: the guest
  box's `min="1"`, `max` set to the room's capacity and `required` (src/pages/Reservar.tsx:232-240,
  in a form without `noValidate` at line 173), and the `required` document-type select and file
  input (src/pages/UploadDocumento.tsx:211 and 232). The handlers are modelled as if these
  attributes were absent, so the model also covers submits the browser would let through when
  its validation is bypassed.
- Rooms.RoomImage: a lookup in a plain JavaScript object also finds inherited keys such as
  `constructor` or `toString`, whose truthy values would be returned instead of the Standard
  picture (src/pages/Quartos.tsx:74); the model treats the table as a map of its three own keys.
  Room types are free text typed by an administrator (src/pages/Admin.tsx:208), so such a type can
  occur.
- Dashboard.StatusColor: the same inherited-key lookup applies to the colour table
  (src/pages/Dashboard.tsx:77); the model knows only the four own keys.
- Dashboard.StatusLabel: the same inherited-key lookup applies to the label table
  (src/pages/Dashboard.tsx:87); the model knows only the four own keys.
- Documents.StoredKeyRecovered: holds for an address that contains the key as written; an address
  that percent-encodes characters of the key (a space or a non-ASCII letter in the user id) is not
  modelled.
- Documents.DocumentStore.Insert: `newId` stands in for the id the database generates (the insert
  at src/pages/UploadDocumento.tsx:108-114 passes none); refusing an id already in use is a choice
  of the model, not something the page does.
- React state, effects, toasts, navigation side effects and all rendering, including the date
  picker's refusal of past days and the text box's own length limit.
- The admin page (`Admin.tsx`): its handlers write whatever the form holds, with no rule to model.
- `Date.now()` is a parameter; the clock is not modelled.
- Concurrent submits and uploads: the pages do nothing to coordinate them.
