/** The document page of a reservation: the upload schema, how the storage key and the public
    address of a file are formed, how a stored path is recovered from that address on delete,
    and the order in which the page talks to the storage bucket and to the `documentos` table. */
module Documents {
  import opened Wrappers
  import opened Text
  import opened FormErrors

  /** 5 MiB. */
  const MaxFileSize: nat := 5 * 1024 * 1024
  const AllowedFileTypes: seq<string> := ["application/pdf", "image/jpeg", "image/png", "image/jpg"]

  const NoFileMessage := "Selecione um arquivo"
  const DocTypeMessage := "Selecione o tipo de documento"
  const FileSizeMessage := "Arquivo deve ter no máximo 5MB"
  const FileTypeMessage := "Tipo de arquivo não permitido. Use PDF, JPG ou PNG"

  /** The file the user picked: its name, its size in bytes and the MIME type the browser reports. */
  datatype FileInfo = FileInfo(name: string, size: nat, mimeType: string)

  /** A row of the `documentos` table. */
  datatype DocRecord = DocRecord(
    userId: Option<string>,
    reservationId: Option<string>,
    fileName: string,
    docType: string,
    fileUrl: string)

  /** One call the page makes to the backend, with whether it succeeded. */
  datatype Call =
    | StorageUpload(key: string, ok: bool)
    | RecordInsert(id: string, record: DocRecord, ok: bool)
    | StorageRemove(path: string, ok: bool)
    | RecordDelete(id: string, ok: bool)

  /** How an upload ends. */
  datatype UploadOutcome =
    | Rejected(errors: map<string, string>)          // shown under the fields; no backend call
    | UploadFailed(key: string)                      // the bucket refused the file; no record
    | RecordFailed(key: string, record: DocRecord)   // the file is stored but the row was refused
    | Uploaded(key: string, record: DocRecord)

  /** How a delete ends. */
  datatype DeleteOutcome =
    | RemoveFailed(path: string)   // the bucket refused; the row is left alone
    | DeleteFailed(path: string)   // the file is gone but the row was refused
    | Deleted(path: string)

  /** The issues the upload schema raises, in its field order. A bad size and a bad type both
      raise an issue on `arquivo`: the second check runs even when the first fails. */
  function UploadIssues(docType: string, file: FileInfo): (issues: seq<Issue>)
    ensures issues == [] <==> docType != "" && file.size <= MaxFileSize && file.mimeType in AllowedFileTypes
    ensures forall i :: 0 <= i < |issues| ==>
              Field(issues[i]) == Some("tipoDocumento") || Field(issues[i]) == Some("arquivo")
  {
    (if |docType| < 1 then [Issue(["tipoDocumento"], DocTypeMessage)] else [])
    + (if file.size > MaxFileSize then [Issue(["arquivo"], FileSizeMessage)] else [])
    + (if file.mimeType !in AllowedFileTypes then [Issue(["arquivo"], FileTypeMessage)] else [])
  }

  /** The schema accepts a file of at most 5 MiB with one of the four MIME types and any non-empty
      document type. The error map files the type problem under `tipoDocumento` and the file
      problems under `arquivo`, where a bad MIME type's message overwrites a bad size's. */
  lemma {:induction false} UploadValidation(docType: string, file: FileInfo)
    ensures UploadIssues(docType, file) == [] <==>
              docType != "" && file.size <= MaxFileSize && file.mimeType in AllowedFileTypes
    ensures ErrorMap(UploadIssues(docType, file)).Keys <= {"tipoDocumento", "arquivo"}
    ensures "tipoDocumento" in ErrorMap(UploadIssues(docType, file)) <==> docType == ""
    ensures "arquivo" in ErrorMap(UploadIssues(docType, file)) <==>
              file.size > MaxFileSize || file.mimeType !in AllowedFileTypes
    ensures docType == "" ==> ErrorMap(UploadIssues(docType, file))["tipoDocumento"] == DocTypeMessage
    ensures file.mimeType !in AllowedFileTypes ==>
              ErrorMap(UploadIssues(docType, file))["arquivo"] == FileTypeMessage
    ensures file.size > MaxFileSize && file.mimeType in AllowedFileTypes ==>
              ErrorMap(UploadIssues(docType, file))["arquivo"] == FileSizeMessage
  {
    var t := if |docType| < 1 then [Issue(["tipoDocumento"], DocTypeMessage)] else [];
    var z := if file.size > MaxFileSize then [Issue(["arquivo"], FileSizeMessage)] else [];
    var m := if file.mimeType !in AllowedFileTypes then [Issue(["arquivo"], FileTypeMessage)] else [];
    assert UploadIssues(docType, file) == t + z + m;
    var e0 := if t == [] then map[] else map["tipoDocumento" := DocTypeMessage];
    assert ErrorMap(t) == e0 by {
      if t != [] { ErrorMapOfOne(t[0]); }
    }
    var e1 := if z == [] then e0 else e0["arquivo" := FileSizeMessage];
    assert ErrorMap(t + z) == e1 by {
      if z == [] { assert t + z == t; } else { ErrorMapSnoc(t, z[0]); }
    }
    var e2 := if m == [] then e1 else e1["arquivo" := FileTypeMessage];
    assert ErrorMap(t + z + m) == e2 by {
      if m == [] { assert t + z + m == t + z; } else { ErrorMapSnoc(t + z, m[0]); }
    }
  }

  /** The size ceiling is inclusive: exactly 5 MiB passes, one byte more is rejected. */
  lemma FileSizeBoundary(docType: string, name: string, mimeType: string)
    requires docType != "" && mimeType in AllowedFileTypes
    ensures MaxFileSize == 5242880
    ensures UploadIssues(docType, FileInfo(name, 5242880, mimeType)) == []
    ensures UploadIssues(docType, FileInfo(name, 5242881, mimeType)) == [Issue(["arquivo"], FileSizeMessage)]
  {
  }

  /** The extension of a file name: the text after its last `.`, or the whole name when it has no `.`. */
  function FileExtension(name: string): (ext: string)
    ensures '.' !in ext
    ensures IsSuffix(ext, name)
  {
    var parts := Split(name, '.');
    parts[|parts| - 1]
  }

  /** A name without `.` is its own extension. */
  lemma ExtensionOfDotlessName(name: string)
    requires '.' !in name
    ensures FileExtension(name) == name
  {
    SplitWithoutSeparator(name, '.');
  }

  /** Whatever precedes the last `.`, the extension is what follows it. */
  lemma ExtensionAfterLastDot(stem: string, ext: string)
    requires '.' !in ext
    ensures FileExtension(stem + "." + ext) == ext
  {
    SplitAppendPiece(stem, '.', ext);
  }

  /** The storage key of an upload: `<user id>/<timestamp>.<extension>`. */
  function StorageKey(userId: Option<string>, now: nat, ext: string): string
  {
    TemplateText(userId) + "/" + NatToString(now) + "." + ext
  }

  /** The file part of a key, `<timestamp>.<ext>`, has no `/` when the extension has none. */
  lemma FileNameSlashFree(now: nat, ext: string)
    requires '/' !in ext
    ensures '/' !in NatToString(now) + "." + ext
  {
    var digits := NatToString(now);
    var file := digits + "." + ext;
    forall i | 0 <= i < |file| ensures file[i] != '/' {
      if i < |digits| { assert file[i] == digits[i]; }
      else if i > |digits| { assert file[i] == ext[i - |digits| - 1]; }
    }
  }

  /** A key names one folder, the user id, and one file, `<timestamp>.<ext>`, when neither the id
      nor the extension has a `/`. */
  lemma StorageKeyShape(userId: Option<string>, now: nat, ext: string)
    requires '/' !in TemplateText(userId) && '/' !in ext
    ensures Split(StorageKey(userId, now, ext), '/') == [TemplateText(userId), NatToString(now) + "." + ext]
  {
    var folder := TemplateText(userId);
    var file := NatToString(now) + "." + ext;
    FileNameSlashFree(now, ext);
    assert StorageKey(userId, now, ext) == folder + ['/'] + file;
    SplitTwoPieces(folder, '/', file);
  }

  /** The extension of a key is the extension it was built with, when that has no `.`. */
  lemma StorageKeyExtension(userId: Option<string>, now: nat, ext: string)
    requires '.' !in ext
    ensures FileExtension(StorageKey(userId, now, ext)) == ext
  {
    var stem := TemplateText(userId) + "/" + NatToString(now);
    assert StorageKey(userId, now, ext) == stem + "." + ext;
    ExtensionAfterLastDot(stem, ext);
  }

  /** Equal strings with the same prefix and suffix have the same middle when the middles are
      equally long. */
  lemma SameMiddle(front: string, a: string, b: string, back: string)
    requires front + a + back == front + b + back && |a| == |b|
    ensures a == b
  {
    forall i | 0 <= i < |a| ensures a[i] == b[i] {
      assert a[i] == (front + a + back)[|front| + i];
      assert b[i] == (front + b + back)[|front| + i];
    }
  }

  /** Two uploads by the same user at different times get different keys. */
  lemma DistinctTimestampsGiveDistinctKeys(userId: Option<string>, now: nat, later: nat, ext: string)
    requires now != later
    ensures StorageKey(userId, now, ext) != StorageKey(userId, later, ext)
  {
    var a := NatToString(now);
    var b := NatToString(later);
    var front := TemplateText(userId) + "/";
    var back := "." + ext;
    if StorageKey(userId, now, ext) == StorageKey(userId, later, ext) {
      assert StorageKey(userId, now, ext) == front + a + back;
      assert StorageKey(userId, later, ext) == front + b + back;
      SameMiddle(front, a, b, back);
      NatToStringInjective(now, later);
    }
  }

  /** The public address the bucket gives for a key: the bucket's base address, a `/`, the key. */
  function PublicUrl(bucketUrl: string, key: string): (url: string)
  {
    bucketUrl + "/" + key
  }
  /** The public address of a key starts with the bucket's address and ends with `/` and the key. */
  lemma PublicUrlShape(bucketUrl: string, key: string)
    ensures IsPrefix(bucketUrl, PublicUrl(bucketUrl, key))
    ensures IsSuffix("/" + key, PublicUrl(bucketUrl, key))
  {
    var url := PublicUrl(bucketUrl, key);
    assert url == bucketUrl + ("/" + key);
  }


  /** The storage path the delete handler recovers from an address: its last two `/`-separated
      pieces joined by `/`; for an address without `/` the missing piece renders as `undefined`. */
  function ExtractPath(url: string): string
  {
    var parts := Split(url, '/');
    var folder := if |parts| >= 2 then parts[|parts| - 2] else "undefined";
    folder + "/" + parts[|parts| - 1]
  }

  /** The recovered path always names one folder and one file: it splits into exactly two pieces. */
  lemma ExtractPathShape(url: string)
    ensures |Split(ExtractPath(url), '/')| == 2
  {
    var parts := Split(url, '/');
    var folder := if |parts| >= 2 then parts[|parts| - 2] else "undefined";
    var file := parts[|parts| - 1];
    assert ExtractPath(url) == folder + "/" + file;
    SplitTwoPieces(folder, '/', file);
  }

  /** Recovering a path from an address that ends in `/<folder>/<file>` gives back `<folder>/<file>`,
      provided neither piece contains `/`. */
  lemma ExtractPathRoundTrip(base: string, folder: string, file: string)
    requires '/' !in folder && '/' !in file
    ensures ExtractPath(base + "/" + folder + "/" + file) == folder + "/" + file
  {
    SplitAppendPiece(base, '/', folder);
    SplitAppendPiece(base + "/" + folder, '/', file);
  }

  /** An address with no `/` at all yields a path into a folder named `undefined`. */
  lemma ExtractPathWithoutSlash(url: string)
    requires '/' !in url
    ensures ExtractPath(url) == "undefined/" + url
  {
    SplitWithoutSeparator(url, '/');
  }

  /** The round trip the two handlers rely on: the path recovered from the public address of a
      stored upload is the key it was stored under, when the user id and the extension have no `/`. */
  lemma {:induction false} StoredKeyRecovered(bucketUrl: string, userId: Option<string>, now: nat, ext: string)
    requires '/' !in TemplateText(userId) && '/' !in ext
    ensures ExtractPath(PublicUrl(bucketUrl, StorageKey(userId, now, ext))) == StorageKey(userId, now, ext)
  {
    var folder := TemplateText(userId);
    var file := NatToString(now) + "." + ext;
    assert '/' !in NatToString(now);
    assert StorageKey(userId, now, ext) == folder + "/" + file;
    assert PublicUrl(bucketUrl, StorageKey(userId, now, ext)) == bucketUrl + "/" + folder + "/" + file;
    ExtractPathRoundTrip(bucketUrl, folder, file);
  }

  /** A key whose folder part contains `/` is not recovered from its public address: only the
      folder's last segment survives. */
  lemma SlashInFolderBreaksRoundTrip(bucketUrl: string, a: string, b: string, file: string)
    requires '/' !in b && '/' !in file
    ensures ExtractPath(PublicUrl(bucketUrl, a + "/" + b + "/" + file)) == b + "/" + file
    ensures ExtractPath(PublicUrl(bucketUrl, a + "/" + b + "/" + file)) != a + "/" + b + "/" + file
  {
    var url := PublicUrl(bucketUrl, a + "/" + b + "/" + file);
    assert url == (bucketUrl + "/" + a) + "/" + b + "/" + file;
    ExtractPathRoundTrip(bucketUrl + "/" + a, b, file);
  }

  /** A user id containing `/` breaks the round trip: the recovered path loses the part of the
      id before its last `/`, so it is not the stored key. */
  lemma SlashInUserIdBreaksRoundTrip(bucketUrl: string, a: string, b: string, now: nat, ext: string)
    requires '/' !in b && '/' !in ext
    ensures ExtractPath(PublicUrl(bucketUrl, StorageKey(Some(a + "/" + b), now, ext)))
            == b + "/" + NatToString(now) + "." + ext
    ensures ExtractPath(PublicUrl(bucketUrl, StorageKey(Some(a + "/" + b), now, ext)))
            != StorageKey(Some(a + "/" + b), now, ext)
  {
    var file := NatToString(now) + "." + ext;
    FileNameSlashFree(now, ext);
    assert StorageKey(Some(a + "/" + b), now, ext) == a + "/" + b + "/" + file;
    SlashInFolderBreaksRoundTrip(bucketUrl, a, b, file);
  }

  /** A slash-free name has a slash-free extension. */
  lemma ExtensionSlashFree(name: string)
    requires '/' !in name
    ensures '/' !in FileExtension(name)
  {
    var ext := FileExtension(name);
    forall i | 0 <= i < |ext| ensures ext[i] != '/' {
      assert ext[i] == name[|name| - |ext| + i];
    }
  }

  /** Every row's address leads back to an object that is in the bucket. */
  predicate Backed(objects: set<string>, records: map<string, DocRecord>) {
    forall id | id in records :: ExtractPath(records[id].fileUrl) in objects
  }

  /** Storing an object and then inserting a row whose address leads to it keeps every row backed. */
  lemma UploadKeepsBacked(objects: set<string>, records: map<string, DocRecord>, key: string,
                          id: string, record: DocRecord)
    requires Backed(objects, records)
    requires ExtractPath(record.fileUrl) == key
    ensures Backed(objects + {key}, records)
    ensures Backed(objects + {key}, records[id := record])
  {
  }

  /** Removing a row's object and then the row keeps the others backed, as long as no other row
      leads to the same object. */
  lemma DeleteKeepsBacked(objects: set<string>, records: map<string, DocRecord>, id: string)
    requires Backed(objects, records) && id in records
    requires forall other | other in records && other != id ::
               ExtractPath(records[other].fileUrl) != ExtractPath(records[id].fileUrl)
    ensures Backed(objects - {ExtractPath(records[id].fileUrl)}, records - {id})
  {
  }

  /** When the object is removed but the row's delete fails, the row is left pointing at nothing. */
  lemma FailedRowDeleteLeavesDangling(objects: set<string>, records: map<string, DocRecord>, id: string)
    requires id in records
    ensures !Backed(objects - {ExtractPath(records[id].fileUrl)}, records)
  {
  }

  /** The storage bucket and the `documentos` table, with the log of calls made to them. Whether a
      call fails is decided by the backend and comes in as a parameter. */
  class DocumentStore {
    var objects: set<string>
    var records: map<string, DocRecord>
    var calls: seq<Call>

    constructor ()
      ensures objects == {} && records == map[] && calls == []
    {
      objects, records, calls := {}, map[], [];
    }

    method Upload(key: string, fails: bool) returns (ok: bool)
      modifies this
      ensures ok == !fails
      ensures objects == if ok then old(objects) + {key} else old(objects)
      ensures records == old(records)
      ensures calls == old(calls) + [StorageUpload(key, ok)]
    {
      ok := !fails;
      if ok {
        objects := objects + {key};
      }
      calls := calls + [StorageUpload(key, ok)];
    }

    /** An insert under an id already in use is refused like any other failure. */
    method Insert(id: string, record: DocRecord, fails: bool) returns (ok: bool)
      modifies this
      ensures ok == (!fails && id !in old(records))
      ensures records == if ok then old(records)[id := record] else old(records)
      ensures objects == old(objects)
      ensures calls == old(calls) + [RecordInsert(id, record, ok)]
    {
      ok := !fails && id !in records;
      if ok {
        records := records[id := record];
      }
      calls := calls + [RecordInsert(id, record, ok)];
    }

    /** Removing a path that holds no object is not an error. */
    method Remove(path: string, fails: bool) returns (ok: bool)
      modifies this
      ensures ok == !fails
      ensures objects == if ok then old(objects) - {path} else old(objects)
      ensures records == old(records)
      ensures calls == old(calls) + [StorageRemove(path, ok)]
    {
      ok := !fails;
      if ok {
        objects := objects - {path};
      }
      calls := calls + [StorageRemove(path, ok)];
    }

    /** Deleting by an id that has no row is not an error. */
    method Delete(id: string, fails: bool) returns (ok: bool)
      modifies this
      ensures ok == !fails
      ensures records == if ok then old(records) - {id} else old(records)
      ensures objects == old(objects)
      ensures calls == old(calls) + [RecordDelete(id, ok)]
    {
      ok := !fails;
      if ok {
        records := records - {id};
      }
      calls := calls + [RecordDelete(id, ok)];
    }
  }

  /** The submit of the upload form. Without a file, or when the schema rejects, no backend call
      is made. Otherwise the file goes to the bucket first and the row is inserted only after the
      bucket accepted it; a refused row leaves the stored file behind. */
  method HandleUpload(store: DocumentStore, userId: Option<string>, reservationId: Option<string>,
                      docType: string, file: Option<FileInfo>, now: nat, bucketUrl: string,
                      newId: string, uploadFails: bool, insertFails: bool)
    returns (outcome: UploadOutcome)
    modifies store
    ensures file.None? ==> outcome == Rejected(map["arquivo" := NoFileMessage]) && unchanged(store)
    ensures file.Some? && UploadIssues(docType, file.value) != [] ==>
              outcome == Rejected(ErrorMap(UploadIssues(docType, file.value))) && unchanged(store)
    ensures file.Some? && UploadIssues(docType, file.value) == [] ==>
              var key := StorageKey(userId, now, FileExtension(file.value.name));
              var record := DocRecord(userId, reservationId, file.value.name, docType, PublicUrl(bucketUrl, key));
              var inserted := !uploadFails && !insertFails && newId !in old(store.records);
              && outcome == (if uploadFails then UploadFailed(key)
                             else if !inserted then RecordFailed(key, record)
                             else Uploaded(key, record))
              && store.calls == old(store.calls) + [StorageUpload(key, !uploadFails)]
                                + (if uploadFails then [] else [RecordInsert(newId, record, inserted)])
              && store.objects == (if uploadFails then old(store.objects) else old(store.objects) + {key})
              && store.records == (if inserted then old(store.records)[newId := record] else old(store.records))
    ensures outcome.Uploaded? && '/' !in TemplateText(userId) && '/' !in file.value.name ==>
              ExtractPath(outcome.record.fileUrl) == outcome.key
  {
    if file.None? {
      return Rejected(map["arquivo" := NoFileMessage]);
    }
    var issues := UploadIssues(docType, file.value);
    if issues != [] {
      var errors := CollectErrors(issues);
      return Rejected(errors);
    }
    var ext := FileExtension(file.value.name);
    var key := StorageKey(userId, now, ext);
    var uploaded := store.Upload(key, uploadFails);
    if !uploaded {
      return UploadFailed(key);
    }
    var record := DocRecord(userId, reservationId, file.value.name, docType, PublicUrl(bucketUrl, key));
    if '/' !in TemplateText(userId) && '/' !in file.value.name {
      ExtensionSlashFree(file.value.name);
      StoredKeyRecovered(bucketUrl, userId, now, ext);
    }
    var inserted := store.Insert(newId, record, insertFails);
    if !inserted {
      return RecordFailed(key, record);
    }
    return Uploaded(key, record);
  }

  /** The delete button of a listed document. The path comes from the document's address; the
      object is removed from the bucket first and the row is deleted only after that succeeded, so
      a bucket failure leaves both in place and a table failure leaves a row whose file is gone. */
  method HandleDelete(store: DocumentStore, docId: string, fileUrl: string, removeFails: bool, deleteFails: bool)
    returns (outcome: DeleteOutcome)
    modifies store
    ensures var path := ExtractPath(fileUrl);
            && outcome == (if removeFails then RemoveFailed(path)
                           else if deleteFails then DeleteFailed(path)
                           else Deleted(path))
            && store.calls == old(store.calls) + [StorageRemove(path, !removeFails)]
                              + (if removeFails then [] else [RecordDelete(docId, !deleteFails)])
            && store.objects == (if removeFails then old(store.objects) else old(store.objects) - {path})
            && store.records == (if removeFails || deleteFails then old(store.records) else old(store.records) - {docId})
  {
    var path := ExtractPath(fileUrl);
    var removed := store.Remove(path, removeFails);
    if !removed {
      return RemoveFailed(path);
    }
    var deleted := store.Delete(docId, deleteFails);
    if !deleted {
      return DeleteFailed(path);
    }
    return Deleted(path);
  }

  /** An upload followed by the delete of the document it created: the delete removes exactly the
      object the upload stored, and when both succeed the table is as it was before. */
  method UploadThenDelete(store: DocumentStore, userId: Option<string>, reservationId: Option<string>,
                          docType: string, file: FileInfo, now: nat, bucketUrl: string, newId: string,
                          uploadFails: bool, insertFails: bool, removeFails: bool, deleteFails: bool)
    returns (uploaded: UploadOutcome, deleted: Option<DeleteOutcome>)
    requires '/' !in TemplateText(userId) && '/' !in file.name
    modifies store
    ensures uploaded.Uploaded? <==> deleted.Some?
    ensures uploaded.Uploaded? ==> deleted.value.path == uploaded.key
    ensures uploaded.Uploaded? && deleted.value.Deleted? ==>
              store.records == old(store.records) && store.objects == old(store.objects) - {uploaded.key}
  {
    uploaded := HandleUpload(store, userId, reservationId, docType, Some(file), now, bucketUrl,
                             newId, uploadFails, insertFails);
    if uploaded.Uploaded? {
      assert ExtractPath(uploaded.record.fileUrl) == uploaded.key;
      ghost var recordsBetween := store.records;
      assert recordsBetween - {newId} == old(store.records);
      var d := HandleDelete(store, newId, uploaded.record.fileUrl, removeFails, deleteFails);
      deleted := Some(d);
    } else {
      deleted := None;
    }
  }
}
