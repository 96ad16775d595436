/** The routes of the service-based application. Each handler runs a fixed
    sequence of service calls; upload, validate and process catch every
    exception and re-raise it as a 500, the read handlers do not. */
module Routes {
  import opened Common
  import opened Records
  import opened Database
  import FileService
  import ReceiptService
  import Paging

  /** `upload_receipt`: a name that is empty or not a PDF is refused before
      anything is written, with a 400 that the handler's `except` turns into a
      500; otherwise the file is saved, a record inserted and committed, and the
      new record returned without timestamps. */
  method UploadReceipt(db: Db, filename: string, stamp: string) returns (r: Result<FileView>)
    requires db.Valid()
    modifies db`disk, db`files, db`nextFileId, db`Commits
    ensures db.Valid()
    ensures !FileService.ValidateFileType(filename) ==>
      && r == Err(Rethrow500("Error uploading file", Raise(400, "Only PDF files are allowed")))
      && db.files == old(db.files) && db.nextFileId == old(db.nextFileId)
      && db.disk == old(db.disk) && db.Commits == old(db.Commits)
    ensures FileService.ValidateFileType(filename) ==>
      var id, path := old(db.nextFileId), FileService.SavedPath(stamp, filename);
      && id !in old(db.files)
      && r == Ok(FileView(id, filename, path, false, None, false, None, None))
      && db.files == old(db.files)[id := NewFile(id, filename, path, db.clock)]
      && db.nextFileId == id + 1
      && db.disk == old(db.disk) + {path}
      && db.Commits == old(db.Commits) + [db.State()]
    ensures old(Consistent(db.State())) ==> Consistent(db.State())
  {
    if filename == [] || !FileService.ValidateFileType(filename) {
      return Err(Rethrow500("Error uploading file", Raise(400, "Only PDF files are allowed")));
    }
    ghost var before := db.State();
    var path := FileService.SaveUploadedFile(db, filename, stamp);
    var id := FileService.CreateFileRecord(db, filename, path);
    if Consistent(before) {
      UploadKeepsConsistent(before, id, filename, path, db.clock);
    }
    r := Ok(FileView(id, filename, path, false, None, false, None, None));
  }

  /** `validate_receipt`: an unknown id is a 404 re-raised as a 500 and changes
      nothing; otherwise `is_valid` becomes whether the file's path exists on
      disk and `invalid_reason` is "File not found" exactly when it does not. */
  method ValidateReceipt(db: Db, fileId: int) returns (r: Result<FileView>)
    requires db.Valid()
    modifies db`files, db`Commits
    ensures db.Valid()
    ensures fileId !in old(db.files) ==>
      && r == Err(Rethrow500("Error validating file", Raise(404, "Receipt file not found")))
      && db.files == old(db.files) && db.Commits == old(db.Commits)
    ensures fileId in old(db.files) ==>
      var f := old(db.files)[fileId];
      var g := Validated(f, f.filePath in db.disk, db.clock);
      && db.files == old(db.files)[fileId := g]
      && r == Ok(FileView(fileId, f.fileName, f.filePath, g.isValid, g.invalidReason, f.isProcessed, Some(f.createdAt), None))
      && db.Commits == old(db.Commits) + [db.State()]
    ensures old(Consistent(db.State())) ==> Consistent(db.State())
  {
    var row := FileService.GetFileRecord(db, fileId);
    if row.None? {
      return Err(Rethrow500("Error validating file", Raise(404, "Receipt file not found")));
    }
    var f := row.value;
    ghost var before := db.State();
    var isValid := FileService.FileExists(db, f.filePath);
    var reason := if isValid then None else Some(FILE_NOT_FOUND);
    FileService.UpdateFileValidation(db, fileId, isValid, reason);
    if Consistent(before) {
      ValidateKeepsConsistent(before, fileId, isValid, db.clock);
    }
    r := Ok(FileView(f.id, f.fileName, f.filePath, isValid, reason, f.isProcessed, Some(f.createdAt), None));
  }

  /** `process_receipt`: an unknown id (404) or a file not marked valid (400) is
      re-raised as a 500 and creates no receipt; otherwise one receipt for the
      file's path is inserted and committed, then the file is marked processed
      and committed, and the receipt is read back. `is_processed` is not
      consulted. Between the two commits the receipt is durable while the file
      is not yet marked processed. */
  method ProcessReceipt(db: Db, fileId: int) returns (r: Result<Option<ReceiptRecord>>)
    requires db.Valid()
    modifies db`files, db`receipts, db`nextReceiptId, db`Commits
    ensures db.Valid()
    ensures fileId !in old(db.files) ==>
      && r == Err(Rethrow500("Error processing receipt", Raise(404, "Receipt file not found")))
      && db.files == old(db.files) && db.receipts == old(db.receipts)
      && db.nextReceiptId == old(db.nextReceiptId) && db.Commits == old(db.Commits)
    ensures fileId in old(db.files) && !old(db.files)[fileId].isValid ==>
      && r == Err(Rethrow500("Error processing receipt", Raise(400, "Cannot process invalid PDF file")))
      && db.files == old(db.files) && db.receipts == old(db.receipts)
      && db.nextReceiptId == old(db.nextReceiptId) && db.Commits == old(db.Commits)
    ensures fileId in old(db.files) && old(db.files)[fileId].isValid ==>
      var f, rid := old(db.files)[fileId], old(db.nextReceiptId);
      var rec := NewReceipt(rid, MockExtraction(), f.filePath, db.clock);
      && rid !in old(db.receipts) && db.nextReceiptId == rid + 1
      && db.receipts == old(db.receipts)[rid := rec]
      && |db.receipts| == |old(db.receipts)| + 1
      && db.files == old(db.files)[fileId := Processed(f, db.clock)]
      && r == Ok(Some(rec))
      && db.Commits == old(db.Commits) + [Tables(old(db.files), db.receipts), db.State()]
    ensures old(Consistent(db.State())) ==> Consistent(db.State())
  {
    var row := FileService.GetFileRecord(db, fileId);
    if row.None? {
      return Err(Rethrow500("Error processing receipt", Raise(404, "Receipt file not found")));
    }
    var f := row.value;
    if !f.isValid {
      return Err(Rethrow500("Error processing receipt", Raise(400, "Cannot process invalid PDF file")));
    }
    var rec := CreateAndMark(db, fileId);
    r := Ok(Some(rec));
  }

  /** The successful part of `process_receipt`: the receipt of a valid file is
      inserted and committed, the file marked processed and committed, and the
      receipt read back. */
  method CreateAndMark(db: Db, fileId: int) returns (rec: ReceiptRecord)
    requires db.Valid() && fileId in db.files && db.files[fileId].isValid
    modifies db`files, db`receipts, db`nextReceiptId, db`Commits
    ensures db.Valid()
    ensures var f, rid := old(db.files)[fileId], old(db.nextReceiptId);
      && rid !in old(db.receipts) && db.nextReceiptId == rid + 1
      && rec == NewReceipt(rid, MockExtraction(), f.filePath, db.clock)
      && db.receipts == old(db.receipts)[rid := rec]
      && |db.receipts| == |old(db.receipts)| + 1
      && db.files == old(db.files)[fileId := Processed(f, db.clock)]
      && db.Commits == old(db.Commits) + [Tables(old(db.files), db.receipts), db.State()]
    ensures old(Consistent(db.State())) ==> Consistent(db.State())
  {
    ghost var before := db.State();
    ghost var commits := db.Commits;
    var f := db.files[fileId];
    var rid := ReceiptService.CreateReceipt(db, f.filePath);
    ghost var created := NewReceipt(rid, MockExtraction(), f.filePath, db.clock);
    assert db.receipts == before.receipts[rid := created];
    assert db.Commits == commits + [Tables(before.files, db.receipts)];
    FileService.MarkFileProcessed(db, fileId);
    assert db.files == before.files[fileId := Processed(f, db.clock)];
    assert |db.receipts| == |before.receipts| + 1 by {
      assert db.receipts.Keys == before.receipts.Keys + {rid};
    }
    ProcessStep(before, db.State(), fileId, rid, created, db.clock);
    var data := ReceiptService.GetReceipt(db, rid);
    rec := data.value;
  }

  /** `list_receipts`: the receipt service's page and total, passed through. */
  method ListReceipts(db: Db, skip: int, limit: int) returns (r: ReceiptService.ReceiptPage)
    requires db.Valid()
    ensures r.total == |db.receipts|
    ensures r.receipts == Paging.Window(db.ReceiptsNewestFirst(), skip, limit)
    ensures Paging.SortedDesc(r.receipts, ReceiptCreatedAt)
  {
    r := ReceiptService.GetAllReceipts(db, skip, limit);
  }

  /** `get_receipt`: the stored receipt, or a 404 that is not wrapped. */
  function GetReceipt(db: Db, receiptId: int): (r: Result<ReceiptRecord>)
    reads db
    ensures r.Err? <==> receiptId !in db.receipts
    ensures r.Err? ==> r.error == Raise(404, "Receipt not found")
    ensures r.Ok? ==> r.value == db.receipts[receiptId]
  {
    match ReceiptService.GetReceipt(db, receiptId)
    case None => Err(Raise(404, "Receipt not found"))
    case Some(rec) => Ok(rec)
  }

  /** `list_files`: the file service's listing, passed through. */
  method ListFiles(db: Db) returns (rows: seq<FileRecord>)
    requires db.Valid()
    ensures rows == db.FilesNewestFirst()
    ensures forall id :: id in db.files ==> db.files[id] in rows
    ensures Paging.SortedDesc(rows, FileCreatedAt)
  {
    rows := FileService.GetAllFiles(db);
  }

  /** `get_file`: every column of the stored file, or a 404 that is not wrapped. */
  function GetFile(db: Db, fileId: int): (r: Result<FileView>)
    reads db
    ensures r.Err? <==> fileId !in db.files
    ensures r.Err? ==> r.error == Raise(404, "File not found")
    ensures r.Ok? ==> r.value == View(db.files[fileId])
  {
    match FileService.GetFileRecord(db, fileId)
    case None => Err(Raise(404, "File not found"))
    case Some(f) => Ok(View(f))
  }
}
