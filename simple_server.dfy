/** The single-file server: every handler runs its SQL on its own connection
    and catches every exception, re-raising it as a 500 (so its 400s and 404s,
    those of the read handlers included, reach the client as 500s). */
module SimpleServer {
  import opened Common
  import opened Records
  import opened Database
  import FileService
  import ReceiptService
  import Paging

  /** `upload_receipt`: a name that is empty or not a PDF is refused before
      anything is written; otherwise the file is written under the uploads
      directory, one record inserted and committed, and returned with the
      current time as both timestamps. */
  method UploadReceipt(db: Db, filename: string, stamp: string) returns (r: Result<FileView>)
    requires db.Valid()
    modifies db`disk, db`files, db`nextFileId, db`Commits
    ensures db.Valid()
    ensures !FileService.ValidateFileType(filename) ==>
      && r == Err(Rethrow500("Error uploading file", Raise(400, "Only PDF files are allowed")))
      && db.files == old(db.files) && db.nextFileId == old(db.nextFileId)
      && db.disk == old(db.disk) && db.Commits == old(db.Commits)
    ensures FileService.ValidateFileType(filename) ==>
      var id, path := old(db.nextFileId), FileService.SavedPath(stamp, filename);
      && id !in old(db.files)
      && r == Ok(View(NewFile(id, filename, path, db.clock)))
      && db.files == old(db.files)[id := NewFile(id, filename, path, db.clock)]
      && db.nextFileId == id + 1
      && db.disk == old(db.disk) + {path}
      && db.Commits == old(db.Commits) + [db.State()]
    ensures old(Consistent(db.State())) ==> Consistent(db.State())
  {
    if filename == [] || !FileService.EndsWith(FileService.Lower(filename), ".pdf") {
      return Err(Rethrow500("Error uploading file", Raise(400, "Only PDF files are allowed")));
    }
    var path := FileService.SavedPath(stamp, filename);
    db.WriteFile(path);
    ghost var before := db.State();
    var id := db.InsertFile(filename, path);
    db.Commit();
    if Consistent(before) {
      UploadKeepsConsistent(before, id, filename, path, db.clock);
    }
    r := Ok(View(NewFile(id, filename, path, db.clock)));
  }

  /** `validate_receipt`: an unknown id changes nothing and fails; otherwise
      `is_valid` becomes whether the path exists on disk, `invalid_reason` is
      "File not found" exactly when it does not, and the other columns keep
      their values. */
  method ValidateReceipt(db: Db, fileId: int) returns (r: Result<FileView>)
    requires db.Valid()
    modifies db`files, db`Commits
    ensures db.Valid()
    ensures fileId !in old(db.files) ==>
      && r == Err(Rethrow500("Error validating file", Raise(404, "Receipt file not found")))
      && db.files == old(db.files) && db.Commits == old(db.Commits)
    ensures fileId in old(db.files) ==>
      var f := old(db.files)[fileId];
      var g := Validated(f, f.filePath in db.disk, db.clock);
      && db.files == old(db.files)[fileId := g]
      && r == Ok(View(g))
      && db.Commits == old(db.Commits) + [db.State()]
    ensures old(Consistent(db.State())) ==> Consistent(db.State())
  {
    var row := db.SelectFile(fileId);
    if row.None? {
      return Err(Rethrow500("Error validating file", Raise(404, "Receipt file not found")));
    }
    var f := row.value;
    ghost var before := db.State();
    var isValid := f.filePath in db.disk;
    var reason := if isValid then None else Some(FILE_NOT_FOUND);
    db.UpdateValidation(fileId, isValid, reason);
    db.Commit();
    if Consistent(before) {
      ValidateKeepsConsistent(before, fileId, isValid, db.clock);
    }
    r := Ok(FileView(f.id, f.fileName, f.filePath, isValid, reason, f.isProcessed, Some(f.createdAt), Some(db.clock)));
  }

  /** `process_receipt`: an unknown id (404) or a file not marked valid (400)
      fails and creates no receipt; otherwise one receipt for the file's path is
      inserted and the file marked processed, both in a single commit, and the
      receipt returned. `is_processed` is not consulted. */
  method ProcessReceipt(db: Db, fileId: int) returns (r: Result<ReceiptRecord>)
    requires db.Valid()
    modifies db`files, db`receipts, db`nextReceiptId, db`Commits
    ensures db.Valid()
    ensures fileId !in old(db.files) ==>
      && r == Err(Rethrow500("Error processing receipt", Raise(404, "Receipt file not found")))
      && db.files == old(db.files) && db.receipts == old(db.receipts)
      && db.nextReceiptId == old(db.nextReceiptId) && db.Commits == old(db.Commits)
    ensures fileId in old(db.files) && !old(db.files)[fileId].isValid ==>
      && r == Err(Rethrow500("Error processing receipt", Raise(400, "Cannot process invalid PDF file")))
      && db.files == old(db.files) && db.receipts == old(db.receipts)
      && db.nextReceiptId == old(db.nextReceiptId) && db.Commits == old(db.Commits)
    ensures fileId in old(db.files) && old(db.files)[fileId].isValid ==>
      var f, rid := old(db.files)[fileId], old(db.nextReceiptId);
      var rec := NewReceipt(rid, MockExtraction(), f.filePath, db.clock);
      && rid !in old(db.receipts) && db.nextReceiptId == rid + 1
      && db.receipts == old(db.receipts)[rid := rec]
      && |db.receipts| == |old(db.receipts)| + 1
      && db.files == old(db.files)[fileId := Processed(f, db.clock)]
      && r == Ok(rec)
      && db.Commits == old(db.Commits) + [db.State()]
    ensures old(Consistent(db.State())) ==> Consistent(db.State())
  {
    var row := db.SelectFile(fileId);
    if row.None? {
      return Err(Rethrow500("Error processing receipt", Raise(404, "Receipt file not found")));
    }
    var f := row.value;
    if !f.isValid {
      return Err(Rethrow500("Error processing receipt", Raise(400, "Cannot process invalid PDF file")));
    }
    var rec := InsertAndMark(db, fileId);
    r := Ok(rec);
  }

  /** The successful part of `process_receipt`: the receipt of a valid file is
      inserted and the file marked processed on one connection, then both are
      committed together. */
  method InsertAndMark(db: Db, fileId: int) returns (rec: ReceiptRecord)
    requires db.Valid() && fileId in db.files && db.files[fileId].isValid
    modifies db`files, db`receipts, db`nextReceiptId, db`Commits
    ensures db.Valid()
    ensures var f, rid := old(db.files)[fileId], old(db.nextReceiptId);
      && rid !in old(db.receipts) && db.nextReceiptId == rid + 1
      && rec == NewReceipt(rid, MockExtraction(), f.filePath, db.clock)
      && db.receipts == old(db.receipts)[rid := rec]
      && |db.receipts| == |old(db.receipts)| + 1
      && db.files == old(db.files)[fileId := Processed(f, db.clock)]
      && db.Commits == old(db.Commits) + [db.State()]
    ensures old(Consistent(db.State())) ==> Consistent(db.State())
  {
    ghost var before := db.State();
    ghost var commits := db.Commits;
    var f := db.files[fileId];
    var e := MockExtraction();
    var rid := db.InsertReceipt(e, f.filePath);
    rec := NewReceipt(rid, e, f.filePath, db.clock);
    assert db.receipts == before.receipts[rid := rec];
    db.UpdateProcessed(fileId);
    assert db.files == before.files[fileId := Processed(f, db.clock)];
    db.Commit();
    assert db.Commits == commits + [db.State()];
    assert |db.receipts| == |before.receipts| + 1 by {
      assert db.receipts.Keys == before.receipts.Keys + {rid};
    }
    ProcessStep(before, db.State(), fileId, rid, rec, db.clock);
  }

  /** `list_receipts`: the count of all receipts and the page that
      `LIMIT limit OFFSET skip` selects from the receipts ordered newest first. */
  method ListReceipts(db: Db, skip: int, limit: int) returns (r: ReceiptService.ReceiptPage)
    requires db.Valid()
    ensures r.total == |db.receipts|
    ensures r.receipts == Paging.Window(db.ReceiptsNewestFirst(), skip, limit)
    ensures limit >= 0 ==> |r.receipts| <= limit
    ensures Paging.Offset(skip) >= r.total ==> r.receipts == []
    ensures Paging.SortedDesc(r.receipts, ReceiptCreatedAt)
  {
    var total := |db.receipts|;
    var page := db.SelectReceiptPage(skip, limit);
    r := ReceiptService.ReceiptPage(page, total);
  }

  /** `get_receipt`: the stored receipt; an unknown id is a 404 raised inside
      the `try`, so it reaches the client as a 500. */
  function GetReceipt(db: Db, receiptId: int): (r: Result<ReceiptRecord>)
    reads db
    ensures r.Err? <==> receiptId !in db.receipts
    ensures r.Err? ==> r.error == Rethrow500("Error getting receipt", Raise(404, "Receipt not found"))
    ensures r.Ok? ==> r.value == db.receipts[receiptId]
  {
    match db.SelectReceipt(receiptId)
    case None => Err(Rethrow500("Error getting receipt", Raise(404, "Receipt not found")))
    case Some(rec) => Ok(rec)
  }

  /** `list_files`: every stored file exactly once, newest first. */
  method ListFiles(db: Db) returns (rows: seq<FileRecord>)
    requires db.Valid()
    ensures rows == db.FilesNewestFirst()
    ensures |rows| == |db.files|
    ensures forall id :: id in db.files ==> db.files[id] in rows
    ensures Paging.SortedDesc(rows, FileCreatedAt)
  {
    rows := db.SelectAllFiles();
  }

  /** `get_file`: every column of the stored file; an unknown id is a 404
      raised inside the `try`, so it reaches the client as a 500. */
  function GetFile(db: Db, fileId: int): (r: Result<FileView>)
    reads db
    ensures r.Err? <==> fileId !in db.files
    ensures r.Err? ==> r.error == Rethrow500("Error getting file", Raise(404, "File not found"))
    ensures r.Ok? ==> r.value == View(db.files[fileId])
  {
    match db.SelectFile(fileId)
    case None => Err(Rethrow500("Error getting file", Raise(404, "File not found")))
    case Some(f) => Ok(View(f))
  }
}
