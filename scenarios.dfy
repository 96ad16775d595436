/** Request sequences run against a fresh database, showing which lifecycle
    states the handlers can reach and what a client observes on the way. */
module Scenarios {
  import opened Common
  import opened Records
  import opened Database
  import FileService
  import Routes
  import SimpleServer

  /** A timestamp as `strftime("%Y%m%d_%H%M%S")` renders it. */
  const STAMP := "20240115_093000"

  /** Where an upload of "r.pdf" at `STAMP` is saved. */
  const PATH := FileService.SavedPath(STAMP, "r.pdf")

  /** Upload, validate and process a receipt, then read both records back: the
      receipt carries the extracted fields and the file is marked processed. */
  method UploadValidateProcess() returns (rec: ReceiptRecord, file: FileView)
    ensures rec.merchantName == "Sample Store" && rec.items == [Item("Sample Item", 2599)]
    ensures rec.totalAmount == 2599 && rec.subtotal == 2391 && rec.taxAmount == 208
    ensures rec.filePath == PATH
    ensures file.fileName == "r.pdf" && file.isValid && file.invalidReason == None && file.isProcessed
  {
    var db, id, stored := ServerProcessedOnce();
    var got := SimpleServer.GetReceipt(db, stored.id);
    var f := SimpleServer.GetFile(db, id);
    rec, file := got.value, f.value;
  }

  /** A file deleted from disk between upload and validation is recorded as
      invalid with the reason "File not found". */
  method DeletedBeforeValidation() returns (file: FileView)
    ensures !file.isValid && file.invalidReason == Some(FILE_NOT_FOUND) && !file.isProcessed
  {
    var db, id := ServerUpload();
    db.RemoveFile(PATH);
    var v := SimpleServer.ValidateReceipt(db, id);
    file := v.value;
  }

  /** Nothing stops a processed file from being validated again: once its file
      is gone it is both processed and invalid, and processing it is refused. */
  method ProcessedThenInvalid() returns (file: FileRecord, again: Result<ReceiptRecord>)
    ensures file.isProcessed && !file.isValid && file.invalidReason == Some(FILE_NOT_FOUND)
    ensures again.Err? && Cause(again.error) == Some(Raise(400, "Cannot process invalid PDF file"))
  {
    var db, id, rec := ServerProcessedOnce();
    db.RemoveFile(PATH);
    assert id in db.files && db.files[id].filePath !in db.disk;
    var v := SimpleServer.ValidateReceipt(db, id);
    assert id in db.files;
    file := db.files[id];
    again := SimpleServer.ProcessReceipt(db, id);
  }

  /** A receipt processed later is listed before an earlier one. */
  method LaterReceiptListedFirst() returns (page: seq<ReceiptRecord>)
    ensures |page| == 2 && page[0].id == 2 && page[1].id == 1
    ensures page[0].createdAt > page[1].createdAt
  {
    var db, refused := TwoReceiptsApart();
    var listing := SimpleServer.ListReceipts(db, 0, 100);
    page := listing.receipts;
    ghost var keys := db.receipts.Keys;
    assert Paging.IdsDesc(keys, 3) == [2, 1] by {
      assert Paging.IdsDesc(keys, 1) == [];
      assert Paging.IdsDesc(keys, 2) == [1];
    }
    assert db.ReceiptsNewestFirst() == [db.receipts[2], db.receipts[1]];
    Paging.WindowUnbounded(db.ReceiptsNewestFirst(), 0, 100);
  }

  /** A fresh store after a refused process request, then two processings of one
      file with time passing in between: the refused request used up no id, so
      the receipts are 1 and 2, created at times 0 and 1. */
  method TwoReceiptsApart() returns (db: Db, refused: Result<ReceiptRecord>)
    ensures fresh(db) && db.Valid() && refused.Err?
    ensures db.receipts.Keys == {1, 2} && db.nextReceiptId == 3
    ensures db.receipts[1].id == 1 && db.receipts[2].id == 2
    ensures db.receipts[1].createdAt == 0 && db.receipts[2].createdAt == 1
  {
    var id, rec;
    db, id, refused, rec := ServerRefusedThenOnce();
    db.AdvanceClock(1);
    ghost var before := db.receipts;
    assert db.files[id].isValid && db.nextReceiptId == 2 && db.clock == 1;
    var p2 := SimpleServer.ProcessReceipt(db, id);
    assert db.receipts == before[2 := p2.value] && p2.value.createdAt == 1;
    assert db.receipts.Keys == before.Keys + {2};
  }

  /** A refused process request for an unknown id, then one processing of a
      valid file: the receipt gets id 1 although a request came first. */
  method ServerRefusedThenOnce() returns (db: Db, id: int, refused: Result<ReceiptRecord>, rec: ReceiptRecord)
    ensures fresh(db) && db.Valid() && refused.Err?
    ensures id in db.files && db.files[id].isValid
    ensures db.receipts == map[1 := rec] && rec.id == 1 && rec.createdAt == 0
    ensures db.nextReceiptId == 2 && db.clock == 0
  {
    db, id := ServerValidUpload();
    assert id + 1 !in db.files;
    refused := SimpleServer.ProcessReceipt(db, id + 1);
    assert db.files[id].isValid && db.receipts == map[] && db.nextReceiptId == 1 && db.clock == 0;
    var p := SimpleServer.ProcessReceipt(db, id);
    rec := p.value;
  }

  /** A fresh store after one upload of "r.pdf" by the single server: one file,
      not yet validated, saved on disk; no receipts; clock still at 0. */
  method ServerUpload() returns (db: Db, id: int)
    ensures fresh(db) && db.Valid()
    ensures db.files == map[id := NewFile(id, "r.pdf", PATH, 0)] && PATH in db.disk
    ensures db.receipts == map[] && db.nextReceiptId == 1 && db.clock == 0
  {
    db := new Db();
    assert FileService.ValidateFileType("r.pdf");
    var up := SimpleServer.UploadReceipt(db, "r.pdf", STAMP);
    id := up.value.id;
  }

  /** The store of `ServerUpload` after the file is validated: its only file
      is valid and not processed. */
  method ServerValidUpload() returns (db: Db, id: int)
    ensures fresh(db) && db.Valid()
    ensures db.files.Keys == {id} && db.files[id].isValid && !db.files[id].isProcessed
    ensures db.files[id].fileName == "r.pdf" && db.files[id].filePath == PATH && PATH in db.disk
    ensures db.files[id].invalidReason == None
    ensures db.receipts == map[] && db.nextReceiptId == 1 && db.clock == 0
  {
    db, id := ServerUpload();
    var v := SimpleServer.ValidateReceipt(db, id);
  }

  /** The store of `ServerValidUpload` after the file is processed: one
      receipt, built from the mock extraction, and the file marked processed. */
  method ServerProcessedOnce() returns (db: Db, id: int, rec: ReceiptRecord)
    ensures fresh(db) && db.Valid()
    ensures id in db.files && db.files[id].isValid && db.files[id].isProcessed
    ensures db.files[id].fileName == "r.pdf" && db.files[id].invalidReason == None
    ensures db.files[id].filePath == PATH && PATH in db.disk
    ensures db.receipts == map[rec.id := rec] && rec == NewReceipt(1, MockExtraction(), PATH, 0)
  {
    db, id := ServerValidUpload();
    ghost var f := db.files[id];
    var p := SimpleServer.ProcessReceipt(db, id);
    rec := p.value;
    assert db.files[id] == Processed(f, 0);
  }

  /** Processing a valid file twice stores two receipts for the same path. */
  method ProcessTwice() returns (first: Option<ReceiptRecord>, second: Option<ReceiptRecord>, total: nat)
    ensures first.Some? && second.Some?
    ensures first.value.id != second.value.id && first.value.filePath == second.value.filePath
    ensures total == 2
  {
    var db, id := RoutesValidUpload();
    var p1 := Routes.ProcessReceipt(db, id);
    assert id in db.files && db.files[id].isValid && db.files[id].filePath == PATH;
    assert |db.receipts| == 1 && db.nextReceiptId == 2;
    var p2 := Routes.ProcessReceipt(db, id);
    first, second := p1.value, p2.value;
    total := |db.receipts|;
  }

  /** A fresh database after one upload and its validation through the routes:
      its only file is valid and not yet processed, and no receipt exists. */
  method RoutesValidUpload() returns (db: Db, id: int)
    ensures fresh(db) && db.Valid()
    ensures id in db.files && db.files == map[id := db.files[id]]
    ensures db.files[id].isValid && !db.files[id].isProcessed && db.files[id].invalidReason == None
    ensures db.files[id].filePath == PATH
    ensures db.receipts == map[] && db.nextReceiptId == 1
  {
    db := new Db();
    assert FileService.ValidateFileType("r.pdf");
    var up := Routes.UploadReceipt(db, "r.pdf", STAMP);
    id := up.value.id;
    assert db.files.Keys == {id} && db.files[id].filePath in db.disk;
    var v := Routes.ValidateReceipt(db, id);
  }

  /** Processing through the routes commits the receipt before the processed
      flag: the first of its two commits holds a receipt whose file is not
      marked processed. */
  method RoutesTornCommit() returns (db: Db)
    ensures |db.Commits| >= 2
    ensures !ReceiptsBacked(db.Commits[|db.Commits| - 2])
  {
    var id;
    db, id := RoutesValidUpload();
    ghost var f := db.files[id];
    ghost var n := |db.Commits|;
    var p := Routes.ProcessReceipt(db, id);
    var rec := p.value.value;
    assert |db.Commits| == n + 2;
    assert db.Commits[n] == Tables(map[id := f], map[rec.id := rec]);
    TornInsert(Tables(map[id := f], map[]), id, rec.id, rec);
  }

  /** The single-file server's processing makes one commit, and from a
      consistent database that commit is consistent and holds the one new
      receipt. */
  method ServerSingleCommit() returns (db: Db)
    ensures |db.Commits| >= 1
    ensures Consistent(db.Commits[|db.Commits| - 1]) && |db.Commits[|db.Commits| - 1].receipts| == 1
  {
    var id;
    db, id := ServerValidUpload();
    OneUnprocessedConsistent(id, db.files[id]);
    assert Consistent(db.State());
    var p := SimpleServer.ProcessReceipt(db, id);
  }

  /** One valid file that is not processed, and no receipt, make a consistent
      store. */
  lemma OneUnprocessedConsistent(id: int, f: FileRecord)
    requires !f.isProcessed && f.invalidReason == None
    ensures Consistent(Tables(map[id := f], map[]))
  {
  }
}
