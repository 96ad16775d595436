/** The SQLite database the handlers share, the upload directory on disk and the
    clock, as one in-memory store. Each method is one SQL statement (or one
    commit, one file operation, one tick of the clock). */
module Database {
  import opened Common
  import opened Records
  import Paging

  class Db {
    /** `receipt_file`, keyed by id. */
    var files: map<int, FileRecord>
    /** `receipt`, keyed by id. */
    var receipts: map<int, ReceiptRecord>
    /** The id the next INSERT INTO receipt_file assigns (AUTOINCREMENT starts at 1). */
    var nextFileId: nat
    /** The id the next INSERT INTO receipt assigns. */
    var nextReceiptId: nat
    /** The paths that exist on disk: what `os.path.exists` answers. */
    var disk: set<string>
    /** The value `datetime.utcnow()` reads; it never runs backwards. */
    var clock: nat
    /** The contents of both tables at each commit, oldest first. */
    ghost var Commits: seq<Tables>

    ghost predicate Valid()
      reads this
    {
      && 1 <= nextFileId && 1 <= nextReceiptId
      && (forall id :: id in files ==> 1 <= id < nextFileId && files[id].id == id && files[id].createdAt <= clock)
      && (forall id :: id in receipts ==> 1 <= id < nextReceiptId && receipts[id].id == id && receipts[id].createdAt <= clock)
      && Paging.MonotoneInId(files, FileCreatedAt)
      && Paging.MonotoneInId(receipts, ReceiptCreatedAt)
    }

    /** Both tables as they stand now. */
    function State(): Tables
      reads this
    {
      Tables(files, receipts)
    }

    /** A fresh database with empty tables and an empty upload directory. */
    constructor ()
      ensures Valid()
      ensures files == map[] && receipts == map[] && nextFileId == 1 && nextReceiptId == 1
      ensures disk == {} && clock == 0 && Commits == []
    {
      files, receipts := map[], map[];
      nextFileId, nextReceiptId := 1, 1;
      disk, clock := {}, 0;
      Commits := [];
    }

    /** Time passing between requests. */
    method AdvanceClock(dt: nat)
      requires Valid()
      modifies this`clock
      ensures Valid() && clock == old(clock) + dt
    {
      clock := clock + dt;
    }

    /** Writing the uploaded bytes to `path`. */
    method WriteFile(path: string)
      modifies this`disk
      ensures disk == old(disk) + {path}
    {
      disk := disk + {path};
    }

    /** A file deleted from disk by something outside the system. */
    method RemoveFile(path: string)
      modifies this`disk
      ensures disk == old(disk) - {path}
      ensures old(Valid()) ==> Valid()
    {
      disk := disk - {path};
    }

    /** `conn.commit()`: the current contents of both tables become durable. */
    method Commit()
      modifies this`Commits
      ensures Commits == old(Commits) + [State()]
    {
      Commits := Commits + [State()];
    }

    /** `INSERT INTO receipt_file (file_name, file_path, is_valid, is_processed, created_at, updated_at)`
        with both flags false; returns `lastrowid`. */
    method InsertFile(name: string, path: string) returns (id: int)
      requires Valid()
      modifies this`files, this`nextFileId
      ensures Valid()
      ensures id == old(nextFileId) && id !in old(files) && nextFileId == id + 1
      ensures files == old(files)[id := NewFile(id, name, path, clock)]
    {
      id := nextFileId;
      files := files[id := NewFile(id, name, path, clock)];
      nextFileId := nextFileId + 1;
    }

    /** `UPDATE receipt_file SET is_valid = ?, invalid_reason = ?, updated_at = ? WHERE id = ?`;
        an id that matches no row changes nothing. */
    method UpdateValidation(id: int, isValid: bool, reason: Option<string>)
      requires Valid()
      modifies this`files
      ensures Valid()
      ensures id in old(files) ==>
        files == old(files)[id := old(files)[id].(isValid := isValid, invalidReason := reason, updatedAt := clock)]
      ensures id !in old(files) ==> files == old(files)
    {
      if id in files {
        files := files[id := files[id].(isValid := isValid, invalidReason := reason, updatedAt := clock)];
      }
    }

    /** `UPDATE receipt_file SET is_processed = TRUE, updated_at = ? WHERE id = ?`;
        an id that matches no row changes nothing. */
    method UpdateProcessed(id: int)
      requires Valid()
      modifies this`files
      ensures Valid()
      ensures id in old(files) ==> files == old(files)[id := Processed(old(files)[id], clock)]
      ensures id !in old(files) ==> files == old(files)
    {
      if id in files {
        files := files[id := Processed(files[id], clock)];
      }
    }

    /** `INSERT INTO receipt (...)` of the extracted fields `e` for the file at `path`;
        returns `lastrowid`. */
    method InsertReceipt(e: Extraction, path: string) returns (id: int)
      requires Valid()
      modifies this`receipts, this`nextReceiptId
      ensures Valid()
      ensures id == old(nextReceiptId) && id !in old(receipts) && nextReceiptId == id + 1
      ensures receipts == old(receipts)[id := NewReceipt(id, e, path, clock)]
    {
      id := nextReceiptId;
      receipts := receipts[id := NewReceipt(id, e, path, clock)];
      nextReceiptId := nextReceiptId + 1;
    }

    /** `SELECT * FROM receipt_file WHERE id = ?`: the row, or nothing for an unknown id. */
    function SelectFile(id: int): (r: Option<FileRecord>)
      reads this
      ensures r.None? <==> id !in files
      ensures r.Some? ==> r.value == files[id] && (Valid() ==> r.value.id == id)
    {
      if id in files then Some(files[id]) else None
    }

    /** `SELECT * FROM receipt WHERE id = ?`: the row, or nothing for an unknown id. */
    function SelectReceipt(id: int): (r: Option<ReceiptRecord>)
      reads this
      ensures r.None? <==> id !in receipts
      ensures r.Some? ==> r.value == receipts[id] && (Valid() ==> r.value.id == id)
    {
      if id in receipts then Some(receipts[id]) else None
    }

    /** All file rows, most recent first. */
    function FilesNewestFirst(): seq<FileRecord>
      reads this
    {
      Paging.NewestFirst(files, nextFileId)
    }

    /** All receipt rows, most recent first. */
    function ReceiptsNewestFirst(): seq<ReceiptRecord>
      reads this
    {
      Paging.NewestFirst(receipts, nextReceiptId)
    }

    /** `SELECT * FROM receipt_file ORDER BY created_at DESC`, each row appended to
        the result in turn: every stored file exactly once, newest first. */
    method SelectAllFiles() returns (rows: seq<FileRecord>)
      requires Valid()
      ensures rows == FilesNewestFirst()
      ensures |rows| == |files|
      ensures forall k :: 0 <= k < |rows| ==> rows[k].id in files && files[rows[k].id] == rows[k]
      ensures forall id :: id in files ==> files[id] in rows
      ensures forall i, j :: 0 <= i < j < |rows| ==> rows[i].id > rows[j].id
      ensures Paging.SortedDesc(rows, FileCreatedAt)
    {
      var ids := Paging.IdsDesc(files.Keys, nextFileId);
      rows := [];
      for k := 0 to |ids|
        invariant |rows| == k
        invariant forall j :: 0 <= j < k ==> rows[j] == files[ids[j]]
      {
        rows := rows + [files[ids[k]]];
      }
      assert rows == FilesNewestFirst();
      Paging.NewestFirstListing(files, nextFileId, FileCreatedAt, FileId);
    }

    /** `SELECT * FROM receipt ORDER BY created_at DESC LIMIT limit OFFSET skip`, each
        row appended to the page in turn: the slice of the newest-first listing that
        SQLite's LIMIT/OFFSET rule selects. */
    method SelectReceiptPage(skip: int, limit: int) returns (page: seq<ReceiptRecord>)
      requires Valid()
      ensures page == Paging.Window(ReceiptsNewestFirst(), skip, limit)
      ensures |page| == Paging.PageSize(|receipts|, skip, limit)
      ensures limit >= 0 ==> |page| <= limit
      ensures Paging.Offset(skip) >= |receipts| ==> page == []
      ensures forall k :: 0 <= k < |page| ==> page[k].id in receipts && receipts[page[k].id] == page[k]
      ensures Paging.SortedDesc(page, ReceiptCreatedAt)
    {
      var all := Paging.IdsDesc(receipts.Keys, nextReceiptId);
      var ids := Paging.Window(all, skip, limit);
      page := [];
      for k := 0 to |ids|
        invariant |page| == k
        invariant forall j :: 0 <= j < k ==> page[j] == receipts[ids[j]]
      {
        page := page + [receipts[ids[k]]];
      }
      Paging.RowsWindow(receipts, all, skip, limit);
      assert page == Paging.Window(ReceiptsNewestFirst(), skip, limit);
      forall k | 0 <= k < |page| ensures page[k].id in receipts && receipts[page[k].id] == page[k] {
        assert page[k] == receipts[ids[k]];
      }
      Paging.NewestFirstLength(receipts, nextReceiptId);
      Paging.NewestFirstSorted(receipts, nextReceiptId, ReceiptCreatedAt);
      Paging.WindowSorted(ReceiptsNewestFirst(), skip, limit, ReceiptCreatedAt);
    }
  }
}
