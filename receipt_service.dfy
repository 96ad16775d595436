/** The receipt service: inserting the (mocked) extraction of a file, reading a
    receipt back, and the paged listing. */
module ReceiptService {
  import opened Common
  import opened Records
  import opened Database
  import Paging

  /** One page of the receipt listing and the number of receipts in all. */
  datatype ReceiptPage = ReceiptPage(receipts: seq<ReceiptRecord>, total: nat)

  /** `get_receipt`: the row with this id, or nothing; reads only. */
  function GetReceipt(db: Db, id: int): (r: Option<ReceiptRecord>)
    reads db
    ensures r.None? <==> id !in db.receipts
    ensures r.Some? ==> r.value == db.receipts[id]
  {
    db.SelectReceipt(id)
  }

  /** `create_receipt`: insert the extraction of the file at `filePath`, commit,
      and return the new id; reading that id back gives the inserted row. */
  method CreateReceipt(db: Db, filePath: string) returns (id: int)
    requires db.Valid()
    modifies db`receipts, db`nextReceiptId, db`Commits
    ensures db.Valid()
    ensures id == old(db.nextReceiptId) && id !in old(db.receipts) && db.nextReceiptId == id + 1
    ensures db.receipts == old(db.receipts)[id := NewReceipt(id, MockExtraction(), filePath, db.clock)]
    ensures GetReceipt(db, id) == Some(NewReceipt(id, MockExtraction(), filePath, db.clock))
    ensures db.Commits == old(db.Commits) + [db.State()]
  {
    id := db.InsertReceipt(MockExtraction(), filePath);
    db.Commit();
  }

  /** `get_all_receipts`: the count of all receipts, and the page that
      `LIMIT limit OFFSET skip` selects from the receipts ordered newest first. */
  method GetAllReceipts(db: Db, skip: int, limit: int) returns (r: ReceiptPage)
    requires db.Valid()
    ensures r.total == |db.receipts|
    ensures r.receipts == Paging.Window(db.ReceiptsNewestFirst(), skip, limit)
    ensures |r.receipts| == Paging.PageSize(r.total, skip, limit)
    ensures limit >= 0 ==> |r.receipts| <= limit
    ensures Paging.Offset(skip) >= r.total ==> r.receipts == []
    ensures forall k :: 0 <= k < |r.receipts| ==> r.receipts[k].id in db.receipts && db.receipts[r.receipts[k].id] == r.receipts[k]
    ensures Paging.SortedDesc(r.receipts, ReceiptCreatedAt)
  {
    var total := |db.receipts|;
    var page := db.SelectReceiptPage(skip, limit);
    r := ReceiptPage(page, total);
  }
}
