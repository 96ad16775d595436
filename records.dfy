/** The rows of the `receipt_file` and `receipt` tables, the mocked extraction
    and the invariants that tie the two tables together. */
module Records {
  import opened Common

  /** One line item of a receipt; prices are integer cents. */
  datatype Item = Item(name: string, price: int)

  /** A row of `receipt_file`. */
  datatype FileRecord = FileRecord(
    id: int,
    fileName: string,
    filePath: string,
    isValid: bool,
    invalidReason: Option<string>,
    isProcessed: bool,
    createdAt: nat,
    updatedAt: nat)

  /** A row of `receipt`; amounts are integer cents. */
  datatype ReceiptRecord = ReceiptRecord(
    id: int,
    purchasedAt: nat,
    merchantName: string,
    totalAmount: int,
    filePath: string,
    createdAt: nat,
    updatedAt: nat,
    items: seq<Item>,
    paymentMethod: string,
    taxAmount: int,
    subtotal: int,
    receiptNumber: string,
    cashier: string)

  /** The fields the extraction step produces for one receipt. */
  datatype Extraction = Extraction(
    merchantName: string,
    totalAmount: int,
    items: seq<Item>,
    paymentMethod: string,
    taxAmount: int,
    subtotal: int,
    receiptNumber: string,
    cashier: string)

  /** A file record as a handler returns it: some handlers answer with no timestamps. */
  datatype FileView = FileView(
    id: int,
    fileName: string,
    filePath: string,
    isValid: bool,
    invalidReason: Option<string>,
    isProcessed: bool,
    createdAt: Option<nat>,
    updatedAt: Option<nat>)

  /** The contents of both tables at one moment. */
  datatype Tables = Tables(files: map<int, FileRecord>, receipts: map<int, ReceiptRecord>)

  /** The reason validation records for a file whose path is not on disk. */
  const FILE_NOT_FOUND := "File not found"

  function FileCreatedAt(f: FileRecord): int { f.createdAt }
  function FileId(f: FileRecord): int { f.id }

  function ReceiptCreatedAt(r: ReceiptRecord): int { r.createdAt }

  /** The fixed result the mocked OCR step returns, whatever the file holds. */
  function MockExtraction(): (e: Extraction)
    ensures e.merchantName == "Sample Store"
    ensures e.totalAmount == e.subtotal + e.taxAmount
    ensures e.items == [Item("Sample Item", e.totalAmount)]
    ensures e.totalAmount == 2599 && e.taxAmount == 208
  {
    Extraction("Sample Store", 2599, [Item("Sample Item", 2599)], "CREDIT", 208, 2391, "12345", "John Doe")
  }

  /** The row an upload inserts: neither validated nor processed, no reason. */
  function NewFile(id: int, name: string, path: string, now: nat): (f: FileRecord)
    ensures f.id == id && f.fileName == name && f.filePath == path
    ensures !f.isValid && !f.isProcessed && f.invalidReason == None
    ensures f.createdAt == now && f.updatedAt == now
  {
    FileRecord(id, name, path, false, None, false, now, now)
  }

  /** The row processing inserts for extraction `e` of the file at `path`. */
  function NewReceipt(id: int, e: Extraction, path: string, now: nat): (r: ReceiptRecord)
    ensures r.id == id && r.filePath == path && r.createdAt == now && r.updatedAt == now
    ensures r.merchantName == e.merchantName && r.items == e.items
    ensures r.totalAmount == e.totalAmount && r.taxAmount == e.taxAmount && r.subtotal == e.subtotal
    ensures r.purchasedAt == now && r.paymentMethod == e.paymentMethod
    ensures r.receiptNumber == e.receiptNumber && r.cashier == e.cashier
  {
    ReceiptRecord(id, now, e.merchantName, e.totalAmount, path, now, now, e.items,
                  e.paymentMethod, e.taxAmount, e.subtotal, e.receiptNumber, e.cashier)
  }

  /** A stored file record with all of its columns, as the read handlers return it. */
  function View(f: FileRecord): (v: FileView)
    ensures v.id == f.id && v.fileName == f.fileName && v.filePath == f.filePath
    ensures v.isValid == f.isValid && v.invalidReason == f.invalidReason && v.isProcessed == f.isProcessed
    ensures v.createdAt == Some(f.createdAt) && v.updatedAt == Some(f.updatedAt)
  {
    FileView(f.id, f.fileName, f.filePath, f.isValid, f.invalidReason, f.isProcessed,
             Some(f.createdAt), Some(f.updatedAt))
  }

  /** The validation outcome for a file whose path does or does not exist. */
  function Validated(f: FileRecord, onDisk: bool, now: nat): (g: FileRecord)
    ensures g.isValid == onDisk
    ensures g.invalidReason.Some? <==> !g.isValid
    ensures g.invalidReason.Some? ==> g.invalidReason.value == FILE_NOT_FOUND
    ensures g == f.(isValid := g.isValid, invalidReason := g.invalidReason, updatedAt := now)
  {
    f.(isValid := onDisk, invalidReason := if onDisk then None else Some(FILE_NOT_FOUND), updatedAt := now)
  }

  /** The update `SET is_processed = TRUE, updated_at = now`. */
  function Processed(f: FileRecord, now: nat): (g: FileRecord)
    ensures g.isProcessed && g.updatedAt == now
    ensures g.(isProcessed := f.isProcessed, updatedAt := f.updatedAt) == f
  {
    f.(isProcessed := true, updatedAt := now)
  }

  /** Marking a file processed twice has the effect of marking it once. */
  lemma ProcessedIdempotent(f: FileRecord, t1: nat, t2: nat)
    ensures Processed(Processed(f, t1), t2) == Processed(f, t2)
  {
  }

  /** Validation outcomes only ever carry the one reason, and only on invalid files. */
  ghost predicate ReasonsCoherent(t: Tables)
  {
    forall id :: id in t.files ==>
      t.files[id].invalidReason == None
      || (t.files[id].invalidReason == Some(FILE_NOT_FOUND) && !t.files[id].isValid)
  }

  /** Every receipt was extracted from a file whose record is marked processed. */
  ghost predicate ReceiptsBacked(t: Tables)
  {
    forall r :: r in t.receipts ==>
      exists f :: f in t.files && t.files[f].isProcessed && t.files[f].filePath == t.receipts[r].filePath
  }

  /** Every file marked processed has a receipt extracted from its path. */
  ghost predicate ProcessedBacked(t: Tables)
  {
    forall f :: f in t.files && t.files[f].isProcessed ==>
      exists r :: r in t.receipts && t.receipts[r].filePath == t.files[f].filePath
  }

  /** The two tables agree on what has been processed. */
  ghost predicate Consistent(t: Tables)
  {
    ReasonsCoherent(t) && ReceiptsBacked(t) && ProcessedBacked(t)
  }

  /** An empty database is consistent. */
  lemma EmptyConsistent()
    ensures Consistent(Tables(map[], map[]))
  {
  }

  /** Inserting a fresh upload row keeps the tables consistent. */
  lemma UploadKeepsConsistent(t: Tables, id: int, name: string, path: string, now: nat)
    requires Consistent(t) && id !in t.files
    ensures Consistent(Tables(t.files[id := NewFile(id, name, path, now)], t.receipts))
  {
    var t' := Tables(t.files[id := NewFile(id, name, path, now)], t.receipts);
    assert ReasonsCoherent(t');
    UploadKeepsReceiptsBacked(t, id, name, path, now);
    UploadKeepsProcessedBacked(t, id, name, path, now);
  }

  lemma {:induction false} UploadKeepsReceiptsBacked(t: Tables, id: int, name: string, path: string, now: nat)
    requires ReceiptsBacked(t) && id !in t.files
    ensures ReceiptsBacked(Tables(t.files[id := NewFile(id, name, path, now)], t.receipts))
  {
    var files' := t.files[id := NewFile(id, name, path, now)];
    forall r | r in t.receipts
      ensures exists f :: f in files' && files'[f].isProcessed && files'[f].filePath == t.receipts[r].filePath
    {
      var f :| f in t.files && t.files[f].isProcessed && t.files[f].filePath == t.receipts[r].filePath;
      assert files'[f] == t.files[f];
    }
  }

  lemma {:induction false} UploadKeepsProcessedBacked(t: Tables, id: int, name: string, path: string, now: nat)
    requires ProcessedBacked(t) && id !in t.files
    ensures ProcessedBacked(Tables(t.files[id := NewFile(id, name, path, now)], t.receipts))
  {
    var files' := t.files[id := NewFile(id, name, path, now)];
    forall f | f in files' && files'[f].isProcessed
      ensures exists q :: q in t.receipts && t.receipts[q].filePath == files'[f].filePath
    {
      assert f != id && files'[f] == t.files[f];
    }
  }

  /** Recording a validation outcome keeps the tables consistent. */
  lemma ValidateKeepsConsistent(t: Tables, id: int, onDisk: bool, now: nat)
    requires Consistent(t) && id in t.files
    ensures Consistent(Tables(t.files[id := Validated(t.files[id], onDisk, now)], t.receipts))
  {
    var t' := Tables(t.files[id := Validated(t.files[id], onDisk, now)], t.receipts);
    assert ReasonsCoherent(t');
    ValidateKeepsReceiptsBacked(t, id, onDisk, now);
    ValidateKeepsProcessedBacked(t, id, onDisk, now);
  }

  lemma {:induction false} ValidateKeepsReceiptsBacked(t: Tables, id: int, onDisk: bool, now: nat)
    requires ReceiptsBacked(t) && id in t.files
    ensures ReceiptsBacked(Tables(t.files[id := Validated(t.files[id], onDisk, now)], t.receipts))
  {
    var files' := t.files[id := Validated(t.files[id], onDisk, now)];
    forall r | r in t.receipts
      ensures exists f :: f in files' && files'[f].isProcessed && files'[f].filePath == t.receipts[r].filePath
    {
      var f :| f in t.files && t.files[f].isProcessed && t.files[f].filePath == t.receipts[r].filePath;
      assert files'[f].isProcessed && files'[f].filePath == t.files[f].filePath;
    }
  }

  lemma {:induction false} ValidateKeepsProcessedBacked(t: Tables, id: int, onDisk: bool, now: nat)
    requires ProcessedBacked(t) && id in t.files
    ensures ProcessedBacked(Tables(t.files[id := Validated(t.files[id], onDisk, now)], t.receipts))
  {
    var files' := t.files[id := Validated(t.files[id], onDisk, now)];
    forall f | f in files' && files'[f].isProcessed
      ensures exists q :: q in t.receipts && t.receipts[q].filePath == files'[f].filePath
    {
      assert t.files[f].isProcessed && files'[f].filePath == t.files[f].filePath;
    }
  }

  /** Inserting the receipt of a file and marking that file processed, together,
      keep the tables consistent. */
  lemma ProcessKeepsConsistent(t: Tables, id: int, rid: int, r: ReceiptRecord, now: nat)
    requires Consistent(t) && id in t.files && rid !in t.receipts
    requires r.filePath == t.files[id].filePath
    ensures Consistent(Tables(t.files[id := Processed(t.files[id], now)], t.receipts[rid := r]))
  {
    var t' := Tables(t.files[id := Processed(t.files[id], now)], t.receipts[rid := r]);
    assert ReasonsCoherent(t');
    ProcessKeepsReceiptsBacked(t, id, rid, r, now);
    ProcessKeepsProcessedBacked(t, id, rid, r, now);
  }

  /** The processing step as a transition from `t` to `t2`: consistency carries over. */
  lemma ProcessStep(t: Tables, t2: Tables, id: int, rid: int, r: ReceiptRecord, now: nat)
    requires id in t.files && rid !in t.receipts && r.filePath == t.files[id].filePath
    requires t2 == Tables(t.files[id := Processed(t.files[id], now)], t.receipts[rid := r])
    ensures Consistent(t) ==> Consistent(t2)
  {
    if Consistent(t) {
      ProcessKeepsConsistent(t, id, rid, r, now);
    }
  }

  lemma {:induction false} ProcessKeepsReceiptsBacked(t: Tables, id: int, rid: int, r: ReceiptRecord, now: nat)
    requires ReceiptsBacked(t) && id in t.files
    requires r.filePath == t.files[id].filePath
    ensures ReceiptsBacked(Tables(t.files[id := Processed(t.files[id], now)], t.receipts[rid := r]))
  {
    var files' := t.files[id := Processed(t.files[id], now)];
    var receipts' := t.receipts[rid := r];
    forall q | q in receipts'
      ensures exists f :: f in files' && files'[f].isProcessed && files'[f].filePath == receipts'[q].filePath
    {
      if q == rid {
        assert files'[id].isProcessed && files'[id].filePath == r.filePath;
      } else {
        var f :| f in t.files && t.files[f].isProcessed && t.files[f].filePath == t.receipts[q].filePath;
        assert files'[f].isProcessed && files'[f].filePath == t.files[f].filePath;
      }
    }
  }

  lemma {:induction false} ProcessKeepsProcessedBacked(t: Tables, id: int, rid: int, r: ReceiptRecord, now: nat)
    requires ProcessedBacked(t) && id in t.files && rid !in t.receipts
    requires r.filePath == t.files[id].filePath
    ensures ProcessedBacked(Tables(t.files[id := Processed(t.files[id], now)], t.receipts[rid := r]))
  {
    var files' := t.files[id := Processed(t.files[id], now)];
    var receipts' := t.receipts[rid := r];
    forall f | f in files' && files'[f].isProcessed
      ensures exists q :: q in receipts' && receipts'[q].filePath == files'[f].filePath
    {
      if f == id {
        assert receipts'[rid].filePath == files'[f].filePath;
      } else {
        var q :| q in t.receipts && t.receipts[q].filePath == t.files[f].filePath;
        assert receipts'[q] == t.receipts[q];
      }
    }
  }

  /** A state in which the receipt of a file is stored but the file is not yet
      marked processed breaks consistency, unless another processed file shares
      the path. */
  lemma TornInsert(t: Tables, id: int, rid: int, r: ReceiptRecord)
    requires id in t.files && !t.files[id].isProcessed
    requires r.filePath == t.files[id].filePath
    requires forall f :: f in t.files && t.files[f].isProcessed ==> t.files[f].filePath != r.filePath
    ensures !ReceiptsBacked(Tables(t.files, t.receipts[rid := r]))
  {
    assert rid in t.receipts[rid := r];
  }
}
