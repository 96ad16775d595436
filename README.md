# Receipt processing: the file and receipt lifecycle

This project models the core of a small receipt-processing web service. A
client uploads a PDF, asks the service to validate it, and then asks it to
process it. Processing runs a mocked OCR step that always produces the same
extraction and stores it as a receipt. Two tables hold the state:
`receipt_file` (one row per upload, with the two flags `is_valid` and
`is_processed`) and `receipt` (one row per extraction). The service exists
twice:

- the single-file server, `simple_server.py`;
- the split application: the routes in `app/api/routes.py` over the file and
  receipt services.

Both are modelled over one store, the class `Database.Db`. It holds:

- both tables as maps from id to row;
- the two AUTOINCREMENT counters;
- the paths that exist on disk, which is what `os.path.exists` answers;
- a logical clock in place of `datetime.utcnow()`;
- a ghost log of the table contents at each `commit()`.

Each statement that writes (INSERT, UPDATE), each file write and each commit
is one method of the class. The two list queries are methods with loops. The
single-row SELECTs are functions of the class. `SELECT COUNT(*)` is the size
of the receipt map, read inline. The handlers that change state, and the
list handlers, are methods over a `Db`; the get-by-id handlers are functions
of it. Their contracts state, for every branch, the returned value or error
and, where state changes, the new contents of both tables.

The modules:

- `common.dfy`: `Option`, `Result` and the HTTP errors. `Rethrow500` models a
  handler that catches an exception and re-raises it as a 500 wrapping the
  original.
- `records.dfy`:
  - the rows and the mocked extraction, with amounts in integer cents;
  - the row updates of validation and processing;
  - the cross-table invariant `Consistent`, under which every receipt has a
    processed file with its path, and every processed file has a receipt.
- `paging.dfy`: the order `ORDER BY created_at DESC` and SQLite's
  `LIMIT ? OFFSET ?`. A negative LIMIT means no bound, and a negative OFFSET
  acts as 0. Rows are created with a clock that never runs backwards, so
  `created_at` never decreases as the id grows. Listing in descending id
  order is therefore one of the orders the query may return. The code promises
  only that `created_at` does not increase down the list. Among rows with equal
  `created_at` the listing contracts fix descending id order, which is the
  model's choice of one allowed order.
- `database.dfy`: the store class and one method per statement. The two list
  queries are loops that append row by row.
- `file_service.dfy`, `receipt_service.dfy`: the two services of the split
  application. Each service call commits on its own.
- `routes.dfy`, `simple_server.dfy`: the handlers of the two implementations.
- `scenarios.dfy`: request sequences on a fresh store. They show that all
  four combinations of the two flags can be reached, and how the two
  implementations differ in atomicity.

Where the written description of the service and the code disagree, the model
follows the code:

- The lifecycle is two independent booleans, not a single state.
- Neither validation nor processing checks the current state. A processed
  file can be validated again and become invalid, and a valid file can be
  processed again, which stores a second receipt.
- The reason recorded for a missing file is exactly "File not found".
- In `simple_server.py` the 404s of `get_receipt` and `get_file` are raised
  inside the `try`, so the client receives a 500 wrapping them. In the routes
  these two 404s are not wrapped.

## Model

| member | source | states |
|---|---|---|
| Common.Raise | simple_server.py:73 | the raised error carries the given status and a plain message |
| Common.Rethrow500 | simple_server.py:115-116 | `except Exception` re-raises as status 500, and the caught error is its cause |
| Records.MockExtraction | simple_server.py:182-193 | merchant "Sample Store"; one item priced at the total; total 2599 = subtotal 2391 + tax 208 (cents) |
| Records.NewFile | simple_server.py:92-95 | an uploaded row is neither valid nor processed, has no reason, and carries the given name, path and time |
| Records.NewReceipt | simple_server.py:196-209 | an inserted receipt carries the file's path, every field of the extraction (merchant, total, items, payment method, tax, subtotal, receipt number, cashier) and the insert time as both `purchased_at` and its timestamps |
| Records.View | simple_server.py:356-365 | the read handlers return every column of the row, timestamps included |
| Records.Validated | simple_server.py:134-142 | `is_valid` is whether the path is on disk; a reason is present iff invalid, and it is "File not found"; only `is_valid`, `invalid_reason` and `updated_at` change |
| Records.Processed | simple_server.py:214-218 | `is_processed` becomes true and `updated_at` the current time; no other column changes |
| Records.ProcessedIdempotent | app/services/file_service.py:97-101 | marking a file processed twice leaves it as marking it once does |
| Records.EmptyConsistent | backend/app/models/database.py:14-44 | the freshly created empty tables satisfy the cross-table invariant |
| Records.UploadKeepsConsistent | simple_server.py:92-98 | inserting a fresh upload row preserves the invariant |
| Records.UploadKeepsReceiptsBacked | simple_server.py:92-98 | a fresh upload row is unprocessed and changes no existing file row, so every receipt keeps its processed file |
| Records.UploadKeepsProcessedBacked | simple_server.py:92-98 | a fresh upload row is not processed, so every processed file is an old one and keeps its receipt |
| Records.ValidateKeepsConsistent | simple_server.py:134-144 | recording a validation outcome preserves the invariant |
| Records.ValidateKeepsReceiptsBacked | simple_server.py:138-142 | validation keeps every receipt backed by a processed file with its path |
| Records.ValidateKeepsProcessedBacked | simple_server.py:138-142 | validation keeps every processed file backed by a receipt for its path |
| Records.ProcessKeepsConsistent | simple_server.py:196-220 | inserting a file's receipt together with marking the file processed preserves the invariant |
| Records.ProcessStep | simple_server.py:196-220 | the state after that insert and update is consistent whenever the state before it was |
| Records.ProcessKeepsReceiptsBacked | simple_server.py:196-218 | after processing, every receipt, the new one included, has a processed file with its path |
| Records.ProcessKeepsProcessedBacked | simple_server.py:196-218 | after processing, every processed file, the newly marked one included, has a receipt for its path |
| Records.TornInsert | app/api/routes.py:90-94 | a state holding a file's receipt while the file is not yet marked processed violates the invariant, provided no other processed file has the same path |
| Paging.Window | simple_server.py:245-249 | `LIMIT limit OFFSET skip` keeps the contiguous slice starting at the offset; its length follows SQLite's rule; at most `limit` rows when the limit is not negative; empty when the offset reaches the count |
| Paging.WindowConsecutive | simple_server.py:245-249 | a page of n rows followed by the page of m rows at the next offset is the page of n + m rows |
| Paging.WindowUnbounded | app/api/routes.py:104-107 | no offset and no effective limit give back every row |
| Paging.IdsDesc | simple_server.py:320 | the listed ids are stored ids below the counter |
| Paging.IdsDescDecreasing | simple_server.py:320 | ids come strictly largest first, so none is listed twice |
| Paging.IdsDescComplete | simple_server.py:320 | every stored id is listed |
| Paging.IdsDescLength | simple_server.py:320 | the listing is exactly as long as the set of stored ids |
| Paging.NewestFirstLength | simple_server.py:320 | the newest-first listing has one row per stored row |
| Paging.NewestFirstComplete | simple_server.py:320 | every stored row appears in the newest-first listing |
| Paging.NewestFirstSorted | simple_server.py:246-247 | the newest-first listing never increases in `created_at` |
| Paging.NewestFirstListing | app/services/file_service.py:114-127 | every row exactly once, each equal to the row stored under its id, ids strictly decreasing, `created_at` non-increasing |
| Paging.WindowSorted | simple_server.py:245-249 | a page of a listing sorted by `created_at` is itself sorted |
| Paging.RowsWindow | simple_server.py:245-252 | paging the ids and then fetching their rows gives the page of the rows |
| Database.Db.constructor | backend/app/models/database.py:8-47 | a new store has empty tables, counters at 1, an empty upload directory and no commits |
| Database.Db.WriteFile | simple_server.py:85-86 | the path exists on disk afterwards |
| Database.Db.Commit | simple_server.py:220 | the tables as they stand are appended to the commit log |
| Database.Db.InsertFile | simple_server.py:92-97 | exactly one row is added, under a fresh id equal to the counter, which advances; other rows are unchanged |
| Database.Db.UpdateValidation | simple_server.py:138-142 | only the row with the id changes, and only its validation columns; an unknown id changes nothing |
| Database.Db.UpdateProcessed | simple_server.py:214-218 | only the row with the id is marked processed; an unknown id changes nothing |
| Database.Db.InsertReceipt | simple_server.py:196-211 | exactly one receipt is added, under a fresh id; other receipts are unchanged |
| Database.Db.SelectFile | simple_server.py:126-127 | nothing iff the id is unknown, otherwise the stored row, whose id is the one asked for |
| Database.Db.SelectReceipt | simple_server.py:286-287 | nothing iff the id is unknown, otherwise the stored receipt |
| Database.Db.SelectAllFiles | simple_server.py:320-333 | the loop returns every stored file exactly once, ids strictly decreasing, `created_at` non-increasing |
| Database.Db.SelectReceiptPage | simple_server.py:245-267 | the loop returns the LIMIT/OFFSET page of the newest-first receipts: SQLite's page size, at most `limit`, empty past the end, stored rows, sorted |
| FileService.ValidateFileType | app/services/file_service.py:28-32 | true iff the name's last four characters are '.', 'p', 'd', 'f' in any case; the empty name is refused |
| FileService.LowerEndsWithPdf | app/services/file_service.py:30 | the lower-cased name ends in ".pdf" iff its last four characters spell ".pdf" in any mix of cases |
| FileService.SavedPath | app/services/file_service.py:16-18 | the path always ends with "_" + filename; for a strftime-shaped stamp it is "uploads/" + stamp + "_" + filename |
| FileService.SavedPathInjective | app/services/file_service.py:16-18 | two uploads collide on disk only if they share both the second-resolution stamp and the filename |
| FileService.SaveUploadedFile | app/services/file_service.py:12-24 | returns the saved path, which now exists on disk |
| FileService.CreateFileRecord | app/services/file_service.py:38-56 | returns a fresh id whose row is neither valid nor processed; other rows are unchanged; one commit |
| FileService.GetFileRecord | app/services/file_service.py:60-70 | nothing iff the id is unknown, otherwise the stored row; reads only |
| FileService.UpdateFileValidation | app/services/file_service.py:74-89 | overwrites only `is_valid`, `invalid_reason` and `updated_at` of the id; an unknown id changes no row; one commit |
| FileService.MarkFileProcessed | app/services/file_service.py:91-106 | sets only `is_processed` and `updated_at` of the id; an unknown id changes no row; one commit |
| FileService.GetAllFiles | app/services/file_service.py:108-130 | every stored file exactly once, each as stored, newest first |
| ReceiptService.GetReceipt | app/services/receipt_service.py:58-89 | nothing iff the id is unknown, otherwise the stored receipt |
| ReceiptService.CreateReceipt | app/services/receipt_service.py:10-56 | exactly one receipt is added for the path, with a fresh id; reading that id back returns it; one commit |
| ReceiptService.GetAllReceipts | app/services/receipt_service.py:91-134 | `total` is the count of all receipts whatever `skip` and `limit` are; the page is the LIMIT/OFFSET slice of the newest-first receipts, at most `limit` long, empty past the end, sorted |
| Routes.UploadReceipt | app/api/routes.py:14-43 | a name that is not a PDF is a 500 wrapping a 400, and nothing is written; otherwise one new unvalidated, unprocessed row under a fresh id, returned without timestamps; the invariant is kept |
| Routes.ValidateReceipt | app/api/routes.py:45-75 | an unknown id is a 500 wrapping a 404 and changes nothing; otherwise `is_valid` is whether the path exists and the reason is "File not found" iff invalid; invariant kept |
| Routes.ProcessReceipt | app/api/routes.py:77-102 | an unknown id or an invalid file is a 500 and no receipt is created; otherwise the receipt count grows by one, the file is marked processed, the receipt is read back, and there are two commits, the first holding the receipt but not the flag; a refusal leaves the receipt id counter as it was, a success uses up exactly one id |
| Routes.CreateAndMark | app/api/routes.py:90-99 | for a valid file: the new receipt under the next id, which the counter then passes, and the processed flag, in two commits |
| Routes.ListReceipts | app/api/routes.py:104-107 | the service's total and newest-first page, passed through |
| Routes.GetReceipt | app/api/routes.py:109-117 | an unknown id is a bare 404; otherwise the stored receipt |
| Routes.ListFiles | app/api/routes.py:119-122 | every stored file exactly once, newest first |
| Routes.GetFile | app/api/routes.py:124-141 | an unknown id is a bare 404; otherwise every column of the stored row |
| SimpleServer.UploadReceipt | simple_server.py:67-116 | a name that is not a PDF is a 500 wrapping a 400, and nothing is written; otherwise one new unvalidated, unprocessed row under a fresh id, committed once and returned; invariant kept |
| SimpleServer.ValidateReceipt | simple_server.py:118-160 | an unknown id is a 500 wrapping a 404 and changes nothing; otherwise `is_valid` is whether the path exists and the reason is "File not found" iff invalid; other columns kept; invariant kept |
| SimpleServer.ProcessReceipt | simple_server.py:162-231 | an unknown id or an invalid file is a 500 and no receipt is created; otherwise exactly one receipt for the file's path and the processed flag, in a single commit; `is_processed` is not consulted; a refusal leaves the receipt id counter as it was, a success uses up exactly one id |
| SimpleServer.InsertAndMark | simple_server.py:195-221 | for a valid file: the new receipt under the next id, which the counter then passes, and the processed flag, committed together |
| SimpleServer.ListReceipts | simple_server.py:233-277 | `total` is the count of all receipts; the page is the LIMIT/OFFSET slice of the newest-first receipts, at most `limit` long, empty past the end, sorted |
| SimpleServer.GetReceipt | simple_server.py:279-311 | an unknown id is a 404 wrapped in a 500; otherwise the stored receipt |
| SimpleServer.ListFiles | simple_server.py:313-339 | every stored file exactly once, newest first |
| SimpleServer.GetFile | simple_server.py:341-368 | an unknown id is a 404 wrapped in a 500; otherwise every column of the stored row |
| Scenarios.UploadValidateProcess | simple_server.py:162-231 | upload, validate and process, then read back: the receipt carries the extraction and the file's path, and the file is valid and processed |
| Scenarios.DeletedBeforeValidation | simple_server.py:133-135 | a file removed from disk before validation ends up invalid, with the reason "File not found", and unprocessed |
| Scenarios.ProcessedThenInvalid | simple_server.py:177-179 | a processed file can be validated again and become invalid, and processing it is then refused with a wrapped 400 |
| Scenarios.TwoReceiptsApart | simple_server.py:173-211 | a refused process request uses up no id, so two later processings of one file, with time passing between them, store receipts 1 and 2 at times 0 and 1 |
| Scenarios.LaterReceiptListedFirst | simple_server.py:245-249 | of two receipts created at different times, the later one is listed first |
| Scenarios.ProcessTwice | app/api/routes.py:87-94 | processing a valid file twice stores two receipts with distinct ids for the same path |
| Scenarios.RoutesTornCommit | app/api/routes.py:90-94 | after processing through the routes, the second-to-last entry of the store's commit log (the first of the two commits) holds a receipt with no processed file behind it |
| Scenarios.ServerSingleCommit | simple_server.py:195-221 | after the single server processes a valid file in a consistent store, the last entry of the store's commit log is consistent and holds the one new receipt |

## Left out

- File contents and real file I/O (`open`, `shutil.copyfileobj`, `os.makedirs`) are left out. The disk is a set of paths. A failing write, and the 500 it would cause, is not modelled.
- The filename timestamp comes from the wall clock. It is a string parameter `stamp`, and `IsStamp` describes the shape strftime gives it.
- Every `datetime.utcnow()` within one request reads the same logical clock. Time passes only between requests (`AdvanceClock`).
- Database failures are not modelled: a failing connection or statement, and the 500 it raises through the `except` clauses (`Error listing receipts`, `Error creating receipt`, `Failed to create file record`, and so on). The `lastrowid is None` checks therefore never fire.
- Errors are a status code plus either a message or a wrapped cause. The exact text `str(HTTPException)` produces inside `f"...: {str(e)}"` is not modelled.
- Lower-casing maps only ASCII letters. Python's `str.lower` also folds other Unicode letters; for deciding the ".pdf" suffix this difference is immaterial.
- Amounts are integer cents. The code stores REAL floats, whose sum 23.91 + 2.08 is not exactly 25.99. The items column is a sequence of (name, price) pairs rather than a JSON string.
- Ids are unbounded integers. SQLite's 64-bit row-id limit is not modelled.
- Async handlers and concurrent requests are left out. The code has no locking, and the model is sequential.
- The `/` root endpoints, the FastAPI app wiring (`app/main.py`) and the HTTP client script `test_api.py` are left out. None of them holds lifecycle logic.
- `FileService.FileExists` (`file_exists`) is the membership test on the disk set. It carries no contract of its own; the validate routes' contracts state its effect.
- The listing handlers take `skip` and `limit` as explicit arguments. Their defaults of 0 and 100 (simple_server.py:234, app/services/receipt_service.py:91, app/api/routes.py:105) are left to the caller.
- `Consistent` links a receipt to a file only by path, as the `receipt` table does: it has no file id column. Two uploads of the same name within the same second share a path (`FileService.SavedPathInjective`). The invariant does not tell such files apart. A torn commit of the routes on one of them is invisible to it when the other is already processed, which is why `Records.TornInsert` requires that no other processed file has the path.
- SQL may return rows with equal `created_at` in any order. The model picks one of the allowed orders: descending id. The listing contracts state that order, which is stronger than what `ORDER BY created_at DESC` guarantees: the code promises only that `created_at` does not increase. The other tie orders a real database may return are not modelled.
