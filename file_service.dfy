/** The file service: the filename check, where an upload is stored, and the
    statements on `receipt_file` that the routes run, each in its own commit. */
module FileService {
  import opened Common
  import opened Records
  import opened Database
  import Paging

  /** The directory uploads are written to. */
  const UPLOAD_DIR := "uploads"

  /** `str.lower()` on one character; only ASCII letters are mapped. */
  function LowerChar(c: char): char
  {
    if 'A' <= c <= 'Z' then (c as int + 32) as char else c
  }

  function Lower(s: string): string
  {
    seq(|s|, i requires 0 <= i < |s| => LowerChar(s[i]))
  }

  predicate EndsWith(s: string, suffix: string)
  {
    |suffix| <= |s| && s[|s| - |suffix|..] == suffix
  }

  /** `validate_file_type`: the name is non-empty and its lower-case form ends
      with ".pdf". Equivalently, its last four characters are '.', then 'p' or
      'P', 'd' or 'D', 'f' or 'F'. */
  function ValidateFileType(filename: string): (ok: bool)
    ensures ok <==>
      (var n := |filename|;
       n >= 4 && filename[n - 4] == '.' && filename[n - 3] in "pP" && filename[n - 2] in "dD" && filename[n - 1] in "fF")
  {
    LowerEndsWithPdf(filename);
    filename != [] && EndsWith(Lower(filename), ".pdf")
  }

  /** The lower-case form of `s` ends with ".pdf" exactly when the last four
      characters of `s` spell ".pdf" in any mix of cases. */
  lemma LowerEndsWithPdf(s: string)
    ensures EndsWith(Lower(s), ".pdf") <==>
      (|s| >= 4 && s[|s| - 4] == '.' && s[|s| - 3] in "pP" && s[|s| - 2] in "dD" && s[|s| - 1] in "fF")
  {
    var n, low := |s|, Lower(s);
    if n >= 4 {
      var tail := low[n - 4..];
      assert tail == ".pdf" <==> tail[0] == '.' && tail[1] == 'p' && tail[2] == 'd' && tail[3] == 'f';
      assert tail[0] == LowerChar(s[n - 4]) && tail[1] == LowerChar(s[n - 3]);
      assert tail[2] == LowerChar(s[n - 2]) && tail[3] == LowerChar(s[n - 1]);
    }
  }

  /** `os.path.join(dir, name)` for a directory that does not end in '/'. */
  function Join(dir: string, name: string): string
  {
    if |name| > 0 && name[0] == '/' then name else dir + "/" + name
  }

  /** The shape of `datetime.now().strftime("%Y%m%d_%H%M%S")` for a four-digit year. */
  predicate IsStamp(s: string)
  {
    |s| == 15 && s[8] == '_' && forall i :: 0 <= i < 15 && i != 8 ==> '0' <= s[i] <= '9'
  }

  /** The path `save_uploaded_file` writes the upload to: the upload directory
      joined with the timestamp, '_' and the client's filename. */
  function SavedPath(stamp: string, filename: string): (path: string)
    ensures EndsWith(path, "_" + filename)
    ensures IsStamp(stamp) ==> path == UPLOAD_DIR + "/" + stamp + "_" + filename
  {
    var unique := stamp + "_" + filename;
    assert unique[|stamp|..] == "_" + filename;
    var path := Join(UPLOAD_DIR, unique);
    assert path[|path| - |unique|..] == unique;
    path
  }

  /** Two uploads share a path only when they share both the timestamp (to the
      second) and the filename. */
  lemma SavedPathInjective(stamp1: string, name1: string, stamp2: string, name2: string)
    requires IsStamp(stamp1) && IsStamp(stamp2)
    requires SavedPath(stamp1, name1) == SavedPath(stamp2, name2)
    ensures stamp1 == stamp2 && name1 == name2
  {
    var p1, p2 := SavedPath(stamp1, name1), SavedPath(stamp2, name2);
    assert p1[8..23] == stamp1 && p2[8..23] == stamp2;
    assert p1[24..] == name1 && p2[24..] == name2;
  }

  /** `save_uploaded_file`: write the upload to its path and return the path. */
  method SaveUploadedFile(db: Db, filename: string, stamp: string) returns (path: string)
    modifies db`disk
    ensures path == SavedPath(stamp, filename)
    ensures db.disk == old(db.disk) + {path}
  {
    path := SavedPath(stamp, filename);
    db.WriteFile(path);
  }

  /** `file_exists`: `os.path.exists(file_path)`. */
  function FileExists(db: Db, path: string): bool
    reads db
  {
    path in db.disk
  }

  /** `create_file_record`: insert a row that is neither valid nor processed,
      commit, and return its id. */
  method CreateFileRecord(db: Db, filename: string, path: string) returns (id: int)
    requires db.Valid()
    modifies db`files, db`nextFileId, db`Commits
    ensures db.Valid()
    ensures id == old(db.nextFileId) && id !in old(db.files) && db.nextFileId == id + 1
    ensures db.files == old(db.files)[id := NewFile(id, filename, path, db.clock)]
    ensures db.Commits == old(db.Commits) + [db.State()]
  {
    id := db.InsertFile(filename, path);
    db.Commit();
  }

  /** `get_file_record`: the row with this id, or nothing; reads only. */
  function GetFileRecord(db: Db, id: int): (r: Option<FileRecord>)
    reads db
    ensures r.None? <==> id !in db.files
    ensures r.Some? ==> r.value == db.files[id]
  {
    db.SelectFile(id)
  }

  /** `update_file_validation`: overwrite `is_valid`, `invalid_reason` and
      `updated_at` of the row and commit; an unknown id changes no row. */
  method UpdateFileValidation(db: Db, id: int, isValid: bool, reason: Option<string>)
    requires db.Valid()
    modifies db`files, db`Commits
    ensures db.Valid()
    ensures id in old(db.files) ==>
      db.files == old(db.files)[id := old(db.files)[id].(isValid := isValid, invalidReason := reason, updatedAt := db.clock)]
    ensures id !in old(db.files) ==> db.files == old(db.files)
    ensures db.Commits == old(db.Commits) + [db.State()]
  {
    db.UpdateValidation(id, isValid, reason);
    db.Commit();
  }

  /** `mark_file_processed`: set `is_processed` and `updated_at` of the row and
      commit; an unknown id changes no row. */
  method MarkFileProcessed(db: Db, id: int)
    requires db.Valid()
    modifies db`files, db`Commits
    ensures db.Valid()
    ensures id in old(db.files) ==> db.files == old(db.files)[id := Processed(old(db.files)[id], db.clock)]
    ensures id !in old(db.files) ==> db.files == old(db.files)
    ensures db.Commits == old(db.Commits) + [db.State()]
  {
    db.UpdateProcessed(id);
    db.Commit();
  }

  /** `get_all_files`: every stored file exactly once, newest first. */
  method GetAllFiles(db: Db) returns (rows: seq<FileRecord>)
    requires db.Valid()
    ensures rows == db.FilesNewestFirst()
    ensures |rows| == |db.files|
    ensures forall k :: 0 <= k < |rows| ==> rows[k].id in db.files && db.files[rows[k].id] == rows[k]
    ensures forall id :: id in db.files ==> db.files[id] in rows
    ensures Paging.SortedDesc(rows, FileCreatedAt)
  {
    rows := db.SelectAllFiles();
  }
}
