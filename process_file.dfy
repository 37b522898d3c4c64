/**
 * The `/process_file` request handler: validate the upload, stage it in a
 * fresh temporary file, hand that file to the external converter, and
 * remove the staged file on the way out.
 *
 * The filesystem is an object whose one field maps the paths that exist
 * to their contents. The converter is a total function of the staged path
 * and the bytes stored there. Faults of the runtime (a failed body read, a
 * failed temporary-file creation, a failed write, a failed close) are
 * chosen by the caller through `ReadResult` and `StageFault`.
 */
module Handler {
  import opened UploadPolicy

  newtype byte = x: int | 0 <= x < 256

  /** Temporary-file names are opaque handles; only their identity matters. */
  type Path = nat

  /** A JSON response: `{markdown}` with status 200, or `{error}` with the
      status of the failing step. Never both, never neither. */
  datatype Response = Ok(markdown: string) | Err(status: nat, message: string)
  {
    function StatusCode(): nat
    {
      match this
      case Ok(_) => 200
      case Err(status, _) => status
    }
  }

  /** The outcome of `await file.read()`. */
  datatype ReadResult = Read(content: seq<byte>) | ReadFailed(message: string)

  /** What goes wrong, if anything, while staging the body in a temporary
      file: creating it, writing into it (before its name is recorded), or
      closing it (after its name is recorded). */
  datatype StageFault =
    | NoFault
    | CreateFails(message: string)
    | WriteFails(message: string)
    | CloseFails(message: string)

  /** The converter's outcome: Markdown text, or an exception's message. */
  datatype Conversion = Converted(markdown: string) | Raised(message: string)

  const FilenameRequired: string := "Filename is required"
  const TypeNotAllowedPrefix: string := "File type not allowed. Allowed types: "
  const FileTooLarge: string := "File too large. Maximum size: 50MB"
  const FileEmpty: string := "File is empty"

  // ---------------------------------------------------------------------
  // The abstract filesystem

  /** An upper bound on a finite set of paths. */
  ghost function PathBound(paths: set<Path>): (b: nat)
    ensures forall p :: p in paths ==> p < b
    decreases paths
  {
    if paths == {} then 0
    else
      var p :| p in paths;
      var rest := PathBound(paths - {p});
      assert forall q :: q in paths ==> q == p || q in paths - {p};
      if p < rest then rest else p + 1
  }

  class FileSystem {
    /** The files that exist, with their contents. */
    var files: map<Path, seq<byte>>

    constructor (initial: map<Path, seq<byte>>)
      ensures files == initial
    {
      files := initial;
    }

    /** `os.path.exists` */
    predicate Exists(p: Path)
      reads this
    {
      p in files
    }

    /** `tempfile.NamedTemporaryFile(delete=False)`: an empty file under a
        name no existing file has. */
    method CreateTemp() returns (p: Path)
      modifies this
      ensures p !in old(files)
      ensures files == old(files)[p := []]
    {
      ghost var bound := PathBound(files.Keys);
      assert bound !in files;
      p :| p !in files;
      files := files[p := []];
    }

    /** `temp_file.write(data)` on a freshly created file. */
    method Write(p: Path, data: seq<byte>)
      requires p in files
      modifies this
      ensures files == old(files)[p := data]
    {
      files := files[p := data];
    }

    /** `os.remove` of an existing file. */
    method Remove(p: Path)
      requires p in files
      modifies this
      ensures files == old(files) - {p}
    {
      files := files - {p};
    }
  }

  // ---------------------------------------------------------------------
  // Validation (app.py:147-174)

  /** The response of the first validation step that fails, or None when
      the upload may be staged. `listing` is the joined allow-list the
      type error quotes. */
  function Validate(filename: Option<string>, body: ReadResult, listing: string): (r: Option<Response>)
    ensures r.Some? ==> r.value.Err? && r.value.status in {400, 413, 500}
    ensures r.None? <==>
            AllowedFile(filename) && body.Read? && 0 < |body.content| <= MaxFileSize
    ensures (r == Some(Err(400, FilenameRequired))) <==> (filename == None || filename == Some(""))
    ensures (r.Some? && r.value.status == 413) <==>
            (AllowedFile(filename) && body.Read? && |body.content| > MaxFileSize)
  {
    if filename == None || filename.value == [] then
      Some(Err(400, FilenameRequired))
    else if !AllowedFile(filename) then
      Some(Err(400, TypeNotAllowedPrefix + listing))
    else match body
      case ReadFailed(m) => Some(Err(500, m))
      case Read(content) =>
        if |content| > MaxFileSize then Some(Err(413, FileTooLarge))
        else if |content| == 0 then Some(Err(400, FileEmpty))
        else None
  }

  /** The checks run in a fixed order and the first one that fails decides
      the response; a zero-byte file with a refused extension is reported
      as a type error. */
  lemma ValidationOrder(filename: Option<string>, body: ReadResult, listing: string)
    ensures filename == None || filename == Some("") ==>
            Validate(filename, body, listing) == Some(Err(400, FilenameRequired))
    ensures filename.Some? && filename.value != [] && !AllowedFile(filename) ==>
            Validate(filename, body, listing) == Some(Err(400, TypeNotAllowedPrefix + listing))
    ensures AllowedFile(filename) && body.ReadFailed? ==>
            Validate(filename, body, listing) == Some(Err(500, body.message))
    ensures AllowedFile(filename) && body.Read? && |body.content| > MaxFileSize ==>
            Validate(filename, body, listing) == Some(Err(413, FileTooLarge))
    ensures AllowedFile(filename) && body == Read([]) ==>
            Validate(filename, body, listing) == Some(Err(400, FileEmpty))
  {
  }

  /** A body of exactly 52,428,800 bytes passes the size check; one byte
      more is refused with 413. */
  lemma SizeBoundary(name: string, content: seq<byte>, listing: string)
    requires AllowedFile(Some(name))
    ensures |content| == 52_428_800 ==> Validate(Some(name), Read(content), listing) == None
    ensures |content| == 52_428_801 ==>
            Validate(Some(name), Read(content), listing) == Some(Err(413, FileTooLarge))
  {
  }

  /** The response the handler returns once the converter has run. */
  function ConversionResponse(c: Conversion): (r: Response)
    ensures r.Ok? <==> c.Converted?
    ensures c.Converted? ==> r.markdown == c.markdown && r.StatusCode() == 200
    ensures c.Raised? ==> r.StatusCode() == 500 && r.message == c.message
  {
    match c
    case Converted(md) => Ok(md)
    case Raised(m) => Err(500, m)
  }

  // ---------------------------------------------------------------------
  // The handler (app.py:140-199)

  /** `process_file`. Returns the response, the temporary file that was
      created (if any), and the final value of `temp_file_path`. */
  method ProcessFile(fs: FileSystem, filename: Option<string>, body: ReadResult, listing: string,
                     stage: StageFault, convert: (Path, seq<byte>) -> Conversion)
    returns (resp: Response, created: Option<Path>, tempFilePath: Option<Path>)
    modifies fs
    // a validation failure answers with that step's error and touches nothing
    ensures Validate(filename, body, listing).Some? ==>
            resp == Validate(filename, body, listing).value &&
            created == None && tempFilePath == None && fs.files == old(fs.files)
    // a temporary file, when created, is new; no pre-existing file is changed
    ensures created.Some? ==> created.value !in old(fs.files)
    ensures forall q :: q in old(fs.files) ==> q in fs.files && fs.files[q] == old(fs.files)[q]
    // the file recorded in `temp_file_path` is gone on return; the only file
    // that can outlive the call is one whose write failed before line 182
    ensures tempFilePath.Some? ==> created == tempFilePath && tempFilePath.value !in fs.files
    ensures fs.files.Keys ==
            old(fs.files.Keys) + (if created.Some? && tempFilePath.None? then {created.value} else {})
    // staging and conversion outcomes
    ensures Validate(filename, body, listing).None? ==>
            match stage
            case CreateFails(m) => resp == Err(500, m) && created == None
            case WriteFails(m) => resp == Err(500, m) && created.Some? && tempFilePath == None
            case CloseFails(m) => resp == Err(500, m) && created.Some? && tempFilePath == created
            case NoFault =>
              created.Some? && tempFilePath == created &&
              resp == ConversionResponse(convert(created.value, body.content))
  {
    tempFilePath := None;
    created := None;

    if filename == None || filename.value == [] {
      return Err(400, FilenameRequired), None, None;
    }
    if !AllowedFile(filename) {
      return Err(400, TypeNotAllowedPrefix + listing), None, None;
    }

    // try:
    match body {
      case ReadFailed(m) =>
        resp := Err(500, m);
      case Read(content) =>
        if |content| > MaxFileSize {
          resp := Err(413, FileTooLarge);
        } else if |content| == 0 {
          resp := Err(400, FileEmpty);
        } else if stage.CreateFails? {
          resp := Err(500, stage.message);
        } else {
          var p := fs.CreateTemp();
          created := Some(p);
          if stage.WriteFails? {
            resp := Err(500, stage.message);
          } else {
            fs.Write(p, content);
            tempFilePath := Some(p);
            if stage.CloseFails? {
              resp := Err(500, stage.message);
            } else {
              resp := ConversionResponse(convert(p, fs.files[p]));
            }
          }
        }
    }

    // finally:
    if tempFilePath.Some? && fs.Exists(tempFilePath.value) {
      fs.Remove(tempFilePath.value);
    }
  }

  /** A request for "notes.txt" with a 64 KiB body, larger than the write
      buffer, so that the write itself fails on a full disk: on an empty
      filesystem and with `process_file` as written, the staged file
      outlives the request. */
  method WriteFailureLeaks() returns (remaining: set<Path>, resp: Response)
    ensures |remaining| == 1
    ensures resp == Err(500, "[Errno 28] No space left on device")
  {
    var fs := new FileSystem(map[]);
    var name := "notes.txt";
    assert name[5] == '.' && name[6] != '.' && name[7] != '.' && name[8] != '.';
    assert Extension(name) == "txt" && Lower("txt") == "txt";
    var created, tempFilePath;
    resp, created, tempFilePath :=
      ProcessFile(fs, Some(name), Read(seq(65536, i => 0 as byte)), "",
                  WriteFails("[Errno 28] No space left on device"),
                  (p, data) => Converted(""));
    remaining := fs.files.Keys;
    assert remaining == {created.value};
  }

  /** `process_file` with the staged file's name recorded as soon as the
      file exists, before anything is written into it: every file it
      creates is removed again, on every path. */
  method ProcessFileCorrected(fs: FileSystem, filename: Option<string>, body: ReadResult, listing: string,
                              stage: StageFault, convert: (Path, seq<byte>) -> Conversion)
    returns (resp: Response, created: Option<Path>)
    modifies fs
    ensures fs.files == old(fs.files)
    ensures Validate(filename, body, listing).Some? ==>
            resp == Validate(filename, body, listing).value && created == None
    ensures created.Some? ==> created.value !in old(fs.files)
    ensures Validate(filename, body, listing).None? ==>
            match stage
            case CreateFails(m) => resp == Err(500, m) && created == None
            case WriteFails(m) => resp == Err(500, m) && created.Some?
            case CloseFails(m) => resp == Err(500, m) && created.Some?
            case NoFault =>
              created.Some? && resp == ConversionResponse(convert(created.value, body.content))
  {
    var tempFilePath: Option<Path> := None;
    created := None;

    if filename == None || filename.value == [] {
      return Err(400, FilenameRequired), None;
    }
    if !AllowedFile(filename) {
      return Err(400, TypeNotAllowedPrefix + listing), None;
    }

    // try:
    match body {
      case ReadFailed(m) =>
        resp := Err(500, m);
      case Read(content) =>
        if |content| > MaxFileSize {
          resp := Err(413, FileTooLarge);
        } else if |content| == 0 {
          resp := Err(400, FileEmpty);
        } else if stage.CreateFails? {
          resp := Err(500, stage.message);
        } else {
          var p := fs.CreateTemp();
          created := Some(p);
          tempFilePath := Some(p);
          if stage.WriteFails? {
            resp := Err(500, stage.message);
          } else {
            fs.Write(p, content);
            if stage.CloseFails? {
              resp := Err(500, stage.message);
            } else {
              resp := ConversionResponse(convert(p, fs.files[p]));
            }
          }
        }
    }

    // finally:
    if tempFilePath.Some? && fs.Exists(tempFilePath.value) {
      fs.Remove(tempFilePath.value);
    }
  }
}
