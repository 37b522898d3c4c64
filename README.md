# MarkItDownServer upload handler, modelled in Dafny

MarkItDownServer is an HTTP service. Clients upload a document and get its
content back as Markdown. This project models the service's one piece of
logic: the `POST /process_file` handler in `app.py`.

- **Upload policy** (`allowed_file.dfy`, module `UploadPolicy`). It holds the
  11-extension allow-list and the 50 MiB limit. It also holds `allowed_file`:
  a name is accepted when it is non-empty and has a dot, and the text after its
  last dot, lower-cased, is an allowed extension. The main lemma,
  `AllowedFileBySuffix`, gives an independent reading of this test: "the name
  ends, ignoring case, in a dot followed by an allowed extension".
- **Request handler** (`process_file.dfy`, module `Handler`). The filesystem
  is a `FileSystem` object. Its `files` field maps each existing path to that
  file's bytes. `ProcessFile` runs the checks in the source's order:
  - a missing filename gives 400;
  - a refused extension gives 400;
  - a failed body read gives 500;
  - a body over 52,428,800 bytes gives 413;
  - an empty body gives 400.

  Once all checks pass, `ProcessFile` creates a fresh temporary file and writes
  the body into it. It then calls the converter and maps the result to
  `Ok(markdown)` or `Err(500, message)`. Last, like the source's `finally`
  block, it removes the recorded temporary file if that file still exists.
  `Validate` is the pure function that specifies the validation steps.
- The converter is a parameter: a total function from the staged path and its
  bytes to `Converted(markdown)` or `Raised(message)`. The runtime's faults are
  parameters too. A `ReadResult` says whether the body read failed. A
  `StageFault` says whether creating, writing or closing the temporary file
  failed.

Three facts about the code that the model keeps:
- A write failure leaks the staged file, although the comment at app.py:196
  says the temporary file is always deleted (see Findings).
- A failure of `os.remove` in the `finally` block (app.py:197-198) is not
  caught, so it propagates to the caller (left out, see below).
- The size check (app.py:163) comes before the empty check (app.py:170). No
  body is both empty and over the limit, so the order is not observable.

## Model

| member | source | states |
|---|---|---|
| `UploadPolicy.MaxFileSizeValue` | app.py:57 | The limit is 52,428,800 bytes, exactly 50 MiB, so the 413 message says "50MB". |
| `UploadPolicy.ExtensionsHaveNoDot` | app.py:56 | No allowed extension is empty or contains a dot. |
| `UploadPolicy.Lower` | app.py:83 | `str.lower()` as ASCII folding: the same length, each character folded on its own. |
| `UploadPolicy.LastDot` | app.py:83 | The index of the last `.`: None exactly when there is no dot; otherwise a dot with no dot after it. |
| `UploadPolicy.Extension` | app.py:83 | `rsplit('.', 1)[1]`: a dot-free suffix of the name that directly follows a dot. |
| `UploadPolicy.AllowedFile` | app.py:72-83 | Acceptance implies a present, non-empty name with a dot whose lower-cased extension is allow-listed. |
| `UploadPolicy.AllowedFileBySuffix` | app.py:83 | Accepted if and only if the name ends, ignoring ASCII case, in "." plus one of the 11 allowed extensions. |
| `UploadPolicy.AllowedFileEndsWithExtension` | app.py:83 | An accepted name ends, ignoring case, in "." plus its lower-cased extension, and that extension is allowed. |
| `UploadPolicy.EndsWithExtensionAllowed` | app.py:83 | A name ending, ignoring case, in "." plus an allowed extension is accepted, and that extension is what `rsplit` finds. |
| `UploadPolicy.AllowedFileIgnoresCase` | app.py:83 | A name and its lower-cased form are accepted or refused alike. |
| `UploadPolicy.AllowedFileKeepsPrefix` | app.py:83 | Any prefix added in front of an accepted name keeps it accepted: only the part after the last dot decides. |
| `UploadPolicy.AllowedFileRefusesMissing` | app.py:81-82 | An absent or empty filename is refused. |
| `UploadPolicy.AllowedFileUpperCase` | app.py:83 | "r.PDF" is accepted. |
| `UploadPolicy.AllowedFileLastDotAccepts` | app.py:83 | "a.b.txt" is accepted. |
| `UploadPolicy.AllowedFileLastDotRefuses` | app.py:83 | "a.pdf.exe" is refused. |
| `UploadPolicy.AllowedFileNeedsExtension` | app.py:83 | "README" (no dot) and "file." (nothing after the dot) are refused. |
| `Handler.Validate` | app.py:147-174 | A failed check gives an error with status 400, 413 or 500. No error exactly when the name is accepted and the body was read and has 1 to 52,428,800 bytes. "Filename is required" exactly when the name is absent or empty. 413 exactly when the name is accepted and the body is over the limit. |
| `Handler.ValidationOrder` | app.py:147-174 | The first failing check decides: filename, then extension, then read, then size, then emptiness. A zero-byte file with a refused extension gets the type error. |
| `Handler.SizeBoundary` | app.py:163 | 52,428,800 bytes pass the size check; 52,428,801 bytes give 413. |
| `Handler.ConversionResponse` | app.py:186-193 | A converter result `s` gives 200 with `markdown == s`. A converter exception with message `m` gives 500 with `error == m`. |
| `Handler.FileSystem.CreateTemp` | app.py:177-180 | The new temporary file has a name no existing file has; it is empty; nothing else changes. |
| `Handler.FileSystem.Write` | app.py:181 | The staged file holds exactly the uploaded bytes; nothing else changes. |
| `Handler.FileSystem.Remove` | app.py:197-198 | Exactly the given file is gone. The `os.path.exists` guard at app.py:197 is `FileSystem.Exists`, true exactly when the path is a key of `files`; `Remove` requires it. |
| `Handler.ProcessFile` | app.py:140-199 | On a validation failure: that step's response, no temporary file, filesystem unchanged. Otherwise the converter is given the uploaded bytes; its result or message becomes the response; a staging fault gives 500 with its message. A created file is fresh. No pre-existing file changes. The file in `temp_file_path` is gone on return. The only file that can remain is one whose write failed before `temp_file_path` was assigned. |
| `Handler.WriteFailureLeaks` | app.py:177-182 | Counterexample: on an empty filesystem, "notes.txt" with a 64 KiB body whose write fails returns 500 and leaves one file behind. |
| `Handler.ProcessFileCorrected` | app.py:140-199 | The same handler with the name recorded before the write. The filesystem is unchanged on every path. The responses are as in `ProcessFile`. |

## Findings

| source | as written | input that shows it | evidently intended | confidence | as-written member | corrected member |
|---|---|---|---|---|---|---|
| app.py:177-182 | `temp_file_path` is assigned only after `temp_file.write` succeeds, and the file is created with `delete=False` | a valid upload such as "notes.txt" with a body larger than the write buffer (64 KiB) on a full disk, so that `write` itself raises "[Errno 28] No space left on device": the file is created, the write raises, and `finally` sees `temp_file_path` still `None` | the comment at line 196 says the temporary file is always deleted; recording the name as soon as the file exists gives that | medium, not executed | `Handler.ProcessFile`, `Handler.WriteFailureLeaks` | `Handler.ProcessFileCorrected` |

## Left out

- FastAPI routing, the `UploadFile`/`File` plumbing, async/await, the CORS
  middleware and the uvicorn start-up (app.py:38-44, 201-203): framework and I/O.
- The security-headers middleware and the `/` and `/health` endpoints
  (app.py:47-53, 100-127): they return static values or read the clock.
- `convert_to_md` and the MarkItDown library (app.py:85-98): a foreign library.
  It is the `convert` parameter, which does not touch the filesystem.
- Logging calls throughout the handler.
- The text after "Allowed types: " in the 400 type error: it is `", ".join`
  over a Python set, whose order is unspecified, so it is the `listing`
  parameter.
- The 413 message is the constant "File too large. Maximum size: 50MB". The
  float division and `:.0f` formatting that produce it are not modelled;
  `MaxFileSizeValue` shows that the division gives exactly 50.
- The temporary file's suffix (`Path(file.filename).suffix`, app.py:179) and
  real path names: a temporary path is an abstract `nat` handle.
- Unicode `str.lower()`: lower-casing is ASCII folding only.
- A failing `os.remove` at app.py:198: the source does not catch it.
  `FileSystem.Remove` is only called on a file that exists, and it always succeeds.
- Partial writes: a failing write leaves the staged file empty in the model.
- Concurrent requests: each call owns its fresh temporary file, and the model
  runs one call at a time.
