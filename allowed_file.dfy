/**
 * The upload policy of the conversion service: the fixed extension
 * allow-list, the size limit, and the `allowed_file` filename test.
 *
 * A filename is accepted when it is present, non-empty, contains a dot,
 * and the text after its LAST dot, lower-cased, is one of the allowed
 * extensions. Lower-casing is ASCII case folding.
 */
module UploadPolicy {

  datatype Option<+T> = None | Some(value: T)

  /** The eleven document extensions the service accepts (app.py:56). */
  const AllowedExtensions: set<string> :=
    {"doc", "docx", "ppt", "pptx", "pdf", "xls", "xlsx", "odt", "ods", "odp", "txt"}

  /** Largest accepted body, in bytes: 50 MiB (app.py:57). */
  const MaxFileSize: nat := 50 * 1024 * 1024

  lemma MaxFileSizeValue()
    ensures MaxFileSize == 52_428_800
    ensures MaxFileSize / (1024 * 1024) == 50 && MaxFileSize % (1024 * 1024) == 0
  {
  }

  /** No allowed extension contains a dot, so an extension can only be the
      text after the last dot of a name. */
  lemma ExtensionsHaveNoDot(ext: string)
    requires ext in AllowedExtensions
    ensures '.' !in ext && ext != []
  {
  }

  // ---------------------------------------------------------------------
  // ASCII lower-casing

  function LowerChar(c: char): char
  {
    if 'A' <= c <= 'Z' then (c as int + 32) as char else c
  }

  function Lower(s: string): (r: string)
    ensures |r| == |s|
    ensures forall i :: 0 <= i < |s| ==> r[i] == LowerChar(s[i])
  {
    seq(|s|, i requires 0 <= i < |s| => LowerChar(s[i]))
  }

  /** Lower-casing keeps the dots exactly where they were: no other
      character folds to '.'. */
  lemma LowerKeepsDots(s: string, i: int)
    requires 0 <= i < |s|
    ensures Lower(s)[i] == '.' <==> s[i] == '.'
  {
  }

  lemma LowerSlice(s: string, lo: int, hi: int)
    requires 0 <= lo <= hi <= |s|
    ensures Lower(s[lo..hi]) == Lower(s)[lo..hi]
  {
  }

  lemma LowerIdempotent(s: string)
    ensures Lower(Lower(s)) == Lower(s)
  {
  }

  // ---------------------------------------------------------------------
  // Splitting at the last dot: `filename.rsplit('.', 1)`

  /** Index of the last '.' in `s`, or None when `s` has no dot. */
  function LastDot(s: string): (r: Option<nat>)
    ensures r.None? <==> '.' !in s
    ensures r.Some? ==> r.value < |s| && s[r.value] == '.'
    ensures r.Some? ==> forall j :: r.value < j < |s| ==> s[j] != '.'
  {
    if s == [] then None
    else if s[|s| - 1] == '.' then Some(|s| - 1)
    else
      assert '.' in s <==> '.' in s[..|s| - 1] by {
        assert s == s[..|s| - 1] + [s[|s| - 1]];
      }
      LastDot(s[..|s| - 1])
  }

  /** The second half of `name.rsplit('.', 1)`: the text after the last dot. */
  function Extension(name: string): (ext: string)
    requires '.' in name
    ensures '.' !in ext
    ensures |ext| < |name| && name[|name| - |ext| - 1] == '.'
    ensures ext == name[|name| - |ext|..]
  {
    name[LastDot(name).value + 1..]
  }

  /** `allowed_file` (app.py:72-83). An absent or empty name is rejected;
      otherwise the name needs a dot and an allow-listed extension. */
  function AllowedFile(filename: Option<string>): (r: bool)
    ensures r ==> filename.Some? && filename.value != [] && '.' in filename.value
    ensures r ==> Lower(Extension(filename.value)) in AllowedExtensions
  {
    match filename
    case None => false
    case Some(name) =>
      if name == [] then false
      else '.' in name && Lower(Extension(name)) in AllowedExtensions
  }

  // ---------------------------------------------------------------------
  // An independent reading of the policy: "the name ends in .<ext>"

  /** `name` ends with a dot followed by `ext`, ignoring ASCII case. */
  predicate EndsWithExtension(name: string, ext: string)
  {
    |name| > |ext| && Lower(name[|name| - |ext| - 1..]) == "." + ext
  }

  /** An accepted name ends, ignoring case, in a dot and its (allowed)
      lower-cased extension. */
  lemma {:induction false} AllowedFileEndsWithExtension(name: string)
    requires AllowedFile(Some(name))
    ensures Lower(Extension(name)) in AllowedExtensions
    ensures EndsWithExtension(name, Lower(Extension(name)))
  {
    var ext := Lower(Extension(name));
    var k := |name| - |ext| - 1;
    assert name[k..] == [name[k]] + Extension(name);
    LowerSlice(name, k, |name|);
    LowerSlice(name, k + 1, |name|);
    assert Lower(name[k..]) == "." + ext;
  }

  /** A name that ends, ignoring case, in a dot and an allowed extension is
      accepted: that extension has no dot, so its dot is the last one. */
  lemma {:induction false} EndsWithExtensionAllowed(name: string, ext: string)
    requires ext in AllowedExtensions && EndsWithExtension(name, ext)
    ensures AllowedFile(Some(name))
    ensures Lower(Extension(name)) == ext
  {
    ExtensionsHaveNoDot(ext);
    var k := |name| - |ext| - 1;
    var low := Lower(name[k..]);
    LowerSlice(name, k, |name|);
    assert low[0] == '.' && low[1..] == ext;
    LowerKeepsDots(name, k);
    assert '.' in name;
    var i := LastDot(name).value;
    assert i == k;
    LowerSlice(name, k + 1, |name|);
    assert Lower(Extension(name)) == ext;
  }

  /** The policy is exactly "the name ends, case-insensitively, in a dot and
      an allowed extension". */
  lemma {:induction false} AllowedFileBySuffix(name: string)
    ensures AllowedFile(Some(name)) <==>
            exists ext :: ext in AllowedExtensions && EndsWithExtension(name, ext)
  {
    if AllowedFile(Some(name)) {
      AllowedFileEndsWithExtension(name);
    }
    if ext :| ext in AllowedExtensions && EndsWithExtension(name, ext) {
      EndsWithExtensionAllowed(name, ext);
    }
  }

  lemma EndsWithExtensionIgnoresCase(name: string, ext: string)
    ensures EndsWithExtension(Lower(name), ext) <==> EndsWithExtension(name, ext)
  {
    if |name| > |ext| {
      var k := |name| - |ext| - 1;
      LowerSlice(name, k, |name|);
      LowerIdempotent(name[k..]);
    }
  }

  /** Upper- and lower-case spellings of a name are treated alike. */
  lemma {:induction false} AllowedFileIgnoresCase(name: string)
    ensures AllowedFile(Some(Lower(name))) == AllowedFile(Some(name))
  {
    AllowedFileBySuffix(name);
    AllowedFileBySuffix(Lower(name));
    if AllowedFile(Some(name)) {
      var ext :| ext in AllowedExtensions && EndsWithExtension(name, ext);
      EndsWithExtensionIgnoresCase(name, ext);
    }
    if AllowedFile(Some(Lower(name))) {
      var ext :| ext in AllowedExtensions && EndsWithExtension(Lower(name), ext);
      EndsWithExtensionIgnoresCase(name, ext);
    }
  }

  /** Prefixing anything to an accepted name keeps it accepted. */
  lemma {:induction false} AllowedFileKeepsPrefix(prefix: string, name: string)
    requires AllowedFile(Some(name))
    ensures AllowedFile(Some(prefix + name))
  {
    AllowedFileBySuffix(name);
    var ext :| ext in AllowedExtensions && EndsWithExtension(name, ext);
    var whole := prefix + name;
    assert whole[|whole| - |ext| - 1..] == name[|name| - |ext| - 1..];
    assert EndsWithExtension(whole, ext);
    AllowedFileBySuffix(whole);
  }

  /** `allowed_file` refuses an absent or empty name (app.py:81-82). */
  lemma AllowedFileRefusesMissing()
    ensures !AllowedFile(None) && !AllowedFile(Some(""))
  {
  }

  /** Case is folded: "r.PDF" is accepted. */
  lemma AllowedFileUpperCase()
    ensures AllowedFile(Some("r.PDF"))
  {
    var name := "r.PDF";
    assert name[1] == '.' && name[2] != '.' && name[3] != '.' && name[4] != '.';
    assert Extension(name) == "PDF";
    assert Lower("PDF") == "pdf";
  }

  /** Only the text after the last dot counts: "a.b.txt" is accepted. */
  lemma AllowedFileLastDotAccepts()
    ensures AllowedFile(Some("a.b.txt"))
  {
    var name := "a.b.txt";
    assert name[3] == '.' && name[4] != '.' && name[5] != '.' && name[6] != '.';
    assert Extension(name) == "txt";
    assert Lower("txt") == "txt";
  }

  /** Only the text after the last dot counts: "a.pdf.exe" is refused. */
  lemma AllowedFileLastDotRefuses()
    ensures !AllowedFile(Some("a.pdf.exe"))
  {
    var name := "a.pdf.exe";
    assert name[5] == '.' && name[6] != '.' && name[7] != '.' && name[8] != '.';
    assert Extension(name) == "exe";
    assert Lower("exe") == "exe";
  }

  /** A name without a dot, or with nothing after its last dot, is refused. */
  lemma AllowedFileNeedsExtension()
    ensures !AllowedFile(Some("README"))
    ensures !AllowedFile(Some("file."))
  {
    var name := "file.";
    assert name[4] == '.';
    assert Extension(name) == [];
    assert Lower([]) == [];
  }
}
