/**
 The upload-name rules of app.py: which client file names are accepted
 (`allowed_file`), which extension the stored copy receives, and how the
 stored upload and result files are named.
 */
module Upload {
  import opened Wrappers

  /** `ALLOWED_EXTENSIONS`: compared after lower-casing. */
  const AllowedExtensions: set<string> := {"png", "jpg", "jpeg"}

  /** Suffix given to every enhanced result file. */
  const ResultSuffix: string := "_sr.png"

  /** ASCII lower-casing of one character; every other character is left as it is. */
  function LowerChar(c: char): char
  {
    if 'A' <= c <= 'Z' then (c as int - 'A' as int + 'a' as int) as char else c
  }

  /** `str.lower`, restricted to ASCII letters. */
  function Lower(s: string): (r: string)
    ensures |r| == |s|
    ensures forall i :: 0 <= i < |s| ==> r[i] == LowerChar(s[i])
  {
    if s == [] then [] else [LowerChar(s[0])] + Lower(s[1..])
  }

  /** Position of the last '.' in `s`, if `s` has one. */
  function LastDot(s: string): (r: Option<nat>)
    ensures r.None? <==> '.' !in s
    ensures r.Some? ==> r.value < |s| && s[r.value] == '.' && '.' !in s[r.value + 1..]
  {
    if s == [] then None
    else if s[|s| - 1] == '.' then Some(|s| - 1)
    else
      var front := s[..|s| - 1];
      assert s == front + [s[|s| - 1]];
      var r := LastDot(front);
      assert r.Some? ==> s[r.value + 1..] == front[r.value + 1..] + [s[|s| - 1]];
      r
  }

  /**
   `s.rsplit(".", 1)` when it splits: the text before and the text after the
   last '.'; `None` when `s` has no '.' and so does not split.
   */
  function SplitLast(s: string): (r: Option<(string, string)>)
    ensures r.None? <==> '.' !in s
    ensures r.Some? ==> s == r.value.0 + "." + r.value.1 && '.' !in r.value.1
  {
    match LastDot(s)
    case None => None
    case Some(i) =>
      assert s == s[..i] + "." + s[i + 1..];
      Some((s[..i], s[i + 1..]))
  }

  /** `filename.rsplit(".", 1)[1]`: the raw text after the last '.', when there is a '.'. */
  function Suffix(name: string): (r: Option<string>)
    ensures r.None? <==> '.' !in name
    ensures r.Some? ==>
      '.' !in r.value && |r.value| < |name| && name == name[..|name| - |r.value| - 1] + "." + r.value
  {
    match SplitLast(name)
    case None => None
    case Some(parts) => Some(parts.1)
  }

  /** `allowed_file`: the name has a '.' and its last suffix, lower-cased, is an allowed extension. */
  predicate AllowedFile(name: string): (ok: bool)
    ensures ok ==> '.' in name && |name| >= 4
  {
    Suffix(name).Some? && Lower(Suffix(name).value) in AllowedExtensions
  }

  /** The extension the stored upload receives: the lower-cased last suffix of an accepted name. */
  function StoredExtension(name: string): (ext: string)
    requires AllowedFile(name)
    ensures ext in AllowedExtensions && Lower(ext) == ext
    ensures '.' !in Suffix(name).value && ext == Lower(Suffix(name).value)
    ensures exists front :: name == front + "." + Suffix(name).value
  {
    var suffix := Suffix(name).value;
    assert name == name[..|name| - |suffix| - 1] + "." + suffix;
    var ext := Lower(suffix);
    AllowedExtensionsShape(ext);
    ext
  }

  /** `f"{hex}.{ext}"`: the name of the stored upload. */
  function UploadName(hex: string, ext: string): (r: string)
    ensures |r| == |hex| + 1 + |ext|
    ensures r[..|hex|] == hex && r[|hex|] == '.' && r[|hex| + 1..] == ext
  {
    hex + "." + ext
  }

  /** `f"{hex}_sr.png"`: the name of the stored result. */
  function ResultName(hex: string): (r: string)
    ensures |r| == |hex| + 7
    ensures r[..|hex|] == hex && r[|hex|..] == ResultSuffix
  {
    hex + ResultSuffix
  }

  /** What `uuid.uuid4().hex` yields: 32 lower-case hexadecimal digits. */
  predicate IsUuidHex(s: string): (ok: bool)
    ensures ok ==> |s| == 32 && '.' !in s
  {
    |s| == 32 && forall i :: 0 <= i < |s| ==> s[i] in "0123456789abcdef"
  }

  // ----------------------------------------------------------------------
  // Properties
  // ----------------------------------------------------------------------

  /**
   Any split of a name at a '.' whose right part has no '.' is the split
   `rsplit(".", 1)` makes: only the last '.' separates the extension.
   */
  lemma SplitLastOf(front: string, back: string)
    requires '.' !in back
    ensures SplitLast(front + "." + back) == Some((front, back))
  {
    var s := front + "." + back;
    var k := |front|;
    assert s[k] == '.';
    assert s[k + 1..] == back;
    assert s[..k] == front;
  }

  /** A '.' at position i of `name` that no later '.' follows, with an allowed suffix after it. */
  predicate AllowedDotAt(name: string, i: int)
  {
    0 <= i < |name| && name[i] == '.' && '.' !in name[i + 1..]
    && Lower(name[i + 1..]) in AllowedExtensions
  }

  /**
   `allowed_file` holds exactly when the name is some text, a '.', and a
   dot-free suffix that lower-cases to png, jpg or jpeg.
   */
  lemma AllowedFileIff(name: string)
    ensures AllowedFile(name) <==> exists i :: AllowedDotAt(name, i)
  {
    if AllowedFile(name) {
      AllowedFileHasDot(name);
    }
    if exists i :: AllowedDotAt(name, i) {
      var i :| AllowedDotAt(name, i);
      DotAtAllowed(name, i);
    }
  }

  lemma AllowedFileHasDot(name: string)
    requires AllowedFile(name)
    ensures AllowedDotAt(name, LastDot(name).value)
  {
    var i := LastDot(name).value;
    assert Suffix(name).value == name[i + 1..];
  }

  lemma DotAtAllowed(name: string, i: int)
    requires AllowedDotAt(name, i)
    ensures AllowedFile(name)
  {
    assert name == name[..i] + "." + name[i + 1..];
    SplitLastOf(name[..i], name[i + 1..]);
  }

  /** No allowed extension contains a '.', and each is its own lower-case form. */
  lemma AllowedExtensionsShape(ext: string)
    requires ext in AllowedExtensions
    ensures '.' !in ext && Lower(ext) == ext
  {
    assert ext == "png" || ext == "jpg" || ext == "jpeg";
    assert Lower(ext) == ext by {
      assert forall i :: 0 <= i < |ext| ==> LowerChar(ext[i]) == ext[i];
    }
  }

  /** Only the last suffix counts: "a.exe.png" is accepted. */
  lemma LastSuffixAccepted()
    ensures AllowedFile("a.exe.png")
  {
    assert "a.exe.png" == "a.exe" + "." + "png";
    SplitLastOf("a.exe", "png");
    AllowedExtensionsShape("png");
  }

  /** Only the last suffix counts: "a.png.exe" is refused. */
  lemma EarlierSuffixIgnored()
    ensures !AllowedFile("a.png.exe")
  {
    assert "a.png.exe" == "a.png" + "." + "exe";
    SplitLastOf("a.png", "exe");
    assert Lower("exe")[0] == 'e';
  }

  /** A name without any '.' is refused, even when it is itself an extension. */
  lemma NoDotRejected()
    ensures !AllowedFile("png")
    ensures !AllowedFile("jpeg")
  {
  }

  /** The comparison ignores case: "X.JPG" and "x.Png" are accepted. */
  lemma CaseIgnored()
    ensures AllowedFile("X.JPG")
    ensures AllowedFile("x.Png")
  {
    assert "X.JPG" == "X" + "." + "JPG";
    SplitLastOf("X", "JPG");
    assert Lower("JPG") == "jpg";
    assert "x.Png" == "x" + "." + "Png";
    SplitLastOf("x", "Png");
    assert Lower("Png") == "png";
  }

  /** The stem may be empty (".png" is accepted), the extension may not ("photo." is refused). */
  lemma EmptyParts()
    ensures AllowedFile(".png")
    ensures !AllowedFile("photo.")
  {
    SplitLastOf("", "png");
    AllowedExtensionsShape("png");
    SplitLastOf("photo", "");
  }

  /**
   The stored upload name keeps the accepted extension: with a dot-free
   stem, it passes `allowed_file` itself and its last suffix is exactly
   the stored extension.
   */
  lemma UploadNameKeepsExtension(hex: string, ext: string)
    requires '.' !in hex
    requires ext in AllowedExtensions
    ensures Suffix(UploadName(hex, ext)) == Some(ext)
    ensures AllowedFile(UploadName(hex, ext))
  {
    AllowedExtensionsShape(ext);
    SplitLastOf(hex, ext);
  }

  /** Every result name ends in "_sr.png", whatever the stem, and is itself an accepted png name. */
  lemma ResultNameIsPng(hex: string)
    ensures Suffix(ResultName(hex)) == Some("png")
    ensures AllowedFile(ResultName(hex))
  {
    assert ResultName(hex) == (hex + "_sr") + "." + "png";
    assert "png"[0] != '.' && "png"[1] != '.' && "png"[2] != '.';
    SplitLastOf(hex + "_sr", "png");
    AllowedExtensionsShape("png");
  }

  /** Distinct dot-free stems or distinct extensions give distinct upload names. */
  lemma UploadNameInjective(hex1: string, ext1: string, hex2: string, ext2: string)
    requires '.' !in hex1 && '.' !in hex2
    requires ext1 in AllowedExtensions && ext2 in AllowedExtensions
    requires UploadName(hex1, ext1) == UploadName(hex2, ext2)
    ensures hex1 == hex2 && ext1 == ext2
  {
    AllowedExtensionsShape(ext1);
    AllowedExtensionsShape(ext2);
    SplitLastOf(hex1, ext1);
    SplitLastOf(hex2, ext2);
  }

  /** Distinct stems give distinct result names. */
  lemma ResultNameInjective(hex1: string, hex2: string)
    requires ResultName(hex1) == ResultName(hex2)
    ensures hex1 == hex2
  {
    assert hex1 == ResultName(hex1)[..|hex1|];
    assert hex2 == ResultName(hex2)[..|hex2|];
  }
}
