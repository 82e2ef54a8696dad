/** Project files (files/models.py): the defaults `save` fills in from the
    attached file, the download counter and the extension of the original
    name, as `os.path.splitext` computes it on a POSIX system. */
module FileModels {
  import opened Common

  const FallbackMimeType: string := "application/octet-stream"

  /** The size stored by `save`: the attached file's size, but only when no
      (non-zero) size is recorded yet. */
  function SavedSize(fileSize: int, hasFile: bool, attachedSize: int): (r: int)
    ensures fileSize != 0 ==> r == fileSize
    ensures !hasFile ==> r == fileSize
    ensures fileSize == 0 && hasFile ==> r == attachedSize
  {
    if fileSize == 0 && hasFile then attachedSize else fileSize
  }

  /** The MIME type stored by `save`: filled only when empty and a file is
      attached, from the guess when it gives a non-empty type and from the
      generic binary type otherwise. `guess` is what the standard library's
      type guesser returns for the stored name. */
  function SavedMime(mimeType: string, hasFile: bool, guess: Option<string>): (r: string)
    ensures mimeType != "" ==> r == mimeType
    ensures !hasFile ==> r == mimeType
    ensures mimeType == "" && hasFile ==> r != ""
    ensures mimeType == "" && hasFile && guess.Some? && guess.value != "" ==> r == guess.value
    ensures mimeType == "" && hasFile && (guess.None? || guess.value == "") ==> r == FallbackMimeType
  {
    if mimeType == "" && hasFile then
      if guess.Some? && guess.value != "" then guess.value else FallbackMimeType
    else
      mimeType
  }

  /** Saving twice stores what saving once does: once a file is attached,
      the first save leaves a non-empty type, and a non-zero size, or the
      same zero to copy again. */
  lemma SaveIdempotent(fileSize: int, mimeType: string, hasFile: bool, attachedSize: int, g1: Option<string>, g2: Option<string>)
    ensures SavedSize(SavedSize(fileSize, hasFile, attachedSize), hasFile, attachedSize) == SavedSize(fileSize, hasFile, attachedSize)
    ensures SavedMime(SavedMime(mimeType, hasFile, g1), hasFile, g2) == SavedMime(mimeType, hasFile, g1)
  {
  }

  /** An uploaded file; the fields are those `save` and the download counter
      touch, plus the attached file itself (whether there is one, its size). */
  class ProjectFile {
    var originalName: string
    var fileSize: int
    var mimeType: string
    var downloadCount: int
    var hasFile: bool
    var attachedSize: int

    constructor (originalName: string, hasFile: bool, attachedSize: int)
      ensures this.originalName == originalName && this.hasFile == hasFile && this.attachedSize == attachedSize
      ensures fileSize == 0 && mimeType == "" && downloadCount == 0
    {
      this.originalName := originalName;
      this.hasFile := hasFile;
      this.attachedSize := attachedSize;
      fileSize := 0;
      mimeType := "";
      downloadCount := 0;
    }

    /** `ProjectFile.save`: fills in the size and the type, then stores the row. */
    method Save(guess: Option<string>)
      modifies this
      ensures fileSize == SavedSize(old(fileSize), hasFile, attachedSize)
      ensures mimeType == SavedMime(old(mimeType), hasFile, guess)
      ensures unchanged(this`originalName, this`downloadCount, this`hasFile, this`attachedSize)
    {
      if fileSize == 0 && hasFile {
        fileSize := attachedSize;
      }
      if mimeType == "" && hasFile {
        mimeType := if guess.Some? && guess.value != "" then guess.value else FallbackMimeType;
      }
    }

    /** `ProjectFile.increment_download_count`: one more download, nothing else. */
    method IncrementDownloadCount()
      modifies this
      ensures downloadCount == old(downloadCount) + 1
      ensures unchanged(this`originalName, this`fileSize, this`mimeType, this`hasFile, this`attachedSize)
    {
      downloadCount := downloadCount + 1;
    }
  }

  /** Position of the last `c` in `s`, or -1: `str.rfind`. */
  function LastIndexOf(s: string, c: char): (r: int)
    ensures -1 <= r < |s|
    ensures r >= 0 ==> s[r] == c
    ensures forall k :: r < k < |s| ==> s[k] != c
    decreases |s|
  {
    if |s| == 0 then -1
    else if s[|s| - 1] == c then |s| - 1
    else LastIndexOf(s[..|s| - 1], c)
  }

  /** Every character of `s[lo..hi]` is a dot. */
  predicate AllDots(s: string, lo: int, hi: int)
    requires 0 <= lo && hi <= |s|
  {
    forall k :: lo <= k < hi ==> s[k] == '.'
  }

  /** The extension half of `os.path.splitext(p)`: from the last dot of the
      final path component, unless that component is dots up to that point
      (so `.bashrc` has none). */
  function SplitExt(p: string): (ext: string)
    ensures ext == "" || ext[0] == '.'
    ensures ext != "" ==> exists k :: 0 <= k < |p| && ext == p[k..]
  {
    var sep := LastIndexOf(p, '/');
    var dot := LastIndexOf(p, '.');
    if dot > sep && !AllDots(p, sep + 1, dot) then
      assert p[dot..][0] == '.';
      p[dot..]
    else
      ""
  }

  function LowerChar(c: char): char
  {
    if 'A' <= c <= 'Z' then (c as int + 32) as char else c
  }

  predicate IsAsciiUpper(c: char)
  {
    'A' <= c <= 'Z'
  }

  /** `str.lower` restricted to the ASCII letters: 'A' to 'Z' become 'a' to
      'z' and every other character is kept. */
  function Lower(s: string): (r: string)
    ensures |r| == |s|
    ensures forall i :: 0 <= i < |s| ==> r[i] == LowerChar(s[i])
    ensures forall i :: 0 <= i < |r| ==> !IsAsciiUpper(r[i])
  {
    seq(|s|, i requires 0 <= i < |s| => LowerChar(s[i]))
  }

  /** `ProjectFile.file_extension`: the lower-cased extension of the
      original name. */
  function FileExtension(originalName: string): (r: string)
    ensures r == "" || r[0] == '.'
    ensures forall i :: 0 <= i < |r| ==> !IsAsciiUpper(r[i])
  {
    Lower(SplitExt(originalName))
  }

  /** A non-empty extension is the lower-cased tail of the name from its last
      dot, and that dot lies in the final path component after some
      character other than a dot. */
  lemma ExtensionIsTailFromLastDot(name: string)
    requires FileExtension(name) != ""
    ensures exists k :: (0 <= k < |name| && name[k] == '.' &&
                         (forall j :: k < j < |name| ==> name[j] != '.' && name[j] != '/') &&
                         FileExtension(name) == Lower(name[k..]))
  {
    var sep := LastIndexOf(name, '/');
    var dot := LastIndexOf(name, '.');
    assert dot > sep;
    assert name[dot] == '.';
  }

  /** A name whose final component has no dot has no extension. */
  lemma NoDotNoExtension(name: string)
    requires forall k :: LastIndexOf(name, '/') < k < |name| ==> name[k] != '.'
    ensures FileExtension(name) == ""
  {
    assert LastIndexOf(name, '.') <= LastIndexOf(name, '/');
  }

  /** A final component that is dots followed by a dot-free name, like
      `.bashrc` or `..profile`, has no extension. */
  lemma LeadingDotsNoExtension(dir: string, dots: nat, rest: string)
    requires forall k :: 0 <= k < |rest| ==> rest[k] != '.' && rest[k] != '/'
    requires dir == "" || dir[|dir| - 1] == '/'
    ensures FileExtension(dir + seq(dots, _ => '.') + rest) == ""
  {
    var p := dir + seq(dots, _ => '.') + rest;
    var sep := LastIndexOf(p, '/');
    var dot := LastIndexOf(p, '.');
    if dots > 0 {
      assert p[|dir| + dots - 1] == '.';
      assert dot == |dir| + dots - 1;
    } else {
      assert dot < |dir|;
    }
    if dir != "" {
      assert p[|dir| - 1] == '/';
    }
    assert sep < |dir|;
    assert sep >= |dir| - 1;
    assert dot > sep ==> AllDots(p, sep + 1, dot);
  }

  /** A name ending in a dot-free suffix after a stem that does not end in a
      dot or a slash (`Report.PDF`) has that suffix, lower-cased, as its
      extension. */
  lemma StemDotSuffixExtension(stem: string, suffix: string)
    requires |stem| > 0 && stem[|stem| - 1] != '.' && stem[|stem| - 1] != '/'
    requires forall k :: 0 <= k < |suffix| ==> suffix[k] != '.' && suffix[k] != '/'
    ensures FileExtension(stem + "." + suffix) == Lower("." + suffix)
  {
    var p := stem + "." + suffix;
    var sep := LastIndexOf(p, '/');
    var dot := LastIndexOf(p, '.');
    assert p[|stem|] == '.';
    assert dot == |stem|;
    assert p[|stem| - 1] == stem[|stem| - 1];
    assert sep < |stem| - 1;
    assert !AllDots(p, sep + 1, dot);
    assert p[dot..] == "." + suffix;
  }

  /** Lower-casing is idempotent, so the extension is already lower case. */
  lemma LowerIdempotent(s: string)
    ensures Lower(Lower(s)) == Lower(s)
  {
  }
}
