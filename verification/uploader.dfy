/** The per-pattern and per-file pieces of the release uploader
    (src/uploader.rs): splitting a pattern from its display name, resolving
    it to regular files, deriving an object key and guessing a content type.

    The filesystem and the glob crate are not modelled; they are an oracle
    `FileSystem` the caller passes in. */
module Uploader {
  import opened Results
  import opened Text

  type Path = string

  /** What `Path::is_file` / `Path::is_dir` report for an existing path
      (after following symbolic links). */
  datatype PathKind = RegularFile | Directory | OtherKind

  /** One item of the glob crate's iterator: a matched path, or an entry
      that could not be read (a `GlobError`, shown by its message). */
  datatype GlobEntry = Matched(path: Path) | Unreadable(reason: string)

  /** The outside world as the uploader observes it.
      - `kinds`: the kind of every existing path; a path that is not a key
        does not exist.
      - `glob`: the glob crate's `glob` function; `Err` carries the
        `PatternError` message of a malformed pattern.
      - `fileName`: `Path::file_name` followed by `to_str`; `None` when the
        path has no final component or that component is not UTF-8. */
  datatype FileSystem = FileSystem(
    kinds: map<Path, PathKind>,
    glob: string -> Result<seq<GlobEntry>, string>,
    fileName: Path -> Option<string>)

  predicate IsFile(fs: FileSystem, p: Path) {
    p in fs.kinds && fs.kinds[p] == RegularFile
  }

  predicate IsDir(fs: FileSystem, p: Path) {
    p in fs.kinds && fs.kinds[p] == Directory
  }

  /** The failures the uploader raises (through `anyhow`). */
  datatype Error =
    | DirectoryPattern(dir: Path)
    | InvalidGlob(pattern: string, complaint: string)
    | NoAssetsFound
    | UploadFailed(path: Path, cause: string)

  /** The refusal of a directory names it and suggests the glob that
      would take the files inside it. */
  function DirectoryMessage(d: Path): (msg: string)
    ensures IsInfix(d, msg) && IsInfix(d + "/*", msg)
  {
    var lead := "Directory '";
    var middle := "' cannot be uploaded directly. Use a glob pattern like '";
    var tail := "' to upload files from the directory.";
    var msg := lead + d + middle + d + "/*" + tail;
    assert msg == lead + d + (middle + d + "/*" + tail);
    assert msg == (lead + d + middle) + (d + "/*") + tail;
    InfixOfConcat(lead, d, middle + d + "/*" + tail);
    InfixOfConcat(lead + d + middle, d + "/*", tail);
    msg
  }

  /** The text each failure is reported with. An upload failure is shown by
      its outermost context; the backend's own message is its cause. */
  function Describe(e: Error): (msg: string)
    ensures e.DirectoryPattern? ==> IsInfix(e.dir, msg) && IsInfix(e.dir + "/*", msg)
    ensures e.InvalidGlob? ==> IsInfix(e.pattern, msg) && IsInfix(e.complaint, msg)
    ensures e.UploadFailed? ==> IsInfix(e.path, msg)
    ensures e.NoAssetsFound? ==> msg == "No assets found matching the specified patterns"
  {
    match e
    case DirectoryPattern(d) => DirectoryMessage(d)
    case InvalidGlob(p, why) =>
      var msg := "Invalid glob pattern '" + p + "': " + why;
      assert msg == "Invalid glob pattern '" + p + ("': " + why);
      InfixOfConcat("Invalid glob pattern '", p, "': " + why);
      InfixOfConcat("Invalid glob pattern '" + p + "': ", why, "");
      assert msg == "Invalid glob pattern '" + p + "': " + why + "";
      msg
    case NoAssetsFound =>
      "No assets found matching the specified patterns"
    case UploadFailed(p, _) =>
      var msg := "Failed to upload asset: " + p;
      InfixOfConcat("Failed to upload asset: ", p, "");
      assert msg == "Failed to upload asset: " + p + "";
      msg
  }

  // ---------------------------------------------------------------------
  // Pattern split

  /** A pattern cut into the part handed to the resolver and the optional
      human-readable label after `#`. */
  datatype ParsedPattern = ParsedPattern(filePattern: string, displayName: Option<string>)

  /** `parse_pattern`: splits at the first `#` and trims both sides; with no
      `#` the pattern is kept exactly as given, untrimmed. */
  function ParsePattern(pattern: string): (r: ParsedPattern)
    ensures r.displayName.None? <==> '#' !in pattern
    ensures '#' !in pattern ==> r.filePattern == pattern
  {
    match FirstIndexOf(pattern, '#')
    case None => ParsedPattern(pattern, None)
    case Some(h) => ParsedPattern(Trim(pattern[..h]), Some(Trim(pattern[h + 1..])))
  }

  /** With a `#` at `h` and none before it, the path part is the trimmed
      text before `h` and the label the trimmed text after it. */
  lemma ParsePatternAtFirstHash(pattern: string, h: nat)
    requires h < |pattern| && pattern[h] == '#' && '#' !in pattern[..h]
    ensures ParsePattern(pattern)
            == ParsedPattern(Trim(pattern[..h]), Some(Trim(pattern[h + 1..])))
  {
    FirstIndexUnique(pattern, '#', h);
  }

  /** Joining a `#`-free path part and any label with `#` and parsing it
      back gives both parts, trimmed; further `#`s belong to the label. */
  lemma ParsePatternSplit(path: string, shown: string)
    requires '#' !in path
    ensures ParsePattern(path + "#" + shown) == ParsedPattern(Trim(path), Some(Trim(shown)))
  {
    var p := path + "#" + shown;
    assert p[|path|] == '#';
    assert p[..|path|] == path;
    assert p[|path| + 1..] == shown;
    ParsePatternAtFirstHash(p, |path|);
  }

  // ---------------------------------------------------------------------
  // File resolver

  /** `find_matching_files`: an existing regular file is taken as is, an
      existing directory is refused, anything else is glob-expanded. */
  function FindMatchingFiles(fs: FileSystem, pattern: string): (r: Result<seq<Path>, Error>)
    ensures IsFile(fs, pattern) ==> r == Ok([pattern])
    ensures IsDir(fs, pattern) ==> r == Err(DirectoryPattern(pattern))
    ensures !IsFile(fs, pattern) && !IsDir(fs, pattern) ==> r == MatchGlobPattern(fs, pattern)
    ensures r.Ok? ==> forall p :: p in r.value ==> IsFile(fs, p)
    ensures r.Err? ==> r.error.DirectoryPattern? || r.error.InvalidGlob?
  {
    if IsFile(fs, pattern) then Ok([pattern])
    else if IsDir(fs, pattern) then Err(DirectoryPattern(pattern))
    else MatchGlobPattern(fs, pattern)
  }

  /** An exact file path is resolved without consulting glob: replacing the
      glob oracle does not change the outcome. */
  lemma ExistingFileBypassesGlob(fs: FileSystem, pattern: string,
                                 otherGlob: string -> Result<seq<GlobEntry>, string>)
    requires IsFile(fs, pattern)
    ensures FindMatchingFiles(fs.(glob := otherGlob), pattern) == FindMatchingFiles(fs, pattern) == Ok([pattern])
  {
  }

  /** `match_glob_pattern`: a malformed pattern fails; otherwise the matched
      regular files, in glob order. */
  function MatchGlobPattern(fs: FileSystem, pattern: string): (r: Result<seq<Path>, Error>)
    ensures r.Err? <==> fs.glob(pattern).Err?
    ensures r.Err? ==> r.error == InvalidGlob(pattern, fs.glob(pattern).error)
    ensures r.Ok? ==> r.value == RegularFilesAmong(fs, fs.glob(pattern).value)
  {
    match fs.glob(pattern)
    case Err(complaint) => Err(InvalidGlob(pattern, complaint))
    case Ok(entries) => Ok(RegularFilesAmong(fs, entries))
  }

  /** The loop of `match_glob_pattern`: keeps each matched path that is a
      regular file and passes over unreadable entries. */
  function RegularFilesAmong(fs: FileSystem, entries: seq<GlobEntry>): (files: seq<Path>)
    ensures |files| <= |entries|
    ensures forall p :: p in files ==> Matched(p) in entries && IsFile(fs, p)
  {
    if entries == [] then []
    else
      var rest := RegularFilesAmong(fs, entries[1..]);
      assert forall p :: p in rest ==> Matched(p) in entries[1..];
      match entries[0]
      case Matched(p) => if IsFile(fs, p) then [p] + rest else rest
      case Unreadable(_) => rest
  }

  /** No matched regular file is dropped. */
  lemma {:induction false} RegularFilesAmongComplete(fs: FileSystem, entries: seq<GlobEntry>, p: Path)
    requires Matched(p) in entries && IsFile(fs, p)
    ensures p in RegularFilesAmong(fs, entries)
  {
    if entries[0] != Matched(p) {
      assert Matched(p) in entries[1..];
      RegularFilesAmongComplete(fs, entries[1..], p);
    }
  }

  /** Filtering respects glob order: the files of a concatenation are the
      files of each part, in turn. */
  lemma {:induction false} RegularFilesAmongAppend(fs: FileSystem, a: seq<GlobEntry>, b: seq<GlobEntry>)
    ensures RegularFilesAmong(fs, a + b) == RegularFilesAmong(fs, a) + RegularFilesAmong(fs, b)
  {
    if a != [] {
      var ab := a + b;
      assert ab[0] == a[0];
      assert ab[1..] == a[1..] + b;
      RegularFilesAmongAppend(fs, a[1..], b);
      match a[0]
      case Matched(p) =>
        if IsFile(fs, p) {
          assert RegularFilesAmong(fs, ab) == [p] + RegularFilesAmong(fs, ab[1..]);
          assert RegularFilesAmong(fs, a) == [p] + RegularFilesAmong(fs, a[1..]);
        } else {
          assert RegularFilesAmong(fs, ab) == RegularFilesAmong(fs, ab[1..]);
          assert RegularFilesAmong(fs, a) == RegularFilesAmong(fs, a[1..]);
        }
      case Unreadable(_) =>
        assert RegularFilesAmong(fs, ab) == RegularFilesAmong(fs, ab[1..]);
        assert RegularFilesAmong(fs, a) == RegularFilesAmong(fs, a[1..]);
    } else {
      assert a + b == b;
    }
  }

  /** An unreadable entry is skipped without failing and without changing
      what the rest of the expansion yields. */
  lemma UnreadableEntrySkipped(fs: FileSystem, a: seq<GlobEntry>, reason: string, b: seq<GlobEntry>)
    ensures RegularFilesAmong(fs, a + [Unreadable(reason)] + b) == RegularFilesAmong(fs, a + b)
  {
    var tail := [Unreadable(reason)] + b;
    assert a + [Unreadable(reason)] + b == a + tail;
    assert RegularFilesAmong(fs, tail) == RegularFilesAmong(fs, b) by {
      assert tail[0] == Unreadable(reason) && tail[1..] == b;
    }
    RegularFilesAmongAppend(fs, a, tail);
    RegularFilesAmongAppend(fs, a, b);
  }

  // ---------------------------------------------------------------------
  // Key generator

  /** Placeholder used when a path has no usable final component. */
  const UnknownName := "unknown"

  /** The final component of `path` as it appears in an object key. */
  function KeyName(fs: FileSystem, path: Path): string {
    fs.fileName(path).UnwrapOr(UnknownName)
  }

  /** `generate_s3_key`: `<package>/<tag>/<file name>`, total. */
  function GenerateKey(fs: FileSystem, packageName: string, tag: string, path: Path): (key: string)
    ensures |key| == |packageName| + |tag| + 2 + |KeyName(fs, path)|
    ensures key[|packageName|] == '/' && key[|packageName| + |tag| + 1] == '/'
  {
    packageName + "/" + tag + "/" + KeyName(fs, path)
  }

  /** A key reads back as its three parts: the package name, `/`, the tag,
      `/`, then the final component of the path, or `unknown` when the path
      has none. */
  lemma KeyLayout(fs: FileSystem, packageName: string, tag: string, path: Path)
    ensures var key := GenerateKey(fs, packageName, tag, path);
            var n := |packageName| + |tag| + 2;
            && |key| == n + |KeyName(fs, path)|
            && key[..|packageName|] == packageName && key[|packageName|] == '/'
            && key[|packageName| + 1..n - 1] == tag && key[n - 1] == '/'
            && key[n..] == KeyName(fs, path)
            && (fs.fileName(path).None? ==> key[n..] == "unknown")
            && (fs.fileName(path).Some? ==> key[n..] == fs.fileName(path).value)
  {
  }

  /** Under one package and tag, two paths share a key exactly when they
      share a final component (for instance `a/x.zip` and `b/x.zip`). */
  lemma KeyCollision(fs: FileSystem, packageName: string, tag: string, p: Path, q: Path)
    ensures GenerateKey(fs, packageName, tag, p) == GenerateKey(fs, packageName, tag, q)
            <==> KeyName(fs, p) == KeyName(fs, q)
  {
    var n := |packageName| + |tag| + 2;
    var kp := GenerateKey(fs, packageName, tag, p);
    var kq := GenerateKey(fs, packageName, tag, q);
    KeyLayout(fs, packageName, tag, p);
    KeyLayout(fs, packageName, tag, q);
    if kp == kq {
      assert KeyName(fs, p) == kp[n..] == kq[n..] == KeyName(fs, q);
    }
  }

  // ---------------------------------------------------------------------
  // Content types

  /** `Path::extension` applied to a final component: the text after its
      last `.`, absent when there is no `.`, when the only one leads the
      name, or for `..`. */
  function Extension(name: string): (ext: Option<string>)
    ensures ext.None? <==> name == ".." || '.' !in name || (name[0] == '.' && '.' !in name[1..])
    ensures ext.Some? ==> '.' !in ext.value && |ext.value| + 1 < |name|
                          && name[|name| - |ext.value| - 1] == '.'
                          && name[|name| - |ext.value|..] == ext.value
  {
    if name == ".." then None
    else
      match LastIndexOf(name, '.')
      case None => None
      case Some(i) =>
        if i == 0 then None else Some(name[i + 1..])
  }

  /** The extension of `stem.ext` is `ext`, whatever dots `stem` holds. */
  lemma ExtensionOfJoin(stem: string, ext: string)
    requires stem != [] && '.' !in ext && !(stem == "." && ext == [])
    ensures Extension(stem + "." + ext) == Some(ext)
  {
    var name := stem + "." + ext;
    assert name[|stem|] == '.';
    assert name[|stem| + 1..] == ext;
    LastIndexUnique(name, '.', |stem|);
    assert name != ".." by {
      assert name[0] == stem[0];
      if |name| == 2 {
        assert stem == [stem[0]];
      }
    }
  }

  const OctetStream := "application/octet-stream"

  /** The fixed extension table of `guess_content_type`. */
  const ContentTypes: map<string, string> := map[
    "zip" := "application/zip",
    "tar" := "application/x-tar",
    "gz" := "application/gzip",
    "exe" := OctetStream,
    "msi" := "application/x-msi",
    "dmg" := "application/x-apple-diskimage",
    "deb" := "application/vnd.debian.binary-package",
    "rpm" := "application/x-rpm",
    "json" := "application/json",
    "txt" := "text/plain",
    "md" := "text/markdown"
  ]

  /** The extension of a path's final component, if any. */
  function FileExtension(fs: FileSystem, path: Path): Option<string> {
    match fs.fileName(path)
    case None => None
    case Some(name) => Extension(name)
  }

  /** `guess_content_type`: always some type; the generic binary type
      exactly when the extension is missing, outside the table, or `exe`. */
  function GuessContentType(fs: FileSystem, path: Path): (r: Option<string>)
    ensures r.Some?
    ensures r.value == OctetStream <==>
              var ext := FileExtension(fs, path);
              ext.None? || ext.value !in ContentTypes || ext.value == "exe"
    ensures r.value in ContentTypes.Values
  {
    var ext := FileExtension(fs, path);
    if ext.Some? && ext.value in ContentTypes then
      Some(ContentTypes[ext.value])
    else
      assert ContentTypes["exe"] == OctetStream;
      Some(OctetStream)
  }

  /** The content type depends on the last extension only: a final
      component `stem.ext` gets the table's entry for `ext`, and the generic
      binary type when `ext` is not in the table. */
  lemma ContentTypeOfLastExtension(fs: FileSystem, path: Path, stem: string, ext: string)
    requires fs.fileName(path) == Some(stem + "." + ext)
    requires stem != [] && '.' !in ext && !(stem == "." && ext == [])
    ensures GuessContentType(fs, path)
            == Some(if ext in ContentTypes then ContentTypes[ext] else OctetStream)
  {
    ExtensionOfJoin(stem, ext);
  }

  /** `archive.tar.gz` is gzip: only the last extension counts. */
  lemma ContentTypeOfArchive(fs: FileSystem, archive: Path)
    requires fs.fileName(archive) == Some("archive.tar.gz")
    ensures GuessContentType(fs, archive) == Some("application/gzip")
  {
    assert "archive.tar.gz" == "archive.tar" + "." + "gz";
    ExtensionOfJoin("archive.tar", "gz");
    assert FileExtension(fs, archive) == Some("gz");
    assert "gz" in ContentTypes && ContentTypes["gz"] == "application/gzip";
  }

  /** A name without a dot is generic binary. */
  lemma ContentTypeWithoutExtension(fs: FileSystem, plain: Path)
    requires fs.fileName(plain) == Some("noext")
    ensures GuessContentType(fs, plain) == Some(OctetStream)
  {
    assert '.' !in "noext";
    assert FileExtension(fs, plain) == None;
  }
}
