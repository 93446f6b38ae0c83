/**
 * The content-addressed store of compressed pages (`src/store/data.rs`):
 * a page whose digest is `D` lives at `<base>/<D[0]>/<D>.gz`, under one of
 * 32 single-character directories. The file system is a parameter: what
 * `read_dir` lists, which paths are regular files, and what reading a
 * file yields. Paths are sequences of component names.
 */
module StoreData {
  import opened Wrappers
  import opened Text
  import Digest
  import Base32
  import Sorting

  type Path = seq<string>

  datatype Error =
    | Unexpected(path: Path)
    | InvalidDigest(text: string)
    | IOError(ioError: Digest.IoError)
    | ItemIOError(digest: string, error: Digest.IoError)
    | DigestComputationError

  datatype FileKind = RegularFile | Directory | OtherKind

  /** An entry of a directory listing: the listed directory, the entry's
      name, and its file type or the failure met reading it. */
  datatype DirEntry = DirEntry(dir: Path, name: string, fileType: Result<FileKind, Digest.IoError>)

  function EntryPath(e: DirEntry): Path {
    e.dir + [e.name]
  }

  /** The file system as the store sees it. */
  datatype FileSystem = FileSystem(
    readDir: Path -> Result<seq<Result<DirEntry, Digest.IoError>>, Digest.IoError>,
    isFile: Path -> bool,
    open: Path -> Result<seq<Digest.ReadResult>, Digest.IoError>)

  /** `Store`: the base directory. */
  datatype Store = Store(base: Path)

  /** `is_valid_char`: `2`-`7` or an ASCII capital. */
  predicate IsValidChar(c: char) {
    ('2' <= c <= '7') || ('A' <= c <= 'Z')
  }

  /** The store's characters are the symbols of the digest alphabet. */
  lemma ValidCharsAreSymbols(c: char)
    ensures IsValidChar(c) <==> Base32.IsSymbol(c)
    ensures IsValidChar(c) <==> c in Digest.DIGEST_CHARS
  {
    Digest.DigestCharsAreTheAlphabet();
  }

  /** `NAMES`: the names of the store's directories. */
  const NAMES: set<string> := set c: char | '2' <= c <= 'Z' && IsValidChar(c) :: [c]

  lemma NamesExactly(s: string)
    ensures s in NAMES <==> |s| == 1 && IsValidChar(s[0])
  {
    if |s| == 1 && IsValidChar(s[0]) {
      assert s == [s[0]];
    }
  }

  /** How `NAMES` is built: the names `2`..`7`, then `A`..`Z`; 32 names in
      all. */
  method BuildNames() returns (names: set<string>)
    ensures names == NAMES && |names| == 32
  {
    names := {};
    for k := 0 to 6
      invariant forall s :: s in names <==> |s| == 1 && '2' <= s[0] && s[0] as int < '2' as int + k
      invariant |names| == k
    {
      var c := ('2' as int + k) as char;
      assert [c] !in names;
      forall s: string | |s| == 1 && s[0] == c
        ensures s == [c]
      {
      }
      names := names + {[c]};
    }
    for k := 0 to 26
      invariant forall s :: s in names <==> |s| == 1 && (('2' <= s[0] <= '7') || ('A' <= s[0] && s[0] as int < 'A' as int + k))
      invariant |names| == 6 + k
    {
      var c := ('A' as int + k) as char;
      assert [c] !in names;
      forall s: string | |s| == 1 && s[0] == c
        ensures s == [c]
      {
      }
      names := names + {[c]};
    }
    forall s | s in names || s in NAMES
      ensures s in names <==> s in NAMES
    {
      NamesExactly(s);
    }
  }

  /** `is_valid_digest`: 32 valid characters. (The source compares the
      byte length, which for valid characters is their number.) */
  predicate IsValidDigest(s: string) {
    |s| == 32 && forall i :: 0 <= i < |s| ==> IsValidChar(s[i])
  }

  /** `is_valid_prefix`: at most 32 valid characters. */
  predicate IsValidPrefix(s: string) {
    |s| <= 32 && forall i :: 0 <= i < |s| ==> IsValidChar(s[i])
  }

  /** The store accepts exactly the digests the digest module does; the
      empty prefix, every valid digest and every prefix of a valid prefix
      are valid prefixes. */
  lemma ValidDigestsAndPrefixes(s: string)
    ensures IsValidDigest(s) <==> Digest.IsValidDigest(s)
    ensures IsValidPrefix("")
    ensures IsValidDigest(s) ==> IsValidPrefix(s)
    ensures IsValidPrefix(s) ==> forall k :: 0 <= k <= |s| ==> IsValidPrefix(s[..k])
  {
  }

  /** `location`: where the page with a digest is stored; `None` for text
      that is not a valid digest. */
  function Location(store: Store, digest: string): (r: Option<Path>)
    ensures r.Some? <==> IsValidDigest(digest)
    ensures r.Some? ==> |r.value| == |store.base| + 2 && r.value[..|store.base|] == store.base
    ensures r.Some? ==> r.value[|store.base|] in NAMES && r.value[|store.base| + 1] == digest + ".gz"
  {
    if IsValidDigest(digest) then
      NamesExactly([digest[0]]);
      Some(store.base + [[digest[0]], digest + ".gz"])
    else None
  }

  /** Distinct digests are stored at distinct places. */
  lemma LocationInjective(store: Store, d1: string, d2: string)
    requires Location(store, d1).Some? && Location(store, d1) == Location(store, d2)
    ensures d1 == d2
  {
    var p := Location(store, d1).value;
    assert p[|store.base| + 1] == d1 + ".gz" == d2 + ".gz";
    assert d1 == (d1 + ".gz")[..32] == (d2 + ".gz")[..32] == d2;
  }

  /** `lookup`: the location of a digest, when a regular file is there. */
  function Lookup(fs: FileSystem, store: Store, digest: string): (r: Option<Path>)
    ensures r.Some? <==> IsValidDigest(digest) && fs.isFile(Location(store, digest).value)
    ensures r.Some? ==> r == Location(store, digest)
  {
    match Location(store, digest)
    case None => None
    case Some(path) => if fs.isFile(path) then Some(path) else None
  }

  /** `contains`: whether a page with the digest is stored. */
  predicate Contains(fs: FileSystem, store: Store, digest: string) {
    Lookup(fs, store, digest).Some?
  }

  lemma ContainsExactly(fs: FileSystem, store: Store, digest: string)
    ensures Contains(fs, store, digest) <==>
      IsValidDigest(digest) && fs.isFile(store.base + [[digest[0]], digest + ".gz"])
  {
  }

  /** The position of the last `.` of a name. */
  function LastDot(s: string): (r: Option<nat>)
    ensures r.Some? ==> r.value < |s| && s[r.value] == '.' && forall k :: r.value < k < |s| ==> s[k] != '.'
    ensures r.None? ==> forall k :: 0 <= k < |s| ==> s[k] != '.'
  {
    if s == [] then None
    else if s[|s| - 1] == '.' then Some(|s| - 1)
    else LastDot(s[..|s| - 1])
  }

  /** A file name split at its last `.` into stem and extension; a name
      with no `.` past its first character has no extension. */
  function SplitExtension(name: string): (parts: (string, Option<string>))
    ensures parts.1.None? ==> parts.0 == name
    ensures parts.1.Some? ==> name == parts.0 + "." + parts.1.value && parts.0 != ""
  {
    if name == ".." then (name, None)
    else match LastDot(name)
      case None => (name, None)
      case Some(i) =>
        if i == 0 then (name, None)
        else
          assert name == name[..i] + "." + name[i + 1..];
          (name[..i], Some(name[i + 1..]))
  }

  /** The last component of a path, if it names something. */
  function FileName(p: Path): Option<string> {
    if p == [] || p[|p| - 1] == ".." then None else Some(p[|p| - 1])
  }

  /** `Path::file_stem`. */
  function FileStem(p: Path): Option<string> {
    match FileName(p)
    case None => None
    case Some(name) => Some(SplitExtension(name).0)
  }

  /** `Path::extension`. */
  function Extension(p: Path): Option<string> {
    match FileName(p)
    case None => None
    case Some(name) => SplitExtension(name).1
  }

  /** The name of a stored page splits back into its digest and `gz`. */
  lemma StoredName(store: Store, digest: string)
    requires IsValidDigest(digest)
    ensures FileStem(Location(store, digest).value) == Some(digest)
    ensures Extension(Location(store, digest).value) == Some("gz")
  {
    var name := digest + ".gz";
    assert name[32] == '.' && name[33] != '.' && name[34] != '.';
    assert LastDot(name) == Some(32);
    assert name[..32] == digest && name[33..] == "gz";
  }

  /** `check_file_entry`: a regular file whose stem starts with the
      directory's name gives its stem and path; anything else is
      unexpected. */
  function CheckFileEntry(first: string, entry: DirEntry): (r: Result<(string, Path), Error>)
    ensures entry.fileType.Failure? ==> r == Failure(IOError(entry.fileType.error))
    ensures r.Success? <==>
      entry.fileType == Success(RegularFile) && FileStem(EntryPath(entry)).Some?
      && StartsWith(FileStem(EntryPath(entry)).value, first)
    ensures r.Success? ==> r.value == (FileStem(EntryPath(entry)).value, EntryPath(entry))
    ensures entry.fileType.Success? && r.Failure? ==> r == Failure(Unexpected(EntryPath(entry)))
  {
    match entry.fileType
    case Failure(e) => Failure(IOError(e))
    case Success(kind) =>
      if kind == RegularFile then
        (match FileStem(EntryPath(entry))
         case None => Failure(Unexpected(EntryPath(entry)))
         case Some(name) =>
           if StartsWith(name, first) then Success((name, EntryPath(entry)))
           else Failure(Unexpected(EntryPath(entry))))
      else Failure(Unexpected(EntryPath(entry)))
  }

  /** `check_dir_entry`: a directory named in `NAMES` gives its name;
      anything else is unexpected. */
  function CheckDirEntry(entry: DirEntry): (r: Result<string, Error>)
    ensures entry.fileType.Failure? ==> r == Failure(IOError(entry.fileType.error))
    ensures r.Success? <==> entry.fileType == Success(Directory) && entry.name in NAMES
    ensures r.Success? ==> r.value == entry.name
    ensures entry.fileType.Success? && r.Failure? ==> r == Failure(Unexpected(EntryPath(entry)))
  {
    match entry.fileType
    case Failure(e) => Failure(IOError(e))
    case Success(kind) =>
      if kind == Directory then
        if entry.name in NAMES then Success(entry.name) else Failure(Unexpected(EntryPath(entry)))
      else Failure(Unexpected(EntryPath(entry)))
  }

  /** One listed entry of a store directory named `first`. */
  function CheckListed(first: string, listed: Result<DirEntry, Digest.IoError>): Result<(string, Path), Error> {
    match listed
    case Failure(e) => Failure(IOError(e))
    case Success(entry) => CheckFileEntry(first, entry)
  }

  /** The entries of a store directory named `first`, checked one by one. */
  function FilePaths(first: string, files: seq<Result<DirEntry, Digest.IoError>>): (r: seq<Result<(string, Path), Error>>)
    ensures |r| == |files| && forall i :: 0 <= i < |files| ==> r[i] == CheckListed(first, files[i])
  {
    seq(|files|, i requires 0 <= i < |files| => CheckListed(first, files[i]))
  }

  /** What `paths` yields for one entry of the base directory. */
  function DirPaths(fs: FileSystem, entry: DirEntry): seq<Result<(string, Path), Error>> {
    match CheckDirEntry(entry)
    case Failure(e) => [Failure(e)]
    case Success(first) =>
      match fs.readDir(EntryPath(entry))
      case Failure(e) => [Failure(IOError(e))]
      case Success(files) => FilePaths(first, files)
  }

  function AllDirPaths(fs: FileSystem, dirs: seq<DirEntry>): seq<Result<(string, Path), Error>> {
    if dirs == [] then [] else DirPaths(fs, dirs[0]) + AllDirPaths(fs, dirs[1..])
  }

  /** The order `sort_by_key` puts directory entries in: by name. */
  predicate ByName(a: DirEntry, b: DirEntry) {
    Sorting.StrLt(a.name, b.name)
  }

  /** `paths`: the base directory is listed (any failure of the listing is
      the one result), its entries sorted by name, and each store
      directory's files checked in listing order. */
  function Paths(fs: FileSystem, store: Store): seq<Result<(string, Path), Error>> {
    match fs.readDir(store.base)
    case Failure(e) => [Failure(IOError(e))]
    case Success(listing) =>
      match Collect(listing)
      case Failure(e) => [Failure(IOError(e))]
      case Success(dirs) => AllDirPaths(fs, Sorting.Sort(dirs, ByName))
  }

  /** What every success of `paths` satisfies: a regular file whose stem
      begins with a valid character, named by a store directory. */
  predicate WellPlaced(r: Result<(string, Path), Error>) {
    r.Success? ==> |r.value.0| >= 1 && IsValidChar(r.value.0[0]) && FileStem(r.value.1) == Some(r.value.0)
  }

  lemma DirPathsWellPlaced(fs: FileSystem, entry: DirEntry)
    ensures forall r :: r in DirPaths(fs, entry) ==> WellPlaced(r)
  {
    var c := CheckDirEntry(entry);
    if c.Success? {
      NamesExactly(c.value);
    }
  }

  lemma {:induction false} AllDirPathsWellPlaced(fs: FileSystem, dirs: seq<DirEntry>)
    ensures forall r :: r in AllDirPaths(fs, dirs) ==> WellPlaced(r)
  {
    if dirs != [] {
      DirPathsWellPlaced(fs, dirs[0]);
      AllDirPathsWellPlaced(fs, dirs[1..]);
    }
  }

  /** Every path `paths` yields is a file of a store directory whose stem
      starts with that directory's character. */
  lemma PathsWellPlaced(fs: FileSystem, store: Store)
    ensures forall r :: r in Paths(fs, store) ==> WellPlaced(r)
  {
    var listing := fs.readDir(store.base);
    if listing.Success? && Collect(listing.value).Success? {
      AllDirPathsWellPlaced(fs, Sorting.Sort(Collect(listing.value).value, ByName));
    }
  }

  /** The checked entries that pass the prefix filter: every failure, and
      each success whose name starts with the prefix, in order. */
  function KeepMatching(prefix: string, rs: seq<Result<(string, Path), Error>>): (r: seq<Result<(string, Path), Error>>)
    ensures |r| <= |rs|
    ensures forall x :: x in r <==> x in rs && (x.Failure? || StartsWith(x.value.0, prefix))
  {
    if rs == [] then []
    else if rs[0].Failure? || StartsWith(rs[0].value.0, prefix) then [rs[0]] + KeepMatching(prefix, rs[1..])
    else KeepMatching(prefix, rs[1..])
  }

  /** `paths_for_prefix`: all paths for the empty prefix; for a valid
      prefix, the files of the directory named by its first character whose
      stems start with it (and every failure); otherwise one error. */
  function PathsForPrefix(fs: FileSystem, store: Store, prefix: string): (r: seq<Result<(string, Path), Error>>)
    ensures prefix == "" ==> r == Paths(fs, store)
    ensures prefix != "" && !IsValidPrefix(prefix) ==> r == [Failure(InvalidDigest(prefix))]
    ensures prefix != "" ==> forall x :: x in r && x.Success? ==> StartsWith(x.value.0, prefix)
    ensures prefix != "" && IsValidPrefix(prefix) && fs.readDir(store.base + [[prefix[0]]]).Failure? ==>
      r == [Failure(IOError(fs.readDir(store.base + [[prefix[0]]]).error))]
    ensures prefix != "" && IsValidPrefix(prefix) && fs.readDir(store.base + [[prefix[0]]]).Success? ==>
      forall x :: x in r <==>
        x in FilePaths([prefix[0]], fs.readDir(store.base + [[prefix[0]]]).value)
        && (x.Failure? || StartsWith(x.value.0, prefix))
  {
    if prefix == "" then Paths(fs, store)
    else if IsValidPrefix(prefix) then
      var first := [prefix[0]];
      match fs.readDir(store.base + [first])
      case Failure(e) => [Failure(IOError(e))]
      case Success(files) => KeepMatching(prefix, FilePaths(first, files))
    else [Failure(InvalidDigest(prefix))]
  }

  /** A stored page is found under any prefix of its digest: a regular
      file listed in the directory of its first character, named after its
      digest, is among the paths for each non-empty prefix. */
  lemma StoredPageListed(fs: FileSystem, store: Store, digest: string, prefix: string, entry: DirEntry)
    requires IsValidDigest(digest) && prefix != "" && StartsWith(digest, prefix)
    requires fs.readDir(store.base + [[digest[0]]]).Success?
    requires Success(entry) in fs.readDir(store.base + [[digest[0]]]).value
    requires entry.fileType == Success(RegularFile) && entry.name == digest + ".gz"
    ensures Success((digest, EntryPath(entry))) in PathsForPrefix(fs, store, prefix)
  {
    var name := digest + ".gz";
    assert name[32] == '.' && name[33] != '.' && name[34] != '.';
    assert LastDot(name) == Some(32);
    assert name[..32] == digest;
    assert FileStem(EntryPath(entry)) == Some(digest);
    assert prefix[0] == digest[0];
    var files := fs.readDir(store.base + [[digest[0]]]).value;
    var i :| 0 <= i < |files| && files[i] == Success(entry);
    assert FilePaths([digest[0]], files)[i] == Success((digest, EntryPath(entry)));
  }

  /** A candidate file name: a valid digest with the extension `gz`. */
  predicate IsCandidate(candidate: Path) {
    FileStem(candidate).Some? && Extension(candidate) == Some("gz") && IsValidDigest(FileStem(candidate).value)
  }

  /** How a path is shown in an error. */
  function Display(p: Path): string {
    if p == [] then "" else Join(p, '/')
  }

  /** `check_file_location`: whether a file named `<digest>.gz` outside the
      store belongs in it. A digest already stored gives `None`; otherwise
      the file is decompressed and digested, and its name comes back with
      the location it belongs at when the digest matches the name, or with
      the digest found when it does not. Names that are not a digest with
      the extension `gz` are rejected. */
  function CheckFileLocation(fs: FileSystem, store: Store, candidate: Path,
                             gunzip: seq<Digest.ReadResult> -> seq<Digest.ReadResult>,
                             sha1: seq<U8> -> Digest.Sha1Value)
    : (r: Result<Option<(string, Result<Path, string>)>, Error>)
    ensures !IsCandidate(candidate) ==> r.Failure? && r.error.InvalidDigest?
    ensures r == Success(None) <==>
      IsCandidate(candidate) && fs.isFile(Location(store, FileStem(candidate).value).value)
    ensures r.Success? && r.value.Some? ==>
      && IsCandidate(candidate) && !fs.isFile(Location(store, FileStem(candidate).value).value)
      && fs.open(candidate).Success?
      && r.value.value.0 == FileStem(candidate).value
      && (r.value.value.1.Success? <==>
            Digest.DigestOfStream(gunzip(fs.open(candidate).value), sha1) == Success(FileStem(candidate).value))
      && (r.value.value.1.Success? ==> r.value.value.1.value == Location(store, FileStem(candidate).value).value)
      && (r.value.value.1.Failure? ==>
            Digest.DigestOfStream(gunzip(fs.open(candidate).value), sha1) == Success(r.value.value.1.error))
    ensures IsCandidate(candidate) && r.Failure? ==> r.error.IOError?
  {
    match (FileStem(candidate), Extension(candidate))
    case (Some(name), Some(ext)) =>
      if IsValidDigest(name) && ext == "gz" then
        var location := Location(store, name).value;
        if fs.isFile(location) then Success(None)
        else
          (match fs.open(candidate)
           case Failure(e) => Failure(IOError(e))
           case Success(stream) =>
             match Digest.DigestOfStream(gunzip(stream), sha1)
             case Failure(e) => Failure(IOError(e))
             case Success(digest) =>
               Success(Some((name, if digest == name then Success(location) else Failure(digest)))))
      else Failure(InvalidDigest(name))
    case _ => Failure(InvalidDigest(Display(candidate)))
  }

  /** A page already at its place in the store needs nothing done. */
  lemma StoredPageChecked(fs: FileSystem, store: Store, digest: string,
                          gunzip: seq<Digest.ReadResult> -> seq<Digest.ReadResult>,
                          sha1: seq<U8> -> Digest.Sha1Value)
    requires Contains(fs, store, digest)
    ensures CheckFileLocation(fs, store, Location(store, digest).value, gunzip, sha1) == Success(None)
  {
    StoredName(store, digest);
  }

  /** A page not yet stored whose content matches the digest it is named
      after is assigned that digest's location. */
  lemma MatchingPageLocated(fs: FileSystem, store: Store, candidate: Path, digest: string,
                            gunzip: seq<Digest.ReadResult> -> seq<Digest.ReadResult>,
                            sha1: seq<U8> -> Digest.Sha1Value)
    requires IsValidDigest(digest) && FileStem(candidate) == Some(digest) && Extension(candidate) == Some("gz")
    requires !Contains(fs, store, digest)
    requires fs.open(candidate).Success?
    requires Digest.DigestOfStream(gunzip(fs.open(candidate).value), sha1) == Success(digest)
    ensures CheckFileLocation(fs, store, candidate, gunzip, sha1) == Success(Some((digest, Success(Location(store, digest).value))))
  {
  }
}
