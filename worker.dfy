/** The exact-hash engine of `AntivirusWorker.py`: three sets of known digests (MD5,
    SHA-1, SHA-256) loaded from line-per-hash files, and a per-file check that looks
    each of the file's digests up in the set of its own kind. */
module Worker {
  import opened Common
  import opened PyString

  datatype HashKind = Md5 | Sha1 | Sha256

  /** The key order of the dicts `load_hash_db` and `get_file_hashes` build, which is
      the order `process_file` checks the kinds in. */
  const Kinds: seq<HashKind> := [Md5, Sha1, Sha256]

  /** The list file each kind is loaded from, inside the threat database directory. */
  function ListFileName(kind: HashKind): string
  {
    match kind
    case Md5 => "full-hash-md5-aa"
    case Sha1 => "full-hash-sha1-aa"
    case Sha256 => "full-hash-sha256-aa"
  }

  /** `hashlib.md5`, `hashlib.sha1`, `hashlib.sha256` followed by `hexdigest()`,
      foreign functions taken as parameters. */
  datatype HashAlgos = HashAlgos(md5: Bytes -> string, sha1: Bytes -> string, sha256: Bytes -> string)
  {
    function HexDigest(kind: HashKind, data: Bytes): string
    {
      match kind
      case Md5 => md5(data)
      case Sha1 => sha1(data)
      case Sha256 => sha256(data)
    }
  }

  type HashDb = map<HashKind, set<string>>

  /** The dict `load_hash_db` returns always has the three keys. */
  predicate WellFormed(db: HashDb)
  {
    Md5 in db && Sha1 in db && Sha256 in db
  }

  /** The set built by adding the stripped lines of a list file one by one. */
  function StrippedSet(lines: seq<string>): set<string>
    decreases |lines|
  {
    if lines == [] then {} else StrippedSet(lines[..|lines| - 1]) + {Strip(lines[|lines| - 1])}
  }

  /** What a list file contributes: nothing when it does not exist. */
  function ListSet(file: TextFile): set<string>
  {
    if file.Lines? then StrippedSet(file.lines) else {}
  }

  /** The list file of `kind` under the database directory. */
  function ListFile(threatDbPath: string, fs: FileSystem, kind: HashKind): TextFile
  {
    Open(fs, Join(threatDbPath, ListFileName(kind)))
  }

  /** One block of `load_hash_db`: add the stripped lines of a list file to a set.
      A missing file adds nothing; a file that cannot be opened or decoded raises. */
  method LoadHashList(file: TextFile) returns (r: Outcome<set<string>>)
    ensures file.Unreadable? <==> r.Raised?
    ensures r.Returned? ==> r.value == ListSet(file)
  {
    match file
    case Missing =>
      return Returned({});
    case Unreadable =>
      return Raised;
    case Lines(lines) =>
      var hashes: set<string> := {};
      var i := 0;
      while i < |lines|
        invariant 0 <= i <= |lines|
        invariant hashes == StrippedSet(lines[..i])
      {
        assert lines[..i + 1][..i] == lines[..i];
        hashes := hashes + {Strip(lines[i])};
        i := i + 1;
      }
      assert lines[..i] == lines;
      return Returned(hashes);
  }

  /** `load_hash_db`: the three sets, each holding exactly the stripped lines of its
      list file (empty when the file is missing); raises when a list file exists but
      cannot be read. */
  method LoadHashDb(threatDbPath: string, fs: FileSystem) returns (r: Outcome<HashDb>)
    ensures r.Raised? <==> exists kind :: ListFile(threatDbPath, fs, kind).Unreadable?
    ensures r.Returned? ==> WellFormed(r.value)
    ensures r.Returned? ==> forall kind :: kind in r.value && r.value[kind] == ListSet(ListFile(threatDbPath, fs, kind))
  {
    var md5 := LoadHashList(ListFile(threatDbPath, fs, Md5));
    if md5.Raised? {
      return Raised;
    }
    var sha1 := LoadHashList(ListFile(threatDbPath, fs, Sha1));
    if sha1.Raised? {
      return Raised;
    }
    var sha256 := LoadHashList(ListFile(threatDbPath, fs, Sha256));
    if sha256.Raised? {
      return Raised;
    }
    var db := map[Md5 := md5.value, Sha1 := sha1.value, Sha256 := sha256.value];
    forall kind: HashKind ensures kind in db && db[kind] == ListSet(ListFile(threatDbPath, fs, kind)) {
      match kind {
        case Md5 =>
        case Sha1 =>
        case Sha256 =>
      }
    }
    r := Returned(db);
  }

  /** A list file's set holds exactly its stripped lines: duplicates collapse and
      nothing else enters. */
  lemma {:induction false} StrippedSetMembers(lines: seq<string>, x: string)
    ensures x in StrippedSet(lines) <==> exists j :: 0 <= j < |lines| && Strip(lines[j]) == x
    decreases |lines|
  {
    if lines != [] {
      var n := |lines| - 1;
      var init := lines[..n];
      assert StrippedSet(lines) == StrippedSet(init) + {Strip(lines[n])};
      StrippedSetMembers(init, x);
      if x in StrippedSet(lines) {
        if x in StrippedSet(init) {
          var j :| 0 <= j < n && Strip(init[j]) == x;
          assert Strip(lines[j]) == x;
        } else {
          assert Strip(lines[n]) == x;
        }
      }
      if exists j :: 0 <= j < |lines| && Strip(lines[j]) == x {
        var j :| 0 <= j < |lines| && Strip(lines[j]) == x;
        if j < n {
          assert Strip(init[j]) == x;
        }
      }
    }
  }

  /** Stripping may only merge lines: a set never has more entries than its file has lines. */
  lemma {:induction false} StrippedSetSize(lines: seq<string>)
    ensures |StrippedSet(lines)| <= |lines|
    decreases |lines|
  {
    if lines != [] {
      var n := |lines| - 1;
      StrippedSetSize(lines[..n]);
    }
  }

  /** A blank line in a list file puts the empty string into its set. */
  lemma BlankLineAddsEmpty(lines: seq<string>, j: nat)
    requires j < |lines|
    requires forall i :: 0 <= i < |lines[j]| ==> IsSpace(lines[j][i])
    ensures "" in StrippedSet(lines)
  {
    StripBlank(lines[j]);
    StrippedSetMembers(lines, "");
  }

  /** The digest of `kind` that `get_file_hashes` gives for a read: None when the read
      failed, otherwise the hex digest of the bytes read. */
  function FileDigest(read: Option<Bytes>, algos: HashAlgos, kind: HashKind): Option<string>
  {
    if read.Some? then Some(algos.HexDigest(kind, read.value)) else None
  }

  /** The file is caught by the set of `kind`: its digest of that kind is in that set
      (`None in s` is False for a set of strings). */
  predicate HitAt(db: HashDb, read: Option<Bytes>, algos: HashAlgos, kind: HashKind)
    requires WellFormed(db)
  {
    FileDigest(read, algos, kind).Some? && FileDigest(read, algos, kind).value in db[kind]
  }

  /** Position of a kind in `Kinds`. */
  function Rank(kind: HashKind): (r: nat)
    ensures r < |Kinds| && Kinds[r] == kind
  {
    match kind
    case Md5 => 0
    case Sha1 => 1
    case Sha256 => 2
  }

  class AntivirusWorker {
    const threatDbPath: string
    var hashDb: HashDb

    ghost predicate Valid()
      reads this
    {
      WellFormed(hashDb)
    }

    /** The worker as `__init__` leaves it once `load_hash_db` has returned `hashDb`. */
    constructor (threatDbPath: string, hashDb: HashDb)
      requires WellFormed(hashDb)
      ensures Valid()
      ensures this.threatDbPath == threatDbPath && this.hashDb == hashDb
    {
      this.threatDbPath := threatDbPath;
      this.hashDb := hashDb;
    }

    /** `get_file_hashes`: all three digests of the same bytes, or all None when the
        read fails. */
    method GetFileHashes(read: Option<Bytes>, algos: HashAlgos) returns (hashes: map<HashKind, Option<string>>)
      ensures Md5 in hashes && Sha1 in hashes && Sha256 in hashes
      ensures read.Some? ==> forall kind :: kind in hashes && hashes[kind] == Some(algos.HexDigest(kind, read.value))
      ensures read.None? ==> forall kind :: kind in hashes && hashes[kind] == None
    {
      hashes := map[Md5 := None, Sha1 := None, Sha256 := None];
      if read.Some? {
        var data := read.value;
        hashes := hashes[Md5 := Some(algos.md5(data))];
        hashes := hashes[Sha1 := Some(algos.sha1(data))];
        hashes := hashes[Sha256 := Some(algos.sha256(data))];
      }
      forall kind: HashKind ensures kind in hashes && hashes[kind] == FileDigest(read, algos, kind) {
        match kind {
          case Md5 =>
          case Sha1 =>
          case Sha256 =>
        }
      }
    }

    /** `process_file` on the file read as `read`. The result is the kind whose check
        returned early with "infected", or None when the file is reported safe. It
        only reads `hashDb` (no `modifies` clause). */
    method ProcessFile(read: Option<Bytes>, algos: HashAlgos) returns (hit: Option<HashKind>)
      requires Valid()
      ensures hit.Some? <==> exists kind :: HitAt(hashDb, read, algos, kind)
      ensures hit.Some? ==> HitAt(hashDb, read, algos, hit.value)
      ensures hit.Some? ==> forall kind :: Rank(kind) < Rank(hit.value) ==> !HitAt(hashDb, read, algos, kind)
      ensures read.None? ==> hit.None?
    {
      var hashes := GetFileHashes(read, algos);
      var i := 0;
      while i < |Kinds|
        invariant 0 <= i <= |Kinds|
        invariant forall kind :: Rank(kind) < i ==> !HitAt(hashDb, read, algos, kind)
      {
        var kind := Kinds[i];
        assert Rank(kind) == i;
        if hashes[kind].Some? && hashes[kind].value in hashDb[kind] {
          return Some(kind);
        }
        i := i + 1;
      }
      return None;
    }
  }

  /** `AntivirusWorker(threat_db_path)` without its queue connection: a fresh worker
      holding the loaded database, or None when loading raised. */
  method NewWorker(threatDbPath: string, fs: FileSystem) returns (w: Option<AntivirusWorker>)
    ensures w.None? <==> exists kind :: ListFile(threatDbPath, fs, kind).Unreadable?
    ensures w.Some? ==> fresh(w.value) && w.value.Valid() && w.value.threatDbPath == threatDbPath
    ensures w.Some? ==> forall kind :: kind in w.value.hashDb && w.value.hashDb[kind] == ListSet(ListFile(threatDbPath, fs, kind))
  {
    var db := LoadHashDb(threatDbPath, fs);
    if db.Raised? {
      return None;
    }
    var worker := new AntivirusWorker(threatDbPath, db.value);
    return Some(worker);
  }
}
