/** The older MD5-only engine of `antivirus.py`: a signature list read from one text
    file, a membership test per file, and a directory scan that refuses to start on an
    empty list and logs every infected file with its hash. */
module Antivirus {
  import opened Common
  import opened PyString

  /** `SIGNATURE_DB_FILE`. */
  const SignatureDbFile := "signature_db.txt"

  /** The stripped lines of a file, one entry per line, in file order. */
  function Stripped(lines: seq<string>): seq<string>
  {
    seq(|lines|, j requires 0 <= j < |lines| => Strip(lines[j]))
  }

  /** The list `load_signatures` returns when it returns: empty for a missing file. */
  function SignatureList(fs: FileSystem): seq<string>
  {
    match Open(fs, SignatureDbFile)
    case Lines(lines) => Stripped(lines)
    case _ => []
  }

  /** `load_signatures()`: one stripped entry per line of the signature file, in file
      order and keeping duplicates; an empty list when the file does not exist
      (`FileNotFoundError` is caught); any other read error propagates. */
  method LoadSignatures(fs: FileSystem) returns (r: Outcome<seq<string>>)
    ensures r.Raised? <==> Open(fs, SignatureDbFile).Unreadable?
    ensures Open(fs, SignatureDbFile).Missing? ==> r == Returned([])
    ensures Open(fs, SignatureDbFile).Lines? ==>
      var lines := Open(fs, SignatureDbFile).lines;
      r.Returned? && |r.value| == |lines| && forall j :: 0 <= j < |lines| ==> r.value[j] == Strip(lines[j])
    ensures r.Returned? ==> r.value == SignatureList(fs)
  {
    match Open(fs, SignatureDbFile)
    case Missing =>
      return Returned([]);
    case Unreadable =>
      return Raised;
    case Lines(lines) =>
      var signatures: seq<string> := [];
      var i := 0;
      while i < |lines|
        invariant 0 <= i <= |lines|
        invariant |signatures| == i
        invariant forall j :: 0 <= j < i ==> signatures[j] == Strip(lines[j])
      {
        signatures := signatures + [Strip(lines[i])];
        i := i + 1;
      }
      return Returned(signatures);
  }

  /** `scan_file(filepath, signatures)` on the bytes read: `(True, h)` exactly when
      `h`, the file's own MD5 hex digest, is in the list, otherwise `(False, None)`.
      A failed read raises: the function has no handler. */
  function ScanFile(read: Option<Bytes>, signatures: seq<string>, md5: Bytes -> string)
    : (r: Outcome<(bool, Option<string>)>)
    ensures r.Raised? <==> read.None?
    ensures r.Returned? ==> (r.value.0 <==> md5(read.value) in signatures)
    ensures r.Returned? && r.value.0 ==> r.value.1 == Some(md5(read.value))
    ensures r.Returned? && !r.value.0 ==> r.value.1 == None
  {
    match read
    case None => Raised
    case Some(data) =>
      var fileHash := md5(data);
      if fileHash in signatures then Returned((true, Some(fileHash))) else Returned((false, None))
  }

  /** One file as `os.walk` lists it under a directory, with what reading it gives. */
  datatype WalkFile = WalkFile(name: string, read: Option<Bytes>)

  /** One `(root, _, files)` triple of `os.walk`. */
  datatype WalkDir = WalkDir(root: string, files: seq<WalkFile>)

  /** A file to scan: its joined path and what reading it gives. */
  datatype Target = Target(path: string, read: Option<Bytes>)

  /** What the user sees: the warning dialog and the lines inserted into the log. */
  datatype LogLine =
    | EmptyDatabaseWarning
    | ScanningDirectory(directory: string)
    | InfectedFile(path: string, hash: string)
    | ScanningCompleted

  /** The log a run leaves, and whether an exception ended it. */
  datatype Run = Run(log: seq<LogLine>, raised: bool)

  function Targets(dir: WalkDir): seq<Target>
  {
    seq(|dir.files|, j requires 0 <= j < |dir.files| => Target(Join(dir.root, dir.files[j].name), dir.files[j].read))
  }

  /** Every file of the walk, in walk order. */
  function Walked(walk: seq<WalkDir>): seq<Target>
    decreases |walk|
  {
    if walk == [] then [] else Targets(walk[0]) + Walked(walk[1..])
  }

  /** The infection lines scanning `targets` in order produces, stopping at the first
      file whose read raises. */
  function Report(targets: seq<Target>, signatures: seq<string>, md5: Bytes -> string): Run
    decreases |targets|
  {
    if targets == [] then Run([], false)
    else
      match ScanFile(targets[0].read, signatures, md5)
      case Raised => Run([], true)
      case Returned((infected, fileHash)) =>
        var rest := Report(targets[1..], signatures, md5);
        Run((if infected then [InfectedFile(targets[0].path, fileHash.value)] else []) + rest.log, rest.raised)
  }

  /** Scanning a concatenation: the first part, then (unless it raised) the second. */
  lemma {:induction false} ReportAppend(a: seq<Target>, b: seq<Target>, signatures: seq<string>, md5: Bytes -> string)
    ensures Report(a + b, signatures, md5) ==
      if Report(a, signatures, md5).raised then Report(a, signatures, md5)
      else Run(Report(a, signatures, md5).log + Report(b, signatures, md5).log, Report(b, signatures, md5).raised)
    decreases |a|
  {
    if a == [] {
      assert a + b == b;
    } else {
      assert (a + b)[0] == a[0];
      assert (a + b)[1..] == a[1..] + b;
      if a[0].read.Some? {
        ReportAppend(a[1..], b, signatures, md5);
        var fileHash := md5(a[0].read.value);
        var line := if fileHash in signatures then [InfectedFile(a[0].path, fileHash)] else [];
        var tail, second := Report(a[1..], signatures, md5), Report(b, signatures, md5);
        assert Report(a, signatures, md5) == Run(line + tail.log, tail.raised);
        assert (line + tail.log) + second.log == line + (tail.log + second.log);
      }
    }
  }

  /** The run after `log` when `targets` remain to be scanned: their infection lines,
      then the completion line unless a read raised. */
  function Finish(log: seq<LogLine>, targets: seq<Target>, signatures: seq<string>, md5: Bytes -> string): Run
  {
    var report := Report(targets, signatures, md5);
    Run(log + report.log + (if report.raised then [] else [ScanningCompleted]), report.raised)
  }

  /** Scanning the next readable target appends its infection line, if any, to the log. */
  lemma FinishStep(log: seq<LogLine>, targets: seq<Target>, signatures: seq<string>, md5: Bytes -> string)
    requires targets != [] && targets[0].read.Some?
    ensures
      var fileHash := md5(targets[0].read.value);
      var line := if fileHash in signatures then [InfectedFile(targets[0].path, fileHash)] else [];
      Finish(log, targets, signatures, md5) == Finish(log + line, targets[1..], signatures, md5)
  {
    var rest := Report(targets[1..], signatures, md5);
    var fileHash := md5(targets[0].read.value);
    var line := if fileHash in signatures then [InfectedFile(targets[0].path, fileHash)] else [];
    assert Report(targets, signatures, md5) == Run(line + rest.log, rest.raised);
    assert log + (line + rest.log) == (log + line) + rest.log;
  }

  /** The nested `os.walk` loop of `scan_directory`, continuing the log `start`. */
  method ScanWalk(start: seq<LogLine>, walk: seq<WalkDir>, signatures: seq<string>, md5: Bytes -> string)
    returns (run: Run)
    ensures run == Finish(start, Walked(walk), signatures, md5)
  {
    var log := start;
    var i := 0;
    while i < |walk|
      invariant 0 <= i <= |walk|
      invariant Finish(log, Walked(walk[i..]), signatures, md5) == Finish(start, Walked(walk), signatures, md5)
    {
      var dir := walk[i];
      assert walk[i..][1..] == walk[i + 1..];
      assert Walked(walk[i..]) == Targets(dir) + Walked(walk[i + 1..]);
      var j := 0;
      assert Targets(dir)[j..] == Targets(dir);
      while j < |dir.files|
        invariant 0 <= j <= |dir.files|
        invariant Finish(log, Targets(dir)[j..] + Walked(walk[i + 1..]), signatures, md5)
          == Finish(start, Walked(walk), signatures, md5)
      {
        var file := dir.files[j];
        var filepath := Join(dir.root, file.name);
        ghost var remaining := Targets(dir)[j..] + Walked(walk[i + 1..]);
        assert remaining[0] == Target(filepath, file.read);
        assert remaining[1..] == Targets(dir)[j + 1..] + Walked(walk[i + 1..]);
        var result := ScanFile(file.read, signatures, md5);
        if result.Raised? {
          assert log + [] + [] == log;
          return Run(log, true);
        }
        FinishStep(log, remaining, signatures, md5);
        var (infected, fileHash) := result.value;
        if infected {
          log := log + [InfectedFile(filepath, fileHash.value)];
        } else {
          assert log + [] == log;
        }
        j := j + 1;
      }
      assert Targets(dir)[j..] == [];
      assert [] + Walked(walk[i + 1..]) == Walked(walk[i + 1..]);
      i := i + 1;
    }
    assert walk[i..] == [];
    assert log + [] == log;
    log := log + [ScanningCompleted];
    return Run(log, false);
  }

  /** `scan_directory(directory, log_text)`: refuses to scan on an empty signature
      list; otherwise logs the directory, then one line per infected file in walk
      order with its MD5, then completion. A file whose read raises ends the run
      there, without the completion line. */
  method ScanDirectory(directory: string, fs: FileSystem, walk: seq<WalkDir>, md5: Bytes -> string) returns (run: Run)
    ensures Open(fs, SignatureDbFile).Unreadable? ==> run == Run([], true)
    ensures !Open(fs, SignatureDbFile).Unreadable? && SignatureList(fs) == [] ==>
      run == Run([EmptyDatabaseWarning], false)
    ensures !Open(fs, SignatureDbFile).Unreadable? && SignatureList(fs) != [] ==>
      run == Finish([ScanningDirectory(directory)], Walked(walk), SignatureList(fs), md5)
  {
    var loaded := LoadSignatures(fs);
    if loaded.Raised? {
      return Run([], true);
    }
    var signatures := loaded.value;
    if signatures == [] {
      return Run([EmptyDatabaseWarning], false);
    }
    run := ScanWalk([ScanningDirectory(directory)], walk, signatures, md5);
  }

  /** A run raises exactly when some file of the walk cannot be read. */
  lemma {:induction false} ReportRaisesOnUnreadable(targets: seq<Target>, signatures: seq<string>, md5: Bytes -> string)
    ensures Report(targets, signatures, md5).raised <==> exists i :: 0 <= i < |targets| && targets[i].read.None?
    decreases |targets|
  {
    if targets != [] {
      ReportRaisesOnUnreadable(targets[1..], signatures, md5);
      if exists i :: 0 <= i < |targets| && targets[i].read.None? {
        var i :| 0 <= i < |targets| && targets[i].read.None?;
        if i > 0 {
          assert targets[1..][i - 1].read.None?;
        }
      }
      if exists i :: 0 <= i < |targets[1..]| && targets[1..][i].read.None? {
        var i :| 0 <= i < |targets[1..]| && targets[1..][i].read.None?;
        assert targets[i + 1].read.None?;
      }
    }
  }

  /** When every file can be read, the log names exactly the files `scan_file` found
      infected, each with the hash it returned, which is that file's own MD5. */
  lemma {:induction false} ReportsExactlyInfected(
    targets: seq<Target>, signatures: seq<string>, md5: Bytes -> string, path: string, fileHash: string)
    requires forall i :: 0 <= i < |targets| ==> targets[i].read.Some?
    ensures InfectedFile(path, fileHash) in Report(targets, signatures, md5).log <==>
      exists i :: 0 <= i < |targets| && targets[i].path == path
        && ScanFile(targets[i].read, signatures, md5) == Returned((true, Some(fileHash)))
    ensures InfectedFile(path, fileHash) in Report(targets, signatures, md5).log ==>
      exists i :: 0 <= i < |targets| && targets[i].path == path && fileHash == md5(targets[i].read.value)
    decreases |targets|
  {
    if targets != [] {
      var rest := targets[1..];
      ReportsExactlyInfected(rest, signatures, md5, path, fileHash);
      var head := ScanFile(targets[0].read, signatures, md5);
      if InfectedFile(path, fileHash) in Report(rest, signatures, md5).log {
        var i :| 0 <= i < |rest| && rest[i].path == path
          && ScanFile(rest[i].read, signatures, md5) == Returned((true, Some(fileHash)));
        assert targets[i + 1] == rest[i];
      }
      if exists i :: 0 <= i < |targets| && targets[i].path == path
          && ScanFile(targets[i].read, signatures, md5) == Returned((true, Some(fileHash))) {
        var i :| 0 <= i < |targets| && targets[i].path == path
          && ScanFile(targets[i].read, signatures, md5) == Returned((true, Some(fileHash)));
        if i > 0 {
          assert rest[i - 1] == targets[i];
        }
      }
    }
  }

  /** Files after the first unreadable one are never scanned: the run is what the
      files before it produced, and it raised. */
  lemma StopsAtFirstUnreadable(targets: seq<Target>, signatures: seq<string>, md5: Bytes -> string, k: nat)
    requires k < |targets| && targets[k].read.None?
    requires forall i :: 0 <= i < k ==> targets[i].read.Some?
    ensures Report(targets, signatures, md5) == Run(Report(targets[..k], signatures, md5).log, true)
  {
    assert targets == targets[..k] + targets[k..];
    ReportAppend(targets[..k], targets[k..], signatures, md5);
    ReportRaisesOnUnreadable(targets[..k], signatures, md5);
  }
}
