/** The TLSH engine of `scanner.py`: a signature map loaded from a directory of JSON
    records, a first-match keyword heuristic, and the per-file verdict that puts an
    exact TLSH match before the heuristic. */
module Scanner {
  import opened Common
  import opened PyString

  /** A value as `json.load` returns it. */
  datatype JsonValue =
    | JNull
    | JBool(b: bool)
    | JNumber(n: real)
    | JNonFinite  // `NaN`, `Infinity` or `-Infinity`, which `json.load` accepts
    | JString(s: string)
    | JArray(items: seq<JsonValue>)
    | JObject(members: map<string, JsonValue>)

  /** Python truthiness of a loaded JSON value. */
  predicate Truthy(v: JsonValue)
  {
    match v
    case JNull => false
    case JBool(b) => b
    case JNumber(n) => n != 0.0
    case JNonFinite => true
    case JString(s) => s != []
    case JArray(items) => items != []
    case JObject(members) => members != map[]
  }

  /** What opening and `json.load`-ing one listed file gives. */
  datatype Parse = ReadFailed | InvalidJson | Parsed(value: JsonValue)

  /** One name of the directory listing, with what reading it as JSON would give. */
  datatype DirEntry = DirEntry(filename: string, parse: Parse)

  /** The signature directory: it does not exist, it exists but `os.listdir` raises,
      or its listing in `os.listdir` order. */
  datatype SignatureDir = Absent | Unlistable | Listing(entries: seq<DirEntry>)

  /** Upper-cased TLSH digest to threat name (any truthy JSON value). */
  type Signatures = map<string, JsonValue>

  const SignatureSuffix := ".json"

  /** `data.get(key)` on a JSON object. */
  function Get(members: map<string, JsonValue>, key: string): JsonValue
  {
    if key in members then members[key] else JNull
  }

  /** The (key, name) pair one listing entry adds to the map, or None when the entry
      is skipped: not a `.json` name, unreadable, invalid JSON, not an object (so
      `.get` raises), a falsy `tlsh` or `name`, or a `tlsh` that is not a string (so
      `.upper()` raises); every exception is caught per file. */
  function Contribution(e: DirEntry): (c: Option<(string, JsonValue)>)
    ensures c.Some? <==>
      && EndsWith(e.filename, SignatureSuffix)
      && e.parse.Parsed? && e.parse.value.JObject?
      && Get(e.parse.value.members, "tlsh").JString?
      && Get(e.parse.value.members, "tlsh").s != []
      && Truthy(Get(e.parse.value.members, "name"))
    ensures c.Some? ==>
      && c.value.0 == Upper(Get(e.parse.value.members, "tlsh").s)
      && c.value.1 == Get(e.parse.value.members, "name")
  {
    if !EndsWith(e.filename, SignatureSuffix) then None
    else
      match e.parse
      case Parsed(JObject(members)) =>
        var tlsh := Get(members, "tlsh");
        var name := Get(members, "name");
        if !(Truthy(tlsh) && Truthy(name)) then None
        else if !tlsh.JString? then None
        else Some((Upper(tlsh.s), name))
      case _ => None
  }

  /** Whether entry `e` adds the key `key`. */
  predicate ContributesKey(e: DirEntry, key: string)
  {
    Contribution(e).Some? && Contribution(e).value.0 == key
  }

  /** The map after processing one more listing entry. */
  function Add(m: Signatures, e: DirEntry): Signatures
  {
    match Contribution(e)
    case Some((key, name)) => m[key := name]
    case None => m
  }

  /** The map after processing `entries` in listing order, starting from `m`. */
  function LoadInto(m: Signatures, entries: seq<DirEntry>): Signatures
    decreases |entries|
  {
    if entries == [] then m else LoadInto(Add(m, entries[0]), entries[1..])
  }

  /** `load_signatures(directory)`. */
  method LoadSignatures(dir: SignatureDir) returns (r: Outcome<Signatures>)
    ensures dir.Absent? ==> r == Returned(map[])
    ensures dir.Unlistable? ==> r == Raised
    ensures dir.Listing? ==> r == Returned(LoadInto(map[], dir.entries))
  {
    match dir
    case Absent =>
      return Returned(map[]);
    case Unlistable =>
      return Raised;
    case Listing(entries) =>
      var signatures: Signatures := map[];
      var i := 0;
      while i < |entries|
        invariant 0 <= i <= |entries|
        invariant LoadInto(signatures, entries[i..]) == LoadInto(map[], entries)
      {
        match Contribution(entries[i]) {
          case Some((key, name)) =>
            signatures := signatures[key := name];
          case None =>
        }
        i := i + 1;
      }
      return Returned(signatures);
  }

  /** Loading a concatenation is loading the second part on top of the first. */
  lemma {:induction false} LoadIntoAppend(m: Signatures, a: seq<DirEntry>, b: seq<DirEntry>)
    ensures LoadInto(m, a + b) == LoadInto(LoadInto(m, a), b)
    decreases |a|
  {
    if a != [] {
      assert (a + b)[1..] == a[1..] + b;
      LoadIntoAppend(Add(m, a[0]), a[1..], b);
    } else {
      assert a + b == b;
    }
  }

  /** A skipped entry (bad JSON, unreadable, incomplete, wrong name) anywhere in the
      listing leaves the loaded map exactly as if it were not there. */
  lemma SkippedEntryIsHarmless(a: seq<DirEntry>, e: DirEntry, b: seq<DirEntry>)
    requires Contribution(e).None?
    ensures LoadInto(map[], a + [e] + b) == LoadInto(map[], a + b)
  {
    LoadIntoAppend(map[], a + [e], b);
    LoadIntoAppend(map[], a, [e]);
    LoadIntoAppend(map[], a, b);
    assert LoadInto(Add(LoadInto(map[], a), e), []) == LoadInto(map[], a);
  }

  /** Reference definition: the name of the LAST entry in the listing that adds `key`. */
  function LastName(entries: seq<DirEntry>, key: string): Option<JsonValue>
    decreases |entries|
  {
    if entries == [] then None
    else if ContributesKey(entries[|entries| - 1], key) then
      Some(Contribution(entries[|entries| - 1]).value.1)
    else LastName(entries[..|entries| - 1], key)
  }

  /** The loaded map holds exactly the keys some accepted record adds, each mapped to
      the name of the last such record in listing order. */
  lemma {:induction false} LoadIsLastWins(entries: seq<DirEntry>, key: string)
    ensures key in LoadInto(map[], entries) <==> LastName(entries, key).Some?
    ensures key in LoadInto(map[], entries) ==> LoadInto(map[], entries)[key] == LastName(entries, key).value
    decreases |entries|
  {
    if entries != [] {
      var n := |entries| - 1;
      assert entries == entries[..n] + [entries[n]];
      LoadIntoAppend(map[], entries[..n], [entries[n]]);
      LoadIsLastWins(entries[..n], key);
    }
  }

  /** Some record adds `key` exactly when `LastName` finds one. */
  lemma {:induction false} LastNameFound(entries: seq<DirEntry>, key: string)
    ensures LastName(entries, key).Some? <==> exists i :: 0 <= i < |entries| && ContributesKey(entries[i], key)
    decreases |entries|
  {
    if entries != [] {
      var n := |entries| - 1;
      LastNameFound(entries[..n], key);
      if LastName(entries, key).Some? && !ContributesKey(entries[n], key) {
        var i :| 0 <= i < n && ContributesKey(entries[..n][i], key);
        assert entries[i] == entries[..n][i];
      }
      if !ContributesKey(entries[n], key) && exists i :: 0 <= i < |entries| && ContributesKey(entries[i], key) {
        var i :| 0 <= i < |entries| && ContributesKey(entries[i], key);
        assert entries[..n][i] == entries[i];
      }
    }
  }

  /** `LastName` names a real record: the last one in the listing adding `key`. */
  lemma {:induction false} LastNameIsLastRecord(entries: seq<DirEntry>, key: string)
    requires LastName(entries, key).Some?
    ensures exists i ::
      && 0 <= i < |entries| && ContributesKey(entries[i], key)
      && LastName(entries, key).value == Contribution(entries[i]).value.1
      && forall j :: i < j < |entries| ==> !ContributesKey(entries[j], key)
    decreases |entries|
  {
    var n := |entries| - 1;
    if ContributesKey(entries[n], key) {
      assert LastName(entries, key).value == Contribution(entries[n]).value.1;
    } else {
      var init := entries[..n];
      LastNameIsLastRecord(init, key);
      var i :| 0 <= i < n && ContributesKey(init[i], key)
        && LastName(init, key).value == Contribution(init[i]).value.1
        && forall j :: i < j < n ==> !ContributesKey(init[j], key);
      assert entries[i] == init[i];
      forall j | i < j < |entries| ensures !ContributesKey(entries[j], key) {
        if j < n {
          assert entries[j] == init[j];
        }
      }
    }
  }

  /** Every key of a loaded map is already upper case. */
  lemma {:induction false} LoadedKeysAreUpper(m: Signatures, entries: seq<DirEntry>)
    requires forall k :: k in m ==> Upper(k) == k
    ensures forall k :: k in LoadInto(m, entries) ==> Upper(k) == k
    decreases |entries|
  {
    if entries != [] {
      var c := Contribution(entries[0]);
      if c.Some? {
        var t := Get(entries[0].parse.value.members, "tlsh").s;
        assert Upper(Upper(t)) == Upper(t);
      }
      LoadedKeysAreUpper(Add(m, entries[0]), entries[1..]);
    }
  }

  /** The computed digest is looked up as it is: one holding a lower-case letter is
      never a key of a loaded map. */
  lemma LowerCaseDigestNeverMatches(entries: seq<DirEntry>, digest: string)
    requires exists i :: 0 <= i < |digest| && IsLowerAscii(digest[i])
    ensures digest !in LoadInto(map[], entries)
  {
    LoadedKeysAreUpper(map[], entries);
    if digest in LoadInto(map[], entries) {
      UpperHasNoLower(digest, digest);
    }
  }

  /** `tlsh.hash` and `tlsh.isValidTlsh`, foreign functions taken as parameters. */
  datatype Tlsh = Tlsh(hash: Bytes -> string, isValid: string -> bool)

  /** `get_file_tlsh`: the digest of the bytes read, kept only when it is valid;
      None for an invalid digest or a failed read. */
  function GetFileTlsh(read: Option<Bytes>, lib: Tlsh): (r: Option<string>)
    ensures r.Some? <==> read.Some? && lib.isValid(lib.hash(read.value))
    ensures r.Some? ==> r.value == lib.hash(read.value)
  {
    match read
    case None => None
    case Some(data) =>
      var digest := lib.hash(data);
      if lib.isValid(digest) then Some(digest) else None
  }

  const SuspiciousKeywords: seq<string> := ["eval", "exec", "shell", "base64", "import", "marshal", "pickle"]

  const HeuristicPrefix := "Suspicious keyword detected: "

  /** The index of the first of `keywords[from..]` that occurs in `content`. */
  function FirstOccurring(keywords: seq<string>, content: string, from: nat): (r: Option<nat>)
    requires from <= |keywords|
    ensures r.Some? ==>
      && from <= r.value < |keywords|
      && Occurs(keywords[r.value], content)
      && forall j :: from <= j < r.value ==> !Occurs(keywords[j], content)
    ensures r.None? ==> forall j :: from <= j < |keywords| ==> !Occurs(keywords[j], content)
    decreases |keywords| - from
  {
    if from == |keywords| then None
    else if Occurs(keywords[from], content) then Some(from)
    else FirstOccurring(keywords, content, from + 1)
  }

  /** `heuristic_analysis`: names the first suspicious keyword, in list order, that
      occurs in the text read; None when none occurs or the read fails. */
  function HeuristicAnalysis(text: Option<string>): (r: Option<string>)
    ensures r.Some? <==>
      text.Some? && exists i :: 0 <= i < |SuspiciousKeywords| && Occurs(SuspiciousKeywords[i], text.value)
    ensures r.Some? ==>
      exists i :: 0 <= i < |SuspiciousKeywords|
        && r.value == HeuristicPrefix + SuspiciousKeywords[i]
        && Occurs(SuspiciousKeywords[i], text.value)
        && forall j :: 0 <= j < i ==> !Occurs(SuspiciousKeywords[j], text.value)
  {
    match text
    case None => None
    case Some(content) =>
      match FirstOccurring(SuspiciousKeywords, content, 0)
      case None => None
      case Some(i) => Some(HeuristicPrefix + SuspiciousKeywords[i])
  }

  /** A text calling `exec` on decoded base64 is flagged for `exec`, wherever the call
      stands in the text, unless the text also holds `eval`, the only keyword before
      `exec` in the list. */
  lemma ExecPayloadIsFlagged(text: string)
    requires Occurs("exec(base64.b64decode(...))", text)
    requires !Occurs("eval", text)
    ensures HeuristicAnalysis(Some(text)) == Some(HeuristicPrefix + "exec")
  {
    var payload := "exec(base64.b64decode(...))";
    assert SuspiciousKeywords[1] <= payload;
    OccursOfPrefix(SuspiciousKeywords[1], payload, text);
    assert FirstOccurring(SuspiciousKeywords, text, 1) == Some(1);
  }

  /** `import` is one of the keywords: a plain import statement is flagged. */
  lemma ImportIsFlagged(text: string)
    requires text == "import os\n"
    ensures HeuristicAnalysis(Some(text)) == Some(HeuristicPrefix + "import")
  {
    assert !Occurs(SuspiciousKeywords[0], text) by {
      OccursOnlyWithItsCharacters("eval", text, 'v');
    }
    assert !Occurs(SuspiciousKeywords[1], text) by {
      OccursOnlyWithItsCharacters("exec", text, 'x');
    }
    assert !Occurs(SuspiciousKeywords[2], text) by {
      OccursOnlyWithItsCharacters("shell", text, 'h');
    }
    assert !Occurs(SuspiciousKeywords[3], text) by {
      OccursOnlyWithItsCharacters("base64", text, 'b');
    }
    assert Occurs(SuspiciousKeywords[4], text) by {
      assert SuspiciousKeywords[4] <= text;
    }
    assert FirstOccurring(SuspiciousKeywords, text, 4) == Some(4);
    assert FirstOccurring(SuspiciousKeywords, text, 3) == Some(4);
    assert FirstOccurring(SuspiciousKeywords, text, 2) == Some(4);
    assert FirstOccurring(SuspiciousKeywords, text, 1) == Some(4);
  }

  /** One reported threat: the scanned path and its description. */
  datatype Threat = Threat(path: string, description: JsonValue)

  /** `scan_directory(file_path, signatures)` for one file. `binary` is the read
      `get_file_tlsh` does and `text` the separate read `heuristic_analysis` does.
      A threat is reported exactly when there is a valid digest and either it is a
      signature key or the heuristic flags the text; a matching signature wins over
      the heuristic, and without a valid digest the heuristic is never consulted. */
  function ScanDirectory(path: string, signatures: Signatures, binary: Option<Bytes>, text: Option<string>, lib: Tlsh)
    : (threats: seq<Threat>)
    ensures |threats| <= 1
    ensures forall t :: t in threats ==> t.path == path
    ensures threats != [] <==>
      HasDigest(binary, lib) && (GetFileTlsh(binary, lib).value in signatures || HeuristicAnalysis(text).Some?)
    ensures HasDigest(binary, lib) && GetFileTlsh(binary, lib).value in signatures ==>
      threats == [Threat(path, signatures[GetFileTlsh(binary, lib).value])]
    ensures HasDigest(binary, lib) && GetFileTlsh(binary, lib).value !in signatures && threats != [] ==>
      threats[0].description == JString(HeuristicAnalysis(text).value)
  {
    var digest := GetFileTlsh(binary, lib);
    if digest.Some? && digest.value != "" then
      if digest.value in signatures then [Threat(path, signatures[digest.value])]
      else
        match HeuristicAnalysis(text)
        case Some(description) => [Threat(path, JString(description))]
        case None => []
    else []
  }

  /** The valid digest of the bytes read, when it is truthy (non-empty). */
  predicate HasDigest(binary: Option<Bytes>, lib: Tlsh)
  {
    GetFileTlsh(binary, lib).Some? && GetFileTlsh(binary, lib).value != ""
  }

  /** A file whose digest holds a lower-case letter can only be reported by the
      heuristic when the map came from `load_signatures`. */
  lemma LowerCaseDigestOnlyHeuristic(path: string, entries: seq<DirEntry>, binary: Option<Bytes>, text: Option<string>, lib: Tlsh)
    requires HasDigest(binary, lib)
    requires exists i :: 0 <= i < |GetFileTlsh(binary, lib).value| && IsLowerAscii(GetFileTlsh(binary, lib).value[i])
    ensures ScanDirectory(path, LoadInto(map[], entries), binary, text, lib)
      == (match HeuristicAnalysis(text)
          case Some(description) => [Threat(path, JString(description))]
          case None => [])
  {
    LowerCaseDigestNeverMatches(entries, GetFileTlsh(binary, lib).value);
  }
}
