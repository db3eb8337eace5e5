# Per-file detection core of the antivirus

This project models the three engines that decide whether one file is
malicious. Each is written as Dafny and proved against a specification.

- **Fuzzy-signature engine** (`scanner.py`). `load_signatures` builds a map.
  Each key is the upper-cased TLSH digest found in a `.json` file of the
  signature directory. Each value is that file's `name`.
  `get_file_tlsh` computes a file's TLSH digest and keeps it only when the TLSH
  library accepts it. `heuristic_analysis` looks for the first of seven
  suspicious keywords in the file's text. `scan_directory` (which scans one
  file, despite its name) uses these three: a signature match wins, and the
  heuristic applies only when the digest matches no signature. With no valid
  digest (`scanner.py:110`), `scan_directory` returns an empty list and never
  runs the heuristic; the contract of `Scanner.ScanDirectory` states this.
- **Exact-hash engine** (`AntivirusWorker.py`). `load_hash_db` reads three list
  files (MD5, SHA-1, SHA-256) into three sets of stripped lines.
  `get_file_hashes` computes the file's three hex digests. `process_file`
  reports the file infected at the first kind, in MD5, SHA-1, SHA-256 order,
  whose digest is in that kind's set.
- **Desktop scanner** (`antivirus.py`). `load_signatures` reads a list of
  stripped MD5 lines. `scan_file` compares one file's MD5 with that list.
  `scan_directory` walks a directory tree and logs every infected file, then a
  completion line. With an empty database it only gives a warning.

Modules:

- `Common` holds the shared vocabulary. `Option` stands for Python's `None`.
  `Outcome` is a call that may let an exception escape. It also has bytes, and
  the text files a call opens, as a map from path to `Missing`, `Unreadable` or
  the file's lines.
- `PyString` models the string built-ins used: `strip`, `upper`, `endswith`
  and `in`.
- `Scanner`, `Worker` and `Antivirus` model the three engines.

The worker is a class. Its hash database is a field, and `process_file` reads
that field. The loops that build or walk something are `while` loops:
`Scanner.LoadSignatures`, `Worker.LoadHashList`, `Antivirus.LoadSignatures`
and `Antivirus.ScanWalk`. Their invariants tie them to specification functions
(`LoadInto`, `StrippedSet`, `Stripped`, `Finish`), and the properties of those
functions are proved as lemmas. The loop of `Worker.AntivirusWorker.ProcessFile`
is proved directly against its quantified postcondition. The keyword search of
`heuristic_analysis`, a loop that returns at the first hit, is the recursive
function `Scanner.FirstOccurring`.

Foreign code is passed in as parameters: the TLSH library, the three hash
functions and MD5. What a file read returns is an input. A failed read is
`None`. It makes the engine raise where the source lets the exception escape,
and return `None` where the source catches it.

## Model

| member | source | states |
|---|---|---|
| Scanner.Contribution | scanner.py:26-42 | A directory entry adds a signature exactly when its name ends in `.json`, its JSON is an object, `tlsh` is a non-empty string and `name` is truthy. The key it adds is the upper-cased `tlsh` and the value is `name`. Anything else, including a read or JSON error, adds nothing. |
| Scanner.LoadSignatures | scanner.py:11-43 | A missing directory gives an empty map. A directory that cannot be listed raises. Otherwise the result is the fold of every entry's contribution, in listing order. |
| Scanner.SkippedEntryIsHarmless | scanner.py:36-41 | An entry that is skipped (wrong suffix, invalid JSON, unreadable file, missing field) leaves the loaded map as if it were absent. |
| Scanner.LoadIsLastWins | scanner.py:26-35 | A key is in the loaded map if and only if some entry contributes it. Its value is the name of the last entry that contributes it (the later assignment overwrites the earlier one). |
| Scanner.LastNameFound | scanner.py:26-35 | The last-writer reference finds a value for a key if and only if some entry contributes that key. |
| Scanner.LastNameIsLastRecord | scanner.py:26-35 | When the reference finds a value, some entry contributes it and no later entry contributes the same key. |
| Scanner.LoadedKeysAreUpper | scanner.py:35 | Loading from a map whose keys are upper case keeps every key upper case: each key is unchanged by ASCII upper-casing. |
| Scanner.LowerCaseDigestNeverMatches | scanner.py:35 | A digest that holds a lower-case letter is never a key of the loaded map, so it can never match a signature. |
| Scanner.GetFileTlsh | scanner.py:46-68 | The digest is returned if and only if the file was read and the library accepts the digest computed from its bytes. An unreadable file or a rejected digest gives `None`. |
| Scanner.FirstOccurring | scanner.py:85-88 | Returns the index of the first keyword, from the given index on, that occurs in the text. It returns `None` when no keyword from that index on occurs. |
| Scanner.HeuristicAnalysis | scanner.py:71-91 | The file is flagged if and only if it was read and one of the seven keywords occurs in it. The message names the first such keyword in list order. An unreadable file gives `None`. |
| Scanner.ExecPayloadIsFlagged | scanner.py:81-88 | Any text that contains `exec(base64.b64decode(...))` and does not contain `eval` is flagged for `exec`. `eval` is the only keyword before `exec` in the list, and `base64`, which the payload also contains, comes after it. |
| Scanner.ImportIsFlagged | scanner.py:81-88 | The text `import os` followed by a newline (exactly that text) is flagged for `import`. |
| Scanner.ScanDirectory | scanner.py:94-122 | At most one threat is reported, always for the scanned path. A threat is reported if and only if there is a valid, non-empty digest and either it is a signature key or the heuristic flags the text. A matching signature gives exactly that signature's threat, whatever the text holds. Otherwise the threat carries the heuristic's message. Without a valid digest nothing is reported, whatever the text holds. |
| Scanner.LowerCaseDigestOnlyHeuristic | scanner.py:110-120 | With a map loaded from a directory, a valid digest that holds a lower-case letter can only lead to a heuristic threat. |
| Worker.LoadHashList | AntivirusWorker.py:23-27 | A missing list file adds nothing. An unreadable one raises. Otherwise the result is exactly the set of the stripped lines. |
| Worker.LoadHashDb | AntivirusWorker.py:18-43 | Raises if and only if some list file exists but cannot be read. Otherwise the map has all three kinds, and each kind's set is the set of stripped lines of its own file. |
| Worker.StrippedSetMembers | AntivirusWorker.py:26-27 | A string is in a kind's set if and only if some line of its file strips to it. |
| Worker.StrippedSetSize | AntivirusWorker.py:26-27 | A set never has more entries than its file has lines. |
| Worker.BlankLineAddsEmpty | AntivirusWorker.py:26-27 | A blank line puts the empty string into the set. |
| Worker.AntivirusWorker.constructor | AntivirusWorker.py:7-9 | The worker holds the database path and the loaded three-kind database. |
| Worker.Rank | AntivirusWorker.py:47 | A kind's rank is its position in the MD5, SHA-1, SHA-256 order of the hash dict, the order `process_file` checks the kinds in. |
| Worker.AntivirusWorker.GetFileHashes | AntivirusWorker.py:45-65 | The map has all three kinds. After a successful read each value is that kind's hex digest of the same bytes. After a failed read all three are `None`. |
| Worker.AntivirusWorker.ProcessFile | AntivirusWorker.py:67-80 | The file is reported infected if and only if some kind's digest is in that kind's set. The reported kind is a hit, and no kind earlier in MD5, SHA-1, SHA-256 order is a hit. An unreadable file is reported safe. |
| Worker.NewWorker | AntivirusWorker.py:7-43 | Creating the worker fails if and only if loading raises. Otherwise it gives a fresh worker whose sets are exactly the stripped lines of the three list files. |
| Antivirus.LoadSignatures | antivirus.py:14-22 | A missing database file gives an empty list. An unreadable one raises. Otherwise the list has one entry per line, the line stripped, in file order. |
| Antivirus.ScanFile | antivirus.py:26-31 | Raises if and only if the file cannot be read. The file is infected if and only if its MD5 is in the list. An infected result carries that MD5, and a clean one carries `None`. |
| Antivirus.ScanWalk | antivirus.py:55-62 | Walking directory by directory and file by file gives the specified run: one log line per infected file in walk order, then the completion line. It stops with nothing more logged at the first file that cannot be read. |
| Antivirus.ScanDirectory | antivirus.py:47-62 | An unreadable database raises. An empty database gives only the warning. Otherwise the log is the scanning line followed by the walk's run. |
| Antivirus.ReportRaisesOnUnreadable | antivirus.py:57-58 | The scan of a file list raises if and only if some file cannot be read. |
| Antivirus.ReportsExactlyInfected | antivirus.py:58-60 | When every file can be read, an infected-file line for a path and hash is logged if and only if that file's scan returns infected with that hash, and the hash is that file's MD5. |
| Antivirus.StopsAtFirstUnreadable | antivirus.py:57-58 | The run up to the first unreadable file logs the same infected lines as the files before it, and then raises. |

## Left out

- Reading the files is not modelled. What a read returns is an input: the bytes, the decoded text, a directory listing with each entry's JSON parse result, or a text file's lines. Decoding, JSON parsing and line splitting are not part of this model.
- The order of `os.listdir` and `os.walk` is the order of the given sequences, and is not derived.
- TLSH, `isValidTlsh`, MD5, SHA-1 and SHA-256 are opaque function parameters. Nothing is proved about the digests themselves.
- `scanner.heuristic_analysis` reads the file a second time, in text mode. That read is a separate input from the binary read of `get_file_tlsh`, so the model allows the two reads to disagree.
- Logging (`logging.*` and `print`) is not modelled. What `antivirus.scan_directory` shows the user is kept as `LogLine` values: the lines it writes to its log widget, and the `messagebox.showwarning` for an empty database as `EmptyDatabaseWarning`. The widgets themselves are not modelled.
- The RabbitMQ plumbing of `AntivirusWorker.py` is not modelled: the connection, the channel, `queue_declare`, `start`, `basic_consume` and the acknowledgement. `process_file` is modelled on the file's read rather than on the message body it decodes.
- `update_signatures` in `antivirus.py` is a network download and is not modelled. `choose_directory`, `update_signature_database`, `write_log_to_file` and `create_gui` are GUI code and are not modelled.
- The queue producer, the result handler and the other GUI modules of the repository are not part of this model.
- PyString.Upper: only ASCII letters are upper-cased. Python's full Unicode case mapping (including mappings that change length, such as `ß`) is not modelled.
- A non-object JSON document, or a truthy `tlsh` that is not a string, makes `data.get` or `.upper()` raise inside the `try`. The broad `except` catches that. The model treats both as a skipped entry.
