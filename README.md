# validate_images: a Dafny model

`validate_images` (InPaint/data/ex2.py) ingests a directory tree of candidate
images. The walk records, for every file, its bare name in an ordered `keys`
list and a metadata record in a dict keyed by that name. A single pass over
`keys` then classifies each file against six fixed rules:

| code | the file is rejected when |
|---|---|
| 1 | its format (the last `.`-segment of its name), lower-cased, is neither `jpg` nor `jpeg` |
| 2 | it is larger than 250000 bytes |
| 3 | the imaging library could not open it |
| 4 | a side is below 96 pixels, or its mode, lower-cased, is not `rgb` |
| 5 | a channel variance is exactly 0.0 |
| 6 | its content hash is already in `already_copied` |

An accepted file is copied to the output directory under the sequential index
`i`, its hash is appended to `already_copied` and `i` grows by one. A rejected
file adds the line `name;code\n` to the log buffer, with the code of its
smallest failing rule. The function returns `i`.

Rules 1 to 3 form an `elif` chain. Rules 4 to 6 are three separate `if`s, so
all of them are evaluated. Only `errors[0]` is logged, so the effect is still
"the first failing rule wins". The model keeps both halves: `Rules.Errors`
builds the source's `errors` list, and `Rules.Classify` takes its head.
`Rules.Violates` is an independent, per-rule statement of each condition. It
is the reference that both functions are proved against.

Modules, one per stage of the function:

- `ImageRecords` (records.dfy): the record shape, `Extension` (`split('.')[-1]`)
  and ASCII lower-casing.
- `Rules` (rules.dfy): the rule reference `Violates`, the `errors` list and the
  classification.
- `Scanner` (scan.dfy): the walk's bookkeeping. `Scan` is a loop that builds
  `keys` and `metadata`. `MetadataOf` is its specification, in which the last
  record stored under a name wins.
- `Materializer` (pass.dfy): the loop over `keys`. `Step` and `Pass` specify it
  as a fold over the state `(i, already_copied, log, copies)`. `ValidatePass` is
  the imperative loop proved equal to it. The lemmas state what the pass
  guarantees.
- `Validation` (validate.dfy): the whole run, plus three end-to-end scenarios.

A name that the walk meets twice stays twice in `keys`, but the dict keeps only
the last record stored under it. Both visits therefore classify that same
record. If the first visit is accepted, the second is rejected with code 6
(`Materializer.RepeatedKeyRejected`). The earlier file of that name is never
classified at all (`Scanner.LastOccurrenceWins`). The model keeps this
behaviour as the code has it.

## Model

| member | source | states |
|---|---|---|
| `ImageRecords.Extension` | InPaint/data/ex2.py:72 | the format is a dot-free suffix of the name that is either the whole name or follows a dot |
| `ImageRecords.ExtensionUnique` | InPaint/data/ex2.py:72 | that characterisation is complete: every dot-free suffix that is the whole name or follows a dot equals the format |
| `ImageRecords.Lower` | InPaint/data/ex2.py:87 | `.lower()` keeps the length; what it does to each character is stated by `LowerShape` and `LowerMatches` |
| `ImageRecords.LowerShape` | InPaint/data/ex2.py:102 | a lowered string holds no upper-case letter, and every character that is not an upper-case letter is kept |
| `ImageRecords.LowerMatches` | InPaint/data/ex2.py:87 | for a lower-case literal, `s.lower() == lit` iff `s` has the same length and each character is the literal's or its upper-case form, so `JPG`, `Jpeg` and `RGB` all pass |
| `ImageRecords.RecordFormat` | InPaint/data/ex2.py:70-76 | the format of the record stored for a file (`MakeRecord`, which otherwise keeps the path, size and image data as met) is the last `.`-segment of the name, a dot-free suffix that is the whole name or follows a dot, with its case kept; no other string has that shape |
| `Rules.Errors` | InPaint/data/ex2.py:85-109 | each listed code names a failing rule and the codes increase; the list is empty iff no rule fails; its head is the smallest failing rule; once rules 1-3 pass, every failing rule among 4-6 is listed; a failing rule among 1-3 gives exactly one code |
| `Rules.Classify` | InPaint/data/ex2.py:87-117 | accepted iff no rule fails; a rejection carries a failing rule's code, and no smaller rule fails; an accepted file is decoded |
| `Rules.WrongFormatIsCode1` | InPaint/data/ex2.py:87-88 | a format other than jpg/jpeg gives code 1, whatever the size, decoding or hash |
| `Rules.SizeLimitIsCode2` | InPaint/data/ex2.py:90-91 | with a jpg/jpeg format, code 2 iff size > 250000; exactly 250000 passes |
| `Rules.UndecodedIsCode3` | InPaint/data/ex2.py:93-94 | with a valid format and size, an undecoded file gets code 3 and rules 4-6 never decide it |
| `Rules.AcceptedIffValid` | InPaint/data/ex2.py:87-115 | accepted iff jpg/jpeg format, size <= 250000, decoded, both sides >= 96, mode `rgb` in any case, no zero variance, and a hash not accepted before |
| `Rules.OnlyRule6ReadsHashes` | InPaint/data/ex2.py:87-109 | rules 1-5 do not depend on `already_copied` |
| `Scanner.KeysOf` | InPaint/data/ex2.py:43-45 | `keys` holds one entry per file met; which name sits at each position is in `Scanner.Scan`'s contract |
| `Scanner.AllNamesStored` | InPaint/data/ex2.py:42-76 | every name the walk meets has a record in the dict. `MetadataOf`, the store-by-store dict, carries no contract of its own; its properties are here and in `LastOccurrenceWins` and `OnlyScannedNames` |
| `Scanner.LastOccurrenceWins` | InPaint/data/ex2.py:70-76 | a name is bound to the record of its last occurrence in walk order |
| `Scanner.OnlyScannedNames` | InPaint/data/ex2.py:70-76 | the dict holds no name the walk did not meet |
| `Scanner.Scan` | InPaint/data/ex2.py:38-76 | the loop yields `keys` = every name in walk order, repeats included, each present in `metadata`, and `metadata` as the store-by-store dict |
| `Materializer.LogLine` | InPaint/data/ex2.py:88 | a log line is three characters longer than the name |
| `Materializer.LogLineShape` | InPaint/data/ex2.py:88-109 | a log line is the name, `;`, one decimal digit that reads back as the code, and a newline |
| `Materializer.Render` | InPaint/data/ex2.py:117 | the log text is empty exactly when no file was rejected |
| `Materializer.RenderLines` | InPaint/data/ex2.py:117 | when no rejected name holds a newline, the log has exactly one newline per rejected file |
| `Materializer.StepCopiesOrLogs` | InPaint/data/ex2.py:111-117 | each iteration either copies the file (counter, hashes and copies grow by one, log unchanged) or logs it (log grows, the rest unchanged), never both. `Step` (one iteration, lines 84-117) and `Pass` (the loop, lines 83-117) carry no contract; their properties are in `StepCopiesOrLogs`, `StepCopied`, `PassCount`, `PassCopies` and `PassLog` |
| `Materializer.StepCopied` | InPaint/data/ex2.py:111-117 | `already_copied` changes only when the file is accepted, and then by appending that file's hash |
| `Materializer.PassCount` | InPaint/data/ex2.py:83-117 | accepted plus rejected files equal the number of keys |
| `Materializer.PassCopies` | InPaint/data/ex2.py:80-124 | the counter equals the number of accepted files, of hashes in `already_copied` and of copies; the k-th copy sends the k-th accepted file to index k (indices 0..i-1, no gaps); `already_copied` holds the accepted hashes in order. `Step` (lines 84-117) and `Pass` (lines 83-117) carry no contract; their properties are in `StepCopiesOrLogs`, `StepCopied`, `PassCount`, `PassCopies` and `PassLog` |
| `Materializer.PassDistinct` | InPaint/data/ex2.py:108-114 | the hashes in `already_copied` are pairwise distinct |
| `Materializer.PassLog` | InPaint/data/ex2.py:83-117 | the log is one `name;code\n` line per rejected file, in key order, and accepted files add none |
| `Materializer.AcceptedFileValid` | InPaint/data/ex2.py:87-115 | every accepted file meets all six rules, the sixth against the hashes accepted before it |
| `Materializer.CopiedGrows` | InPaint/data/ex2.py:111-117 | `already_copied` only grows by appending: an earlier state's list is a prefix of a later one |
| `Materializer.AcceptedHashKept` | InPaint/data/ex2.py:108-114 | after a file is accepted, its hash stays in `already_copied` |
| `Materializer.DuplicateRejected` | InPaint/data/ex2.py:108-109 | a decoded file whose hash equals an earlier accepted file's hash is rejected, with code 6 unless rules 1-5 already fail |
| `Materializer.RepeatedKeyRejected` | InPaint/data/ex2.py:83-109 | a repeated name whose first visit was accepted is rejected with code 6 on the later visit |
| `Materializer.ValidatePass` | InPaint/data/ex2.py:80-124 | the loop returns the counter, log buffer and copies that the specified pass produces |
| `Validation.ValidateImages` | InPaint/data/ex2.py:12-124 | the run returns count = number of copies = number of accepted files; copy k goes to index k; accepted hashes are distinct; count plus rejections equals the number of files; the log renders the rejections in walk order |
| `Validation.SmallImageScenario` | InPaint/data/ex2.py:99-103 | a 50x50 RGB jpeg is logged `x.jpg;4` and nothing is copied |
| `Validation.DuplicatePairScenario` | InPaint/data/ex2.py:108-117 | two files with equal content, `a.jpg` then `b.jpg`: `a.jpg` is copied to index 0, and the log is exactly `b.jpg;6` |
| `Validation.WrongFormatScenario` | InPaint/data/ex2.py:87-88 | `c.png` is logged `c.png;1` and nothing is copied |

## Left out

- Directory creation (`os.makedirs`, `os.path.exists`) and the walk (`os.walk`) are filesystem I/O. The walk's output is an input here: the files in walk order, each with name, full path, size and decode result.
- `os.path.getsize` and `os.path.join` are filesystem calls. Their results are fields of each input file.
- Runs that abort are not modelled. `os.path.getsize` (ex2.py:74) sits outside the `try` of lines 52-68, so a dangling symbolic link or a file removed during the walk raises there. `shutil.copy` (ex2.py:113) and opening the log (ex2.py:120) raise on any I/O failure. Exceptions other than `IOError` from decoding or stat-ing a file (lines 53-64) also escape. Each of these ends the run with no log written. The model always completes.
- When `log_file` has no directory part, `os.path.dirname` gives `""`, and `os.makedirs("")` at ex2.py:33 raises before the walk starts. This is a defect of the source: it is not modelled, because the model starts after directory creation.
- Image decoding (`Image.open`), the `ImageStat` variance and MD5 hashing are foreign code. Their results are inputs. The hash is its hexadecimal digest string, compared only for equality.
- Variances are modelled as reals, not floats. NaN and `-0.0` are not represented. Only the exact comparison with 0.0 matters to the rule.
- PIL reports `size` as (width, height), and the code unpacks it as `h, w`. The check is symmetric in the two, so the model keeps the code's names.
- `shutil.copy` and writing the log file are I/O. The model returns each copy as a (source path, index) action and returns the log as text.
- `f"{i:{formatter}}.jpg"`: the output name is modelled by the index `i` alone. The formatter's rendering is a Python library detail.
- `ImageRecords.Lower` lower-cases only ASCII letters, whereas Python's `str.lower` covers Unicode. For the three comparisons made here (`jpg`, `jpeg`, `rgb`) the two agree: no non-ASCII character lower-cases to one of the letters j, p, e, g, r or b.
- `print` and the `warnings` filter have no effect on the results.
