/**
 The classify-and-deduplicate pass of `validate_images`: it walks `keys` in
 order, accepts or rejects each file's record against the hashes accepted so
 far, copies the accepted files under sequential indices and logs one line per
 rejected file.
 */
module Materializer {
  import opened ImageRecords
  import opened Rules

  /** One `shutil.copy` of an accepted file: its source path and the index `i`
      from which the output name `f"{i:{formatter}}.jpg"` is formed. */
  datatype CopyAction = CopyAction(source: string, index: nat)

  /** One rejected file, as the log reports it. */
  datatype Rejection = Rejection(name: string, code: ReasonCode)

  /** The state the loop threads: the counter `i`, the `already_copied` list,
      the `log_file_contents` buffer and the copies made so far. */
  datatype PassState = PassState(count: nat, alreadyCopied: seq<Digest>, log: string, copies: seq<CopyAction>)

  const Start: PassState := PassState(0, [], "", [])

  /** The decimal digit of a reason code. */
  function CodeChar(code: ReasonCode): char
  {
    ('0' as int + code) as char
  }

  /** The log line `f"{key};{code}\n"`. */
  function LogLine(name: string, code: ReasonCode): (r: string)
    ensures |r| == |name| + 3
  {
    name + [';', CodeChar(code), '\n']
  }

  /** A log line is the name, a `;`, the code as one decimal digit from which
      the code reads back, and a newline. */
  lemma LogLineShape(name: string, code: ReasonCode)
    ensures var r := LogLine(name, code);
      && r[..|name|] == name && r[|name|] == ';' && r[|name| + 2] == '\n'
      && '0' <= r[|name| + 1] <= '9' && r[|name| + 1] as int - '0' as int == code
  {
  }

  /** The number of newlines in a string. */
  function Newlines(s: string): nat
  {
    multiset(s)['\n']
  }

  /** The log text for a list of rejections, one line each, in order; it is
      empty exactly when there is nothing to report. */
  function Render(lines: seq<Rejection>): (r: string)
    ensures r == [] <==> lines == []
  {
    if lines == [] then ""
    else
      var last := lines[|lines| - 1];
      Render(lines[..|lines| - 1]) + LogLine(last.name, last.code)
  }

  /** When no rejected name holds a newline, the log has exactly one line per
      rejection. */
  lemma {:induction false} RenderLines(lines: seq<Rejection>)
    requires forall k :: 0 <= k < |lines| ==> '\n' !in lines[k].name
    ensures Newlines(Render(lines)) == |lines|
  {
    if lines != [] {
      var last := lines[|lines| - 1];
      RenderLines(lines[..|lines| - 1]);
      var line := LogLine(last.name, last.code);
      assert line == last.name + [';', CodeChar(last.code), '\n'];
      assert multiset(line)['\n'] == 1;
      assert multiset(Render(lines)) == multiset(Render(lines[..|lines| - 1])) + multiset(line);
    }
  }

  predicate Distinct<T(==)>(s: seq<T>)
  {
    forall a, b :: 0 <= a < b < |s| ==> s[a] != s[b]
  }

  /** Appending a new element keeps a sequence free of repeats. */
  lemma DistinctAppend<T>(s: seq<T>, x: T)
    requires Distinct(s) && x !in s
    ensures Distinct(s + [x])
  {
    var t := s + [x];
    forall a, b | 0 <= a < b < |t|
      ensures t[a] != t[b]
    {
      assert t[a] == s[a];
    }
  }

  /** Every key names a stored record, as the walk guarantees. */
  predicate KeysIn(keys: seq<string>, metadata: map<string, FileRecord>)
  {
    forall j :: 0 <= j < |keys| ==> keys[j] in metadata
  }

  /** One iteration of the loop, for the file `key` whose record is `rec`. */
  function Step(st: PassState, key: string, rec: FileRecord): PassState
  {
    match Classify(rec, st.alreadyCopied)
    case Accept =>
      PassState(st.count + 1, st.alreadyCopied + [rec.image.hash], st.log,
                st.copies + [CopyAction(rec.path, st.count)])
    case Reject(code) =>
      st.(log := st.log + LogLine(key, code))
  }

  /** The state after the loop has processed all of `keys`. */
  function Pass(keys: seq<string>, metadata: map<string, FileRecord>): PassState
    requires KeysIn(keys, metadata)
    decreases |keys|
  {
    if keys == [] then Start
    else
      var n := |keys| - 1;
      Step(Pass(keys[..n], metadata), keys[n], metadata[keys[n]])
  }

  /** The decision for the `j`-th key: its record against the hashes accepted
      before it. */
  function OutcomeAt(keys: seq<string>, metadata: map<string, FileRecord>, j: nat): Outcome
    requires KeysIn(keys, metadata) && j < |keys|
  {
    Classify(metadata[keys[j]], Pass(keys[..j], metadata).alreadyCopied)
  }

  /** The records of the accepted files, in key order. */
  function Accepted(keys: seq<string>, metadata: map<string, FileRecord>): seq<FileRecord>
    requires KeysIn(keys, metadata)
    decreases |keys|
  {
    if keys == [] then []
    else
      var n := |keys| - 1;
      Accepted(keys[..n], metadata) + (if OutcomeAt(keys, metadata, n) == Accept then [metadata[keys[n]]] else [])
  }

  /** The rejected files with their codes, in key order. */
  function Rejections(keys: seq<string>, metadata: map<string, FileRecord>): seq<Rejection>
    requires KeysIn(keys, metadata)
    decreases |keys|
  {
    if keys == [] then []
    else
      var n := |keys| - 1;
      Rejections(keys[..n], metadata) +
        (match OutcomeAt(keys, metadata, n)
         case Accept => []
         case Reject(code) => [Rejection(keys[n], code)])
  }

  /** What the pass does with accepted files: the counter equals the number
      of accepted files and of hashes in `already_copied`; the k-th copy takes
      the k-th accepted file to index k, so indices run 0 .. i-1 without gaps;
      `already_copied` holds the accepted hashes in order. */
  lemma {:induction false} PassCopies(keys: seq<string>, metadata: map<string, FileRecord>)
    requires KeysIn(keys, metadata)
    ensures var st, acc := Pass(keys, metadata), Accepted(keys, metadata);
      && st.count == |acc| == |st.alreadyCopied| == |st.copies|
      && (forall k :: 0 <= k < |acc| ==>
            && acc[k].image.Decoded?
            && st.alreadyCopied[k] == acc[k].image.hash
            && st.copies[k] == CopyAction(acc[k].path, k))
  {
    if keys != [] {
      var n := |keys| - 1;
      var prefix := keys[..n];
      PassCopies(prefix, metadata);
      var st, rec := Pass(prefix, metadata), metadata[keys[n]];
      assert Pass(keys, metadata) == Step(st, keys[n], rec);
      assert OutcomeAt(keys, metadata, n) == Classify(rec, st.alreadyCopied);
    }
  }

  /** The hashes in `already_copied` are pairwise distinct. */
  lemma {:induction false} PassDistinct(keys: seq<string>, metadata: map<string, FileRecord>)
    requires KeysIn(keys, metadata)
    ensures Distinct(Pass(keys, metadata).alreadyCopied)
  {
    if keys != [] {
      var n := |keys| - 1;
      var prefix := keys[..n];
      PassDistinct(prefix, metadata);
      var st, rec := Pass(prefix, metadata), metadata[keys[n]];
      assert Pass(keys, metadata) == Step(st, keys[n], rec);
      StepCopied(st, keys[n], rec);
      if Classify(rec, st.alreadyCopied) == Accept {
        assert rec.image.hash !in st.alreadyCopied by {
          assert !Violates(6, rec, st.alreadyCopied);
        }
        DistinctAppend(st.alreadyCopied, rec.image.hash);
      }
    }
  }

  /** One step of the loop, read off from the pass: the state after the
      first n+1 keys is one iteration applied to the state after n. */
  lemma PassUnfold(keys: seq<string>, metadata: map<string, FileRecord>, n: nat)
    requires KeysIn(keys, metadata) && n < |keys|
    ensures Pass(keys[..n + 1], metadata) == Step(Pass(keys[..n], metadata), keys[n], metadata[keys[n]])
    ensures OutcomeAt(keys, metadata, n) == Classify(metadata[keys[n]], Pass(keys[..n], metadata).alreadyCopied)
  {
    assert keys[..n + 1][..n] == keys[..n];
  }

  /** Each iteration either copies the file (the counter, the hashes and the
      copies grow by one and the log stays) or logs it (the log grows and
      nothing else changes), never both. */
  lemma StepCopiesOrLogs(st: PassState, key: string, rec: FileRecord)
    ensures var r := Step(st, key, rec);
      || (r.count == st.count + 1 && |r.alreadyCopied| == |st.alreadyCopied| + 1
          && |r.copies| == |st.copies| + 1 && r.log == st.log)
      || (r.count == st.count && r.alreadyCopied == st.alreadyCopied
          && r.copies == st.copies && |r.log| > |st.log|)
  {
  }

  /** `already_copied` changes only when a file is accepted, and then by
      appending that file's hash; otherwise it stays as it was. */
  lemma StepCopied(st: PassState, key: string, rec: FileRecord)
    ensures Classify(rec, st.alreadyCopied) == Accept ==>
      rec.image.Decoded? && Step(st, key, rec).alreadyCopied == st.alreadyCopied + [rec.image.hash]
    ensures Classify(rec, st.alreadyCopied).Reject? ==>
      Step(st, key, rec).alreadyCopied == st.alreadyCopied
  {
  }

  /** Every key is either accepted or logged. */
  lemma {:induction false} PassCount(keys: seq<string>, metadata: map<string, FileRecord>)
    requires KeysIn(keys, metadata)
    ensures |Accepted(keys, metadata)| + |Rejections(keys, metadata)| == |keys|
  {
    if keys != [] {
      PassCount(keys[..|keys| - 1], metadata);
    }
  }

  /** What the pass does with rejected files: the log holds one line per
      rejected file, in key order. */
  lemma {:induction false} PassLog(keys: seq<string>, metadata: map<string, FileRecord>)
    requires KeysIn(keys, metadata)
    ensures Pass(keys, metadata).log == Render(Rejections(keys, metadata))
  {
    if keys != [] {
      var n := |keys| - 1;
      var prefix := keys[..n];
      PassLog(prefix, metadata);
      var st, rec := Pass(prefix, metadata), metadata[keys[n]];
      assert Pass(keys, metadata) == Step(st, keys[n], rec);
      assert OutcomeAt(keys, metadata, n) == Classify(rec, st.alreadyCopied);
      var rej := Rejections(keys, metadata);
      match Classify(rec, st.alreadyCopied)
      case Accept =>
        assert rej == Rejections(prefix, metadata);
      case Reject(code) =>
        assert rej == Rejections(prefix, metadata) + [Rejection(keys[n], code)];
        assert rej[..|rej| - 1] == Rejections(prefix, metadata);
    }
  }

  /** Every accepted file meets all six rules, the last one against the
      hashes accepted before it. */
  lemma AcceptedFileValid(keys: seq<string>, metadata: map<string, FileRecord>, j: nat)
    requires KeysIn(keys, metadata) && j < |keys|
    requires OutcomeAt(keys, metadata, j) == Accept
    ensures var rec := metadata[keys[j]];
      && JpegFormat(rec.format)
      && rec.size <= MaxSize
      && rec.image.Decoded?
      && rec.image.h >= MinSide && rec.image.w >= MinSide
      && Lower(rec.image.mode) == "rgb"
      && 0.0 !in rec.image.variance
      && rec.image.hash !in Pass(keys[..j], metadata).alreadyCopied
  {
    AcceptedIffValid(metadata[keys[j]], Pass(keys[..j], metadata).alreadyCopied);
  }

  /** `already_copied` only grows, by appending at its end. */
  lemma {:induction false} CopiedGrows(keys: seq<string>, metadata: map<string, FileRecord>, m: nat, n: nat)
    requires KeysIn(keys, metadata) && m <= n <= |keys|
    ensures Pass(keys[..m], metadata).alreadyCopied <= Pass(keys[..n], metadata).alreadyCopied
  {
    if m < n {
      var prev := Pass(keys[..n - 1], metadata).alreadyCopied;
      assert prev <= Pass(keys[..n], metadata).alreadyCopied by {
        PassUnfold(keys, metadata, n - 1);
        StepCopied(Pass(keys[..n - 1], metadata), keys[n - 1], metadata[keys[n - 1]]);
      }
      CopiedGrows(keys, metadata, m, n - 1);
    }
  }

  /** Once a file is accepted, its hash stays in `already_copied`. */
  lemma AcceptedHashKept(keys: seq<string>, metadata: map<string, FileRecord>, i: nat, j: nat)
    requires KeysIn(keys, metadata) && i < j <= |keys|
    requires OutcomeAt(keys, metadata, i) == Accept
    ensures metadata[keys[i]].image.hash in Pass(keys[..j], metadata).alreadyCopied
  {
    var hash := metadata[keys[i]].image.hash;
    var after := Pass(keys[..i + 1], metadata).alreadyCopied;
    assert hash in after by {
      PassUnfold(keys, metadata, i);
      StepCopied(Pass(keys[..i], metadata), keys[i], metadata[keys[i]]);
    }
    var later := Pass(keys[..j], metadata).alreadyCopied;
    assert after <= later by {
      CopiedGrows(keys, metadata, i + 1, j);
    }
    var k :| 0 <= k < |after| && after[k] == hash;
    assert later[k] == hash;
  }

  /** A decoded file whose hash equals that of a file accepted earlier is
      rejected, with code 6 unless one of rules 1 to 5 already fails. */
  lemma DuplicateRejected(keys: seq<string>, metadata: map<string, FileRecord>, i: nat, j: nat)
    requires KeysIn(keys, metadata) && i < j < |keys|
    requires OutcomeAt(keys, metadata, i) == Accept
    requires metadata[keys[j]].image.Decoded?
    requires metadata[keys[j]].image.hash == metadata[keys[i]].image.hash
    ensures OutcomeAt(keys, metadata, j).Reject?
    ensures (forall rule: ReasonCode :: rule <= 5 ==> !Violates(rule, metadata[keys[j]], [])) ==>
              OutcomeAt(keys, metadata, j) == Reject(6)
  {
    var rec, copied := metadata[keys[j]], Pass(keys[..j], metadata).alreadyCopied;
    AcceptedHashKept(keys, metadata, i, j);
    assert Violates(6, rec, copied);
    forall rule: ReasonCode | rule <= 5
      ensures Violates(rule, rec, []) == Violates(rule, rec, copied)
    {
      OnlyRule6ReadsHashes(rec, [], copied, rule);
    }
  }

  /** A name the walk met twice is looked up twice in the dict and finds the
      same record both times: if the first lookup is accepted, the second is
      rejected as a duplicate, with code 6. */
  lemma RepeatedKeyRejected(keys: seq<string>, metadata: map<string, FileRecord>, i: nat, j: nat)
    requires KeysIn(keys, metadata) && i < j < |keys|
    requires keys[i] == keys[j]
    requires OutcomeAt(keys, metadata, i) == Accept
    ensures OutcomeAt(keys, metadata, j) == Reject(6)
  {
    var rec := metadata[keys[i]];
    AcceptedIffValid(rec, Pass(keys[..i], metadata).alreadyCopied);
    forall rule: ReasonCode | rule <= 5
      ensures !Violates(rule, rec, [])
    {
      OnlyRule6ReadsHashes(rec, [], Pass(keys[..i], metadata).alreadyCopied, rule);
    }
    DuplicateRejected(keys, metadata, i, j);
  }

  /** The loop of `validate_images` over `keys`: it returns the counter, the
      log buffer and the copies, all as the pass defines them. */
  method ValidatePass(keys: seq<string>, metadata: map<string, FileRecord>)
    returns (count: nat, log: string, copies: seq<CopyAction>)
    requires KeysIn(keys, metadata)
    ensures count == Pass(keys, metadata).count
    ensures log == Pass(keys, metadata).log
    ensures copies == Pass(keys, metadata).copies
  {
    var alreadyCopied: seq<Digest>, i: nat := [], 0;
    log, copies := "", [];
    for n := 0 to |keys|
      invariant PassState(i, alreadyCopied, log, copies) == Pass(keys[..n], metadata)
    {
      var key := keys[n];
      var data := metadata[key];
      var errors := Errors(data, alreadyCopied);
      if |errors| == 0 {
        copies := copies + [CopyAction(data.path, i)];
        alreadyCopied := alreadyCopied + [data.image.hash];
        i := i + 1;
      } else {
        log := log + LogLine(key, errors[0]);
      }
      assert keys[..n + 1][..n] == keys[..n];
    }
    assert keys[..|keys|] == keys;
    count := i;
  }
}
