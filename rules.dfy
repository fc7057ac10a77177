/**
 The six validity rules of `validate_images` and the classification of one
 record against the hashes accepted so far.
 */
module Rules {
  import opened ImageRecords

  /** Largest accepted size on disk, in bytes. */
  const MaxSize: nat := 250000
  /** Smallest accepted height and width, in pixels. */
  const MinSide: nat := 96

  /** The reason code written to the log: the number of the failing rule. */
  type ReasonCode = c: int | 1 <= c <= 6 witness 1

  datatype Outcome = Accept | Reject(code: ReasonCode)

  /** The format is `jpg` or `jpeg` in any letter case. */
  predicate JpegFormat(format: string)
  {
    Lower(format) == "jpeg" || Lower(format) == "jpg"
  }

  /** Rule `rule` fails for `rec`, judged by itself and not through the order
      in which the source evaluates the rules. Rules 4 to 6 need image data
      and cannot fail for an undecoded file. */
  predicate Violates(rule: ReasonCode, rec: FileRecord, copied: seq<Digest>)
  {
    if rule == 1 then !JpegFormat(rec.format)
    else if rule == 2 then rec.size > MaxSize
    else if rule == 3 then rec.image.Undecoded?
    else if rule == 4 then
      rec.image.Decoded? &&
      (rec.image.h < MinSide || rec.image.w < MinSide || Lower(rec.image.mode) != "rgb")
    else if rule == 5 then rec.image.Decoded? && 0.0 in rec.image.variance
    else rec.image.Decoded? && rec.image.hash in copied
  }

  /** The `errors` list the source builds for one file: rules 1 to 3 form an
      `elif` chain and give at most one code; past them, rules 4, 5 and 6 are
      all evaluated and each failing one adds its code. */
  function Errors(rec: FileRecord, copied: seq<Digest>): (errs: seq<ReasonCode>)
    ensures forall k :: 0 <= k < |errs| ==> Violates(errs[k], rec, copied)
    ensures forall k, l :: 0 <= k < l < |errs| ==> errs[k] < errs[l]
    ensures errs == [] <==> forall rule: ReasonCode :: !Violates(rule, rec, copied)
    ensures errs != [] ==> forall rule: ReasonCode :: rule < errs[0] ==> !Violates(rule, rec, copied)
    ensures errs == [] ==> rec.image.Decoded?
    // once rules 1-3 pass, every failing rule is listed
    ensures (forall rule: ReasonCode :: rule <= 3 ==> !Violates(rule, rec, copied)) ==>
              forall rule: ReasonCode :: rule in errs <==> Violates(rule, rec, copied)
    // a failing rule among 1-3 stops the chain with a single code
    ensures (exists rule: ReasonCode :: rule <= 3 && Violates(rule, rec, copied)) ==> |errs| == 1
  {
    if !JpegFormat(rec.format) then assert Violates(1, rec, copied); [1]
    else if rec.size > MaxSize then assert Violates(2, rec, copied); [2]
    else match rec.image
      case Undecoded => assert Violates(3, rec, copied); [3]
      case Decoded(mode, h, w, variance, hash) =>
        assert !Violates(1, rec, copied) && !Violates(2, rec, copied) && !Violates(3, rec, copied);
        (if h < MinSide || w < MinSide || Lower(mode) != "rgb" then [4] else [])
        + (if 0.0 in variance then [5] else [])
        + (if hash in copied then [6] else [])
  }

  /** The decision for one file: accepted when `errors` is empty, otherwise
      rejected with `errors[0]`, which is the smallest failing rule. */
  function Classify(rec: FileRecord, copied: seq<Digest>): (r: Outcome)
    ensures r == Accept <==> forall rule: ReasonCode :: !Violates(rule, rec, copied)
    ensures r.Reject? ==> Violates(r.code, rec, copied)
    ensures r.Reject? ==> forall rule: ReasonCode :: rule < r.code ==> !Violates(rule, rec, copied)
    ensures r == Accept ==> rec.image.Decoded?
  {
    var errs := Errors(rec, copied);
    if errs == [] then Accept else Reject(errs[0])
  }

  /** A file whose format is not jpg/jpeg is rejected with code 1, whatever
      its size, decoding or hash. */
  lemma WrongFormatIsCode1(rec: FileRecord, copied: seq<Digest>)
    requires !JpegFormat(rec.format)
    ensures Classify(rec, copied) == Reject(1)
  {
    assert Violates(1, rec, copied);
  }

  /** With a jpg/jpeg format, code 2 is given exactly when the size exceeds
      250000 bytes; a size of exactly 250000 passes. */
  lemma SizeLimitIsCode2(rec: FileRecord, copied: seq<Digest>)
    requires JpegFormat(rec.format)
    ensures Classify(rec, copied) == Reject(2) <==> rec.size > MaxSize
    ensures rec.size == 250000 ==> Classify(rec, copied) != Reject(2)
  {
    assert !Violates(1, rec, copied);
    if rec.size > MaxSize {
      assert Violates(2, rec, copied);
    }
  }

  /** With a jpg/jpeg format and an accepted size, an undecoded file gets
      code 3: rules 4 to 6 never decide it. */
  lemma UndecodedIsCode3(rec: FileRecord, copied: seq<Digest>)
    requires JpegFormat(rec.format) && rec.size <= MaxSize && rec.image.Undecoded?
    ensures Classify(rec, copied) == Reject(3)
  {
    assert !Violates(1, rec, copied) && !Violates(2, rec, copied) && Violates(3, rec, copied);
  }

  /** A file is accepted exactly when it meets every rule: jpg/jpeg format,
      at most 250000 bytes, decoded, both sides at least 96, mode `rgb` in any
      case, no zero variance, and a hash not accepted before. */
  lemma AcceptedIffValid(rec: FileRecord, copied: seq<Digest>)
    ensures Classify(rec, copied) == Accept <==>
      && JpegFormat(rec.format)
      && rec.size <= MaxSize
      && rec.image.Decoded?
      && rec.image.h >= MinSide && rec.image.w >= MinSide
      && Lower(rec.image.mode) == "rgb"
      && 0.0 !in rec.image.variance
      && rec.image.hash !in copied
  {
    var valid :=
      && JpegFormat(rec.format)
      && rec.size <= MaxSize
      && rec.image.Decoded?
      && rec.image.h >= MinSide && rec.image.w >= MinSide
      && Lower(rec.image.mode) == "rgb"
      && 0.0 !in rec.image.variance
      && rec.image.hash !in copied;
    var meets := !Violates(1, rec, copied) && !Violates(2, rec, copied) && !Violates(3, rec, copied)
      && !Violates(4, rec, copied) && !Violates(5, rec, copied) && !Violates(6, rec, copied);
    assert meets <==> valid;
    assert meets <==> forall rule: ReasonCode :: !Violates(rule, rec, copied) by {
      if meets {
        forall rule: ReasonCode ensures !Violates(rule, rec, copied) {
          assert rule == 1 || rule == 2 || rule == 3 || rule == 4 || rule == 5 || rule == 6;
        }
      }
    }
  }

  /** Only rule 6 reads the accepted hashes: against any two lists, a file
      fails the same rules among 1 to 5. */
  lemma OnlyRule6ReadsHashes(rec: FileRecord, copied1: seq<Digest>, copied2: seq<Digest>, rule: ReasonCode)
    requires rule <= 5
    ensures Violates(rule, rec, copied1) == Violates(rule, rec, copied2)
  {
  }
}
