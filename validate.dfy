/**
 `validate_images` end to end: the walk builds `keys` and `metadata`, the pass
 classifies every key, and the function returns the number of accepted files.
 The copies are returned as actions and the log as its text; writing them out
 is not modelled.
 */
module Validation {
  import opened ImageRecords
  import opened Rules
  import opened Scanner
  import opened Materializer

  /** The whole run over the files the walk yields, in walk order. It returns
      the count `i`, the log text and the copies made; indices run 0 .. i-1,
      accepted hashes are pairwise distinct, and every file is either copied
      or logged. */
  method ValidateImages(files: seq<ScannedFile>) returns (count: nat, log: string, copies: seq<CopyAction>)
    ensures KeysIn(KeysOf(files), MetadataOf(files))
    ensures var acc := Accepted(KeysOf(files), MetadataOf(files));
      && count == |copies| == |acc|
      && (forall k :: 0 <= k < count ==> acc[k].image.Decoded? && copies[k] == CopyAction(acc[k].path, k))
      && (forall a, b :: 0 <= a < b < count ==> acc[a].image.hash != acc[b].image.hash)
    ensures var rej := Rejections(KeysOf(files), MetadataOf(files));
      count + |rej| == |files| && log == Render(rej)
  {
    var keys, metadata := Scan(files);
    count, log, copies := ValidatePass(keys, metadata);
    PassCopies(keys, metadata);
    PassDistinct(keys, metadata);
    PassCount(keys, metadata);
    PassLog(keys, metadata);
  }

  /** A 50 x 50 RGB jpeg under the size limit is rejected with code 4 and
      nothing is copied. */
  lemma SmallImageScenario(p: string)
    ensures var files := [ScannedFile("x.jpg", p, 2000, Decoded("RGB", 50, 50, [30.0, 20.0, 10.0], "h"))];
      KeysIn(KeysOf(files), MetadataOf(files)) &&
      var st := Pass(KeysOf(files), MetadataOf(files));
      st.count == 0 && st.copies == [] && st.log == "x.jpg;4\n"
  {
    var img := Decoded("RGB", 50, 50, [30.0, 20.0, 10.0], "h");
    var f := ScannedFile("x.jpg", p, 2000, img);
    var rec := FileRecord(p, "jpg", 2000, img);
    assert MakeRecord(f) == rec by {
      assert Extension("x.jpg") == "jpg";
    }
    OneFileScan(f);
    OneKeyPass([f.name], map[f.name := rec]);
    SmallImageClassified(rec);
    assert LogLine("x.jpg", 4) == "x.jpg;4\n";
  }

  /** The rule outcome of the file of the small-image scenario. */
  lemma SmallImageClassified(rec: FileRecord)
    requires rec.format == "jpg" && rec.size == 2000
    requires rec.image == Decoded("RGB", 50, 50, [30.0, 20.0, 10.0], "h")
    ensures Classify(rec, []) == Reject(4)
  {
    assert Lower("jpg") == "jpg" && Lower("RGB") == "rgb";
    assert Errors(rec, []) == [4];
  }

  /** The walk over a single file. */
  lemma OneFileScan(f: ScannedFile)
    ensures KeysOf([f]) == [f.name]
    ensures MetadataOf([f]) == map[f.name := MakeRecord(f)]
  {
    assert [f][..0] == [];
  }

  /** A pass over one key is one iteration from the start state. */
  lemma OneKeyPass(keys: seq<string>, metadata: map<string, FileRecord>)
    requires KeysIn(keys, metadata) && |keys| == 1
    ensures Pass(keys, metadata) == Step(Start, keys[0], metadata[keys[0]])
  {
    PassUnfold(keys, metadata, 0);
    assert keys[..0] == [] && keys[..1] == keys;
  }

  /** Two files with the same pixel content, `a.jpg` then `b.jpg`: the first
      is copied to index 0, the second is logged with code 6. */
  lemma DuplicatePairScenario(pa: string, pb: string)
    ensures var img := Decoded("RGB", 200, 200, [30.0, 20.0, 10.0], "h");
      var files := [ScannedFile("a.jpg", pa, 2000, img), ScannedFile("b.jpg", pb, 2000, img)];
      KeysIn(KeysOf(files), MetadataOf(files)) &&
      var st := Pass(KeysOf(files), MetadataOf(files));
      st.count == 1 && st.copies == [CopyAction(pa, 0)] && st.log == "b.jpg;6\n"
  {
    var img := Decoded("RGB", 200, 200, [30.0, 20.0, 10.0], "h");
    var fa, fb := ScannedFile("a.jpg", pa, 2000, img), ScannedFile("b.jpg", pb, 2000, img);
    var recA, recB := FileRecord(pa, "jpg", 2000, img), FileRecord(pb, "jpg", 2000, img);
    assert MakeRecord(fa) == recA && MakeRecord(fb) == recB by {
      assert Extension("a.jpg") == "jpg" && Extension("b.jpg") == "jpg";
    }
    TwoFileScan(fa, fb);
    DuplicatePairRun(recA, recB);
  }

  /** The walk over two files: the later store wins when the names agree. */
  lemma TwoFileScan(f: ScannedFile, g: ScannedFile)
    ensures KeysOf([f, g]) == [f.name, g.name]
    ensures MetadataOf([f, g]) == map[f.name := MakeRecord(f), g.name := MakeRecord(g)]
  {
    var files := [f, g];
    OneFileScan(f);
    MetadataStep(files, 1);
    assert files[..1] == [f] && files[..2] == files;
    assert KeysOf(files) == [f.name, g.name];
  }

  lemma DuplicatePairRun(recA: FileRecord, recB: FileRecord)
    requires recA.format == recB.format == "jpg" && recA.size == recB.size == 2000
    requires recA.image == recB.image == Decoded("RGB", 200, 200, [30.0, 20.0, 10.0], "h")
    ensures var keys, metadata := ["a.jpg", "b.jpg"], map["a.jpg" := recA, "b.jpg" := recB];
      Pass(keys, metadata) == PassState(1, ["h"], "b.jpg;6\n", [CopyAction(recA.path, 0)])
  {
    var keys, metadata := ["a.jpg", "b.jpg"], map["a.jpg" := recA, "b.jpg" := recB];
    assert metadata[keys[0]] == recA && metadata[keys[1]] == recB by {
      assert keys[0][0] != keys[1][0];
    }
    TwoKeyPass(keys, metadata);
    PairSteps(recA, recB);
  }

  /** A pass over two keys is two iterations from the start state. */
  lemma TwoKeyPass(keys: seq<string>, metadata: map<string, FileRecord>)
    requires KeysIn(keys, metadata) && |keys| == 2
    ensures Pass(keys, metadata) ==
      Step(Step(Start, keys[0], metadata[keys[0]]), keys[1], metadata[keys[1]])
  {
    assert Pass(keys[..1], metadata) == Step(Start, keys[0], metadata[keys[0]]) by {
      PassUnfold(keys, metadata, 0);
      assert keys[..0] == [];
    }
    PassUnfold(keys, metadata, 1);
    assert keys[..2] == keys;
  }

  /** The two iterations of the duplicate-pair scenario: `a.jpg` is copied to
      index 0, then `b.jpg` is logged with code 6. */
  lemma PairSteps(recA: FileRecord, recB: FileRecord)
    requires recA.format == recB.format == "jpg" && recA.size == recB.size == 2000
    requires recA.image == recB.image == Decoded("RGB", 200, 200, [30.0, 20.0, 10.0], "h")
    ensures Step(Start, "a.jpg", recA) == PassState(1, ["h"], "", [CopyAction(recA.path, 0)])
    ensures var first := PassState(1, ["h"], "", [CopyAction(recA.path, 0)]);
      Step(first, "b.jpg", recB) == PassState(1, ["h"], "b.jpg;6\n", [CopyAction(recA.path, 0)])
  {
    PairClassified(recA, recB);
    assert LogLine("b.jpg", 6) == "b.jpg;6\n";
  }

  /** The rule outcomes of the two files of the duplicate-pair scenario. */
  lemma PairClassified(recA: FileRecord, recB: FileRecord)
    requires recA.format == recB.format == "jpg" && recA.size == recB.size == 2000
    requires recA.image == recB.image == Decoded("RGB", 200, 200, [30.0, 20.0, 10.0], "h")
    ensures Classify(recA, []) == Accept
    ensures Classify(recB, ["h"]) == Reject(6)
  {
    assert Lower("jpg") == "jpg" && Lower("RGB") == "rgb";
    assert Errors(recA, []) == [];
    assert Errors(recB, ["h"]) == [6];
  }

  /** A `.png` file is logged with code 1 and nothing is copied. */
  lemma WrongFormatScenario(p: string)
    ensures var files := [ScannedFile("c.png", p, 2000, Decoded("RGB", 200, 200, [30.0, 20.0, 10.0], "h"))];
      KeysIn(KeysOf(files), MetadataOf(files)) &&
      var st := Pass(KeysOf(files), MetadataOf(files));
      st.count == 0 && st.copies == [] && st.log == "c.png;1\n"
  {
    var img := Decoded("RGB", 200, 200, [30.0, 20.0, 10.0], "h");
    var f := ScannedFile("c.png", p, 2000, img);
    var rec := FileRecord(p, "png", 2000, img);
    assert MakeRecord(f) == rec by {
      assert Extension("c.png") == "png";
    }
    OneFileScan(f);
    OneKeyPass([f.name], map[f.name := rec]);
    WrongFormatClassified(rec);
    assert LogLine("c.png", 1) == "c.png;1\n";
  }

  /** The rule outcome of the file of the wrong-format scenario. */
  lemma WrongFormatClassified(rec: FileRecord)
    requires rec.format == "png"
    ensures Classify(rec, []) == Reject(1)
  {
    assert Lower("png") == "png";
    assert Violates(1, rec, []);
  }
}
