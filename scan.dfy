/**
 The walk of `validate_images`: every file met is appended to `keys`, and its
 record is stored in the `metadata` dict under its bare name, so a later file
 with the same name replaces the earlier record.
 */
module Scanner {
  import opened ImageRecords

  /** The `keys` list after the walk has met `files`: every name, repeats included. */
  function KeysOf(files: seq<ScannedFile>): (keys: seq<string>)
    ensures |keys| == |files|
  {
    seq(|files|, j requires 0 <= j < |files| => files[j].name)
  }

  /** The `metadata` dict after the walk has met `files`, one store at a time. */
  function MetadataOf(files: seq<ScannedFile>): map<string, FileRecord>
  {
    if files == [] then map[]
    else
      var last := files[|files| - 1];
      var m := MetadataOf(files[..|files| - 1]);
      m[last.name := MakeRecord(last)]
  }

  /** Every name the walk meets has a record in the dict. */
  lemma {:induction false} AllNamesStored(files: seq<ScannedFile>)
    ensures forall j :: 0 <= j < |files| ==> files[j].name in MetadataOf(files)
  {
    if files != [] {
      var n := |files| - 1;
      AllNamesStored(files[..n]);
      forall j | 0 <= j < n
        ensures files[j].name in MetadataOf(files)
      {
        assert files[..n][j] == files[j];
      }
    }
  }

  /** Last wins: a name is bound to the record of its last occurrence. */
  lemma {:induction false} LastOccurrenceWins(files: seq<ScannedFile>, j: nat)
    requires j < |files|
    requires forall l :: j < l < |files| ==> files[l].name != files[j].name
    ensures files[j].name in MetadataOf(files) && MetadataOf(files)[files[j].name] == MakeRecord(files[j])
  {
    var n := |files| - 1;
    if j < n {
      assert files[n].name != files[j].name;
      var prefix := files[..n];
      assert prefix[j] == files[j];
      forall l | j < l < n
        ensures prefix[l].name != prefix[j].name
      {
        assert prefix[l] == files[l];
      }
      LastOccurrenceWins(prefix, j);
    }
  }

  /** The dict holds no name the walk did not meet. */
  lemma {:induction false} OnlyScannedNames(files: seq<ScannedFile>, name: string)
    requires name in MetadataOf(files)
    ensures exists j :: 0 <= j < |files| && files[j].name == name
  {
    var n := |files| - 1;
    if files[n].name != name {
      OnlyScannedNames(files[..n], name);
      var j :| 0 <= j < n && files[..n][j].name == name;
      assert files[j].name == name;
    }
  }

  /** One store into the dict, read off from the walk. */
  lemma MetadataStep(files: seq<ScannedFile>, n: nat)
    requires n < |files|
    ensures MetadataOf(files[..n + 1]) == MetadataOf(files[..n])[files[n].name := MakeRecord(files[n])]
  {
    assert files[..n + 1][..n] == files[..n];
  }

  /** The two loops over `os.walk`: `keys` gets every name in walk order and
      `metadata` the record of each name's last occurrence. */
  method Scan(files: seq<ScannedFile>) returns (keys: seq<string>, metadata: map<string, FileRecord>)
    ensures keys == KeysOf(files)
    ensures forall j :: 0 <= j < |files| ==> keys[j] == files[j].name && keys[j] in metadata
    ensures metadata == MetadataOf(files)
  {
    keys, metadata := [], map[];
    for n := 0 to |files|
      invariant |keys| == n
      invariant forall j :: 0 <= j < n ==> keys[j] == files[j].name
      invariant metadata == MetadataOf(files[..n])
    {
      var f := files[n];
      MetadataStep(files, n);
      keys := keys + [f.name];
      metadata := metadata[f.name := MakeRecord(f)];
    }
    assert files[..|files|] == files;
    assert keys == KeysOf(files);
    AllNamesStored(files);
  }
}
