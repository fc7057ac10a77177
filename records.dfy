/**
 The per-file metadata gathered by the directory walk of `validate_images`:
 what the imaging library reported about a file, and the record stored in the
 `metadata` dict under the file's bare name.
 */
module ImageRecords {

  /** The hexadecimal MD5 digest of an image's decoded pixel bytes. The digest
      itself is not computed here: only its equality matters. */
  type Digest = string

  /** The outcome of trying to open a file as an image. `Undecoded` is the
      `IOError` path (no image data, no hash); `Decoded` carries the pixel mode,
      the two dimensions, the per-channel variance and the content hash. */
  datatype Image =
    | Undecoded
    | Decoded(mode: string, h: nat, w: nat, variance: seq<real>, hash: Digest)

  /** The record stored in `metadata[name]`: source path, format (the last
      `.`-segment of the name, case preserved), size on disk and image data. */
  datatype FileRecord = FileRecord(path: string, format: string, size: nat, image: Image)

  /** One file as the walk meets it: bare name, full path, size on disk and
      what decoding it gave. */
  datatype ScannedFile = ScannedFile(name: string, path: string, size: nat, image: Image)

  /** `s` is a last `.`-segment of `name`: a dot-free suffix that is either
      the whole name or preceded by a dot. */
  predicate IsLastSegment(name: string, s: string)
  {
    && '.' !in s
    && |s| <= |name| && s == name[|name| - |s|..]
    && (|s| < |name| ==> name[|name| - |s| - 1] == '.')
  }

  /** `name.split('.')[-1]`: the text after the last dot, the empty string when
      the name ends with a dot, the whole name when it has no dot. */
  function Extension(name: string): (ext: string)
    ensures IsLastSegment(name, ext)
  {
    if name == [] then []
    else if name[|name| - 1] == '.' then []
    else Extension(name[..|name| - 1]) + [name[|name| - 1]]
  }

  /** A name has at most one last `.`-segment. */
  lemma {:induction false} LastSegmentUnique(name: string, a: string, b: string)
    requires IsLastSegment(name, a) && IsLastSegment(name, b)
    requires |a| <= |b|
    ensures a == b
  {
    if |a| < |b| {
      assert false;
    }
  }

  /** The contract of Extension pins it down: every last `.`-segment of a
      name is its extension. */
  lemma ExtensionUnique(name: string, t: string)
    requires IsLastSegment(name, t)
    ensures t == Extension(name)
  {
    var ext := Extension(name);
    if |t| <= |ext| {
      LastSegmentUnique(name, t, ext);
    } else {
      LastSegmentUnique(name, ext, t);
    }
  }

  /** Lower-cases one character as `str.lower` does on ASCII letters. */
  function LowerChar(c: char): char
  {
    if 'A' <= c <= 'Z' then (c as int + 32) as char else c
  }

  /** `str.lower` restricted to ASCII; it keeps the length. */
  function Lower(s: string): (r: string)
    ensures |r| == |s|
  {
    seq(|s|, i requires 0 <= i < |s| => LowerChar(s[i]))
  }

  /** A lower-cased string holds no upper-case letter and keeps every
      character that is not one. */
  lemma LowerShape(s: string)
    ensures forall i :: 0 <= i < |s| ==> !('A' <= Lower(s)[i] <= 'Z')
    ensures forall i :: 0 <= i < |s| && !('A' <= s[i] <= 'Z') ==> Lower(s)[i] == s[i]
  {
  }

  /** `c` lower-cases to the lower-case character `l`. */
  predicate CaseVariant(c: char, l: char)
  {
    c == l || ('A' <= c <= 'Z' && c as int + 32 == l as int)
  }

  /** The comparisons `x.lower() == lit` for a lower-case literal accept
      exactly the spellings of `lit` that differ from it only in case. */
  lemma {:induction false} LowerMatches(s: string, lit: string)
    requires forall i :: 0 <= i < |lit| ==> !('A' <= lit[i] <= 'Z')
    ensures Lower(s) == lit <==> |s| == |lit| && forall i :: 0 <= i < |s| ==> CaseVariant(s[i], lit[i])
  {
    if Lower(s) == lit {
      forall i | 0 <= i < |s|
        ensures CaseVariant(s[i], lit[i])
      {
        assert Lower(s)[i] == LowerChar(s[i]);
      }
    }
    if |s| == |lit| && forall i :: 0 <= i < |s| ==> CaseVariant(s[i], lit[i]) {
      forall i | 0 <= i < |s|
        ensures Lower(s)[i] == lit[i]
      {
        assert Lower(s)[i] == LowerChar(s[i]);
      }
    }
  }

  /** The record the walk stores for a file: its path, size and image data as
      met, and as format the name's last `.`-segment. */
  function MakeRecord(f: ScannedFile): (r: FileRecord)
    ensures r.path == f.path && r.size == f.size && r.image == f.image
    ensures r.format == Extension(f.name)
  {
    FileRecord(f.path, Extension(f.name), f.size, f.image)
  }

  /** The stored format is the name's last `.`-segment, case kept, and no
      other string is. */
  lemma RecordFormat(f: ScannedFile)
    ensures IsLastSegment(f.name, MakeRecord(f).format)
    ensures forall t :: IsLastSegment(f.name, t) ==> t == MakeRecord(f).format
  {
    forall t | IsLastSegment(f.name, t)
      ensures t == MakeRecord(f).format
    {
      ExtensionUnique(f.name, t);
    }
  }
}
