/**
 * The gallery of known faces: the directory `data/known_faces` that both verifiers read and
 * write. Its listing (os.listdir order) is a sequence of stored files; matching walks it and
 * looks only at `.npy` files, comparing each stored encoding with the probe under a tolerance.
 */
module KnownFaces {
  import opened Base
  import opened Images

  /** The directory both verifiers use (`self.known_faces_dir`). */
  const KnownFacesDir := "data/known_faces"

  /** `os.path.join(KnownFacesDir, name)`. */
  function PathOf(name: string): string
  {
    KnownFacesDir + "/" + name
  }

  // ---------------------------------------------------------------------------------------
  // Distances

  /** Squared Euclidean distance of two vectors of the same length. */
  function SqDistance(a: seq<real>, b: seq<real>): (d: real)
    requires |a| == |b|
    ensures d >= 0.0
  {
    if |a| == 0 then 0.0
    else (a[0] - b[0]) * (a[0] - b[0]) + SqDistance(a[1..], b[1..])
  }

  lemma {:induction false} SqDistanceSelf(a: seq<real>)
    ensures SqDistance(a, a) == 0.0
  {
    if |a| > 0 {
      SqDistanceSelf(a[1..]);
    }
  }

  lemma {:induction false} SqDistanceSymmetric(a: seq<real>, b: seq<real>)
    requires |a| == |b|
    ensures SqDistance(a, b) == SqDistance(b, a)
  {
    if |a| > 0 {
      SqDistanceSymmetric(a[1..], b[1..]);
    }
  }

  /**
   * `face_distance(known, probe) <= tol`: face_distance is the Euclidean norm of the
   * difference, so this is its square against `tol * tol` for a non-negative tolerance (and
   * never holds for a negative one).
   */
  predicate Within(known: Encoding, probe: Encoding, tol: real)
  {
    0.0 <= tol && SqDistance(known, probe) <= tol * tol
  }

  /**
   * `Within` is `face_distance <= tolerance` without the square root: for the Euclidean
   * distance `d` (the non-negative root of the squared distance) it holds exactly when
   * `d <= tol`.
   */
  lemma WithinIsDistance(known: Encoding, probe: Encoding, tol: real, d: real)
    requires 0.0 <= d && d * d == SqDistance(known, probe)
    ensures Within(known, probe, tol) <==> d <= tol
  {
    if 0.0 <= tol {
      if d <= tol {
        assert d * d <= d * tol <= tol * tol;
      } else {
        SquareLess(tol, d);
      }
    }
  }

  /** Squaring is strictly increasing on the non-negative reals. */
  lemma SquareLess(x: real, y: real)
    requires 0.0 <= x < y
    ensures x * x < y * y
  {
    var low, mid, high := x * x, x * y, y * y;
    assert low <= mid;
    assert mid < high;
    LessChain(low, mid, high);
  }

  lemma LessChain(a: real, b: real, c: real)
    requires a <= b < c
    ensures a < c
  {
  }

  /** An encoding always lies within any non-negative tolerance of itself. */
  lemma WithinSelf(e: Encoding, tol: real)
    requires 0.0 <= tol
    ensures Within(e, e, tol)
  {
    SqDistanceSelf(e);
  }

  lemma WithinSymmetric(a: Encoding, b: Encoding, tol: real)
    ensures Within(a, b, tol) <==> Within(b, a, tol)
  {
    SqDistanceSymmetric(a, b);
  }

  /** A pair within a strict tolerance is within every looser one. */
  lemma WithinLooser(a: Encoding, b: Encoding, strict: real, loose: real)
    requires strict <= loose
    requires Within(a, b, strict)
    ensures Within(a, b, loose)
  {
    assert strict * strict <= strict * loose <= loose * loose;
  }

  // ---------------------------------------------------------------------------------------
  // Stored files

  /** What a stored file holds: an array written by np.save, or an image written by cv2.imwrite. */
  datatype FileData = NpyArray(encoding: Encoding) | JpegImage(image: Image)

  datatype StoredFile = StoredFile(name: string, data: FileData)

  /** `s.endswith(suffix)`. */
  predicate EndsWith(s: string, suffix: string)
  {
    |suffix| <= |s| && s[|s| - |suffix|..] == suffix
  }

  /** `name.split('.')[0]`: the longest prefix of `name` without a dot. */
  function Stem(name: string): (stem: string)
    ensures stem <= name
    ensures '.' !in stem
    ensures |stem| < |name| ==> name[|stem|] == '.'
  {
    if name == [] || name[0] == '.' then []
    else [name[0]] + Stem(name[1..])
  }

  /** The stem of `id` followed by an extension is `id` itself when `id` has no dot. */
  lemma {:induction false} StemOfKeyed(id: string, ext: string)
    requires '.' !in id
    requires |ext| > 0 && ext[0] == '.'
    ensures Stem(id + ext) == id
  {
    if id == [] {
      assert id + ext == ext;
    } else {
      assert (id + ext)[0] == id[0] && (id + ext)[1..] == id[1..] + ext;
      StemOfKeyed(id[1..], ext);
      assert [id[0]] + id[1..] == id;
    }
  }

  /** A file of the listing is well typed when a `.npy` name holds an array. */
  predicate WellTyped(f: StoredFile)
  {
    EndsWith(f.name, ".npy") ==> f.data.NpyArray?
  }

  /** A directory listing: names are unique and every `.npy` file holds an encoding. */
  predicate ListingValid(files: seq<StoredFile>)
  {
    && (forall i, j :: 0 <= i < j < |files| ==> files[i].name != files[j].name)
    && (forall i :: 0 <= i < |files| ==> WellTyped(files[i]))
  }

  predicate NameInUse(files: seq<StoredFile>, name: string)
  {
    exists j :: 0 <= j < |files| && files[j].name == name
  }

  /** Position of the file called `name`, if any. */
  function NameIndex(files: seq<StoredFile>, name: string): (r: Option<nat>)
    ensures r.Some? ==> r.value < |files| && files[r.value].name == name
    ensures r.None? ==> !NameInUse(files, name)
  {
    if files == [] then None
    else if files[0].name == name then Some(0)
    else match NameIndex(files[1..], name)
      case None => None
      case Some(k) => Some(k + 1)
  }

  /**
   * The listing after writing `f` (np.save / cv2.imwrite open the path for writing): a file of
   * the same name keeps its place and gets the new content; a new name joins the listing.
   */
  function WriteFile(files: seq<StoredFile>, f: StoredFile): (r: seq<StoredFile>)
    ensures |r| == if NameInUse(files, f.name) then |files| else |files| + 1
    ensures f in r
    ensures forall j :: 0 <= j < |files| && files[j].name != f.name ==> r[j] == files[j]
    ensures !NameInUse(files, f.name) ==> r == files + [f]
  {
    match NameIndex(files, f.name)
    case Some(k) => assert files[k := f][k] == f; files[k := f]
    case None => files + [f]
  }

  lemma WriteFileKeepsValid(files: seq<StoredFile>, f: StoredFile)
    requires ListingValid(files) && WellTyped(f)
    ensures ListingValid(WriteFile(files, f))
  {
    var r := WriteFile(files, f);
    match NameIndex(files, f.name)
    case Some(k) =>
      assert r == files[k := f];
      forall i, j | 0 <= i < j < |r| ensures r[i].name != r[j].name {
        assert r[i].name == files[i].name && r[j].name == files[j].name;
      }
    case None =>
      assert r == files + [f];
  }

  // ---------------------------------------------------------------------------------------
  // Matching

  /** `f` takes part in matching (a `.npy` file) and its encoding is within `tol` of `probe`. */
  predicate Matches(f: StoredFile, probe: Encoding, tol: real)
  {
    EndsWith(f.name, ".npy") && f.data.NpyArray? && Within(f.data.encoding, probe, tol)
  }

  /** The first position of the listing that matches. */
  function FirstMatchIndex(files: seq<StoredFile>, probe: Encoding, tol: real): (r: Option<nat>)
    ensures r.Some? ==> r.value < |files| && Matches(files[r.value], probe, tol)
    ensures r.Some? ==> forall j :: 0 <= j < r.value ==> !Matches(files[j], probe, tol)
    ensures r.None? ==> forall j :: 0 <= j < |files| ==> !Matches(files[j], probe, tol)
  {
    if files == [] then None
    else if Matches(files[0], probe, tol) then Some(0)
    else match FirstMatchIndex(files[1..], probe, tol)
      case None => None
      case Some(k) => Some(k + 1)
  }

  /** The id `_match_known_faces` reports: the stem of the first matching file's name. */
  function FirstMatch(files: seq<StoredFile>, probe: Encoding, tol: real): (r: Option<string>)
    ensures r.None? <==> forall j :: 0 <= j < |files| ==> !Matches(files[j], probe, tol)
    ensures r.Some? ==> exists k :: 0 <= k < |files| && Matches(files[k], probe, tol)
                                    && Stem(files[k].name) == r.value
                                    && forall j :: 0 <= j < k ==> !Matches(files[j], probe, tol)
  {
    match FirstMatchIndex(files, probe, tol)
    case None => None
    case Some(k) => Some(Stem(files[k].name))
  }

  /**
   * `_match_known_faces`: walks the listing in order, skips names not ending in `.npy`, and
   * returns `(True, stem)` for the first encoding within tolerance, `(False, None)` if none is.
   */
  method MatchKnownFaces(files: seq<StoredFile>, probe: Encoding, tol: real)
    returns (found: bool, personId: Option<string>)
    requires ListingValid(files)
    ensures found <==> FirstMatchIndex(files, probe, tol).Some?
    ensures personId == FirstMatch(files, probe, tol)
  {
    var i := 0;
    while i < |files|
      invariant 0 <= i <= |files|
      invariant forall j :: 0 <= j < i ==> !Matches(files[j], probe, tol)
    {
      var f := files[i];
      if EndsWith(f.name, ".npy") {
        var known := f.data.encoding;
        if Within(known, probe, tol) {
          return true, Some(Stem(f.name));
        }
      }
      i := i + 1;
    }
    return false, None;
  }

  /** Matching a listing with no match, extended at the end, only finds what the extension holds. */
  lemma FirstMatchAfterNoMatch(files: seq<StoredFile>, extra: seq<StoredFile>, probe: Encoding, tol: real)
    requires FirstMatchIndex(files, probe, tol).None?
    ensures FirstMatch(files + extra, probe, tol) == FirstMatch(extra, probe, tol)
  {
    var all := files + extra;
    match FirstMatchIndex(extra, probe, tol)
    case None =>
      forall j | 0 <= j < |all| ensures !Matches(all[j], probe, tol) {
        if j >= |files| {
          assert all[j] == extra[j - |files|];
        }
      }
      assert FirstMatchIndex(all, probe, tol).None?;
    case Some(k) =>
      assert all[|files| + k] == extra[k];
      var r := FirstMatchIndex(all, probe, tol);
      assert r.Some?;
      assert r.value >= |files|;
      assert all[r.value] == extra[r.value - |files|];
      assert r.value == |files| + k;
  }

  /** A stored encoding that matches the strict tolerance is found by every looser one. */
  lemma FirstMatchLooser(files: seq<StoredFile>, probe: Encoding, strict: real, loose: real)
    requires strict <= loose
    requires FirstMatchIndex(files, probe, strict).Some?
    ensures FirstMatchIndex(files, probe, loose).Some?
    ensures FirstMatchIndex(files, probe, loose).value <= FirstMatchIndex(files, probe, strict).value
  {
    var k := FirstMatchIndex(files, probe, strict).value;
    WithinLooser(files[k].data.encoding, probe, strict, loose);
  }

  /** The gallery matching sees: `(stem, encoding)` of every `.npy` file, in listing order. */
  function Gallery(files: seq<StoredFile>): seq<(string, Encoding)>
  {
    if files == [] then []
    else
      var f := files[0];
      (if EndsWith(f.name, ".npy") && f.data.NpyArray? then [(Stem(f.name), f.data.encoding)] else [])
      + Gallery(files[1..])
  }

  lemma {:induction false} GalleryAppend(a: seq<StoredFile>, b: seq<StoredFile>)
    ensures Gallery(a + b) == Gallery(a) + Gallery(b)
  {
    if a != [] {
      assert (a + b)[0] == a[0] && (a + b)[1..] == a[1..] + b;
      GalleryAppend(a[1..], b);
    } else {
      assert a + b == b;
    }
  }

  // ---------------------------------------------------------------------------------------
  // Identifiers

  predicate IsLowerHex(c: char)
  {
    '0' <= c <= '9' || 'a' <= c <= 'f'
  }

  /** `hashlib.sha256(...).hexdigest()`: 64 lower-case hexadecimal digits. */
  type HexDigest = s: string | |s| == 64 && forall i :: 0 <= i < |s| ==> IsLowerHex(s[i])
    witness seq(64, _ => '0')

  /** The id `_register_new_face` assigns: the first 16 characters of the digest. */
  function FaceId(digest: HexDigest): (id: string)
    ensures |id| == 16
    ensures '.' !in id && '/' !in id
  {
    assert forall i :: 0 <= i < 16 ==> digest[..16][i] == digest[i];
    digest[..16]
  }

  /** The two files a registration writes, both keyed by the id. */
  function EncodingFileName(id: string): string { id + ".npy" }

  function ImageFileName(id: string): string { id + ".jpg" }

  /** The id of a registration is what matching reads back from either of its file names. */
  lemma FaceIdRoundTrip(digest: HexDigest)
    ensures Stem(EncodingFileName(FaceId(digest))) == FaceId(digest)
    ensures Stem(ImageFileName(FaceId(digest))) == FaceId(digest)
    ensures EndsWith(EncodingFileName(FaceId(digest)), ".npy")
    ensures !EndsWith(ImageFileName(FaceId(digest)), ".npy")
  {
    var id := FaceId(digest);
    StemOfKeyed(id, ".npy");
    StemOfKeyed(id, ".jpg");
    assert EncodingFileName(id)[|EncodingFileName(id)| - 4..] == ".npy";
    assert ImageFileName(id)[|ImageFileName(id)| - 4..] == ".jpg";
  }

  /** The known-faces directory on disk, shared by every verifier that names it. */
  class FaceDirectory {
    var files: seq<StoredFile>

    ghost predicate Valid()
      reads this
    {
      ListingValid(files)
    }

    constructor (listing: seq<StoredFile>)
      requires ListingValid(listing)
      ensures Valid() && files == listing
    {
      files := listing;
    }

    /** Writes one file into the directory. */
    method Save(f: StoredFile)
      requires Valid() && WellTyped(f)
      modifies this
      ensures Valid()
      ensures files == WriteFile(old(files), f)
    {
      WriteFileKeepsValid(files, f);
      files := WriteFile(files, f);
    }
  }
}
