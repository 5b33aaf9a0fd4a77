/**
 * The foreign collaborators of one verification request, and the file writes of a
 * registration that both verifiers perform in the same order (`{id}.npy`, then `{id}.jpg`).
 */
module Platform {
  import opened Base
  import opened Images
  import opened KnownFaces

  /** cv2.imwrite: writes the file, returns False without writing, or raises. */
  datatype ImwriteResult = Stored | NotStored | ImwriteRaises(detail: string)

  /** What the outside world answers during one request. */
  datatype Env = Env(
    decoders: Decoders,        // base64 and image decoding
    digest: HexDigest,         // sha256 of the current timestamp, as hexdigest()
    npySave: Option<string>,   // np.save: None when it writes, Some(str(e)) when it raises
    imwrite: ImwriteResult,    // cv2.imwrite of the reference image
    now: int)                  // datetime.utcnow(), the default of created_at

  /** The exception, if any, the two writes of a registration raise. */
  function WriteFault(env: Env): Option<string>
  {
    if env.npySave.Some? then env.npySave
    else if env.imwrite.ImwriteRaises? then Some(env.imwrite.detail)
    else None
  }

  /** The encoding file of a registration. */
  function EncodingFile(id: string, encoding: Encoding): StoredFile
  {
    StoredFile(EncodingFileName(id), NpyArray(encoding))
  }

  /** The reference-image file of a registration. */
  function ImageFile(id: string, image: Image): StoredFile
  {
    StoredFile(ImageFileName(id), JpegImage(image))
  }

  /**
   * The listing after `np.save({id}.npy)` and then `cv2.imwrite({id}.jpg)`: a raising np.save
   * writes nothing and stops; an imwrite that raises or returns False leaves only the encoding.
   */
  function RegisteredListing(files: seq<StoredFile>, env: Env, encoding: Encoding, image: Image): (r: seq<StoredFile>)
    ensures env.npySave.Some? ==> r == files
    ensures env.npySave.None? ==> EncodingFile(FaceId(env.digest), encoding) in r
    ensures env.npySave.None? && env.imwrite.Stored? ==> ImageFile(FaceId(env.digest), image) in r
    ensures env.npySave.None? && !env.imwrite.Stored? ==> r == WriteFile(files, EncodingFile(FaceId(env.digest), encoding))
    ensures |files| <= |r| <= |files| + 2
  {
    var id := FaceId(env.digest);
    FaceIdRoundTrip(env.digest);
    if env.npySave.Some? then files
    else
      var withEncoding := WriteFile(files, EncodingFile(id, encoding));
      if env.imwrite.Stored? then WriteFile(withEncoding, ImageFile(id, image))
      else withEncoding
  }

  /** Neither file name of `id` is in the listing yet. */
  predicate IdFree(files: seq<StoredFile>, id: string)
  {
    !NameInUse(files, EncodingFileName(id)) && !NameInUse(files, ImageFileName(id))
  }

  /** The writes keep the listing a valid directory listing. */
  lemma RegisteredListingValid(files: seq<StoredFile>, env: Env, encoding: Encoding, image: Image)
    requires ListingValid(files)
    ensures ListingValid(RegisteredListing(files, env, encoding, image))
  {
    var id := FaceId(env.digest);
    FaceIdRoundTrip(env.digest);
    if env.npySave.None? {
      WriteFileKeepsValid(files, EncodingFile(id, encoding));
      var withEncoding := WriteFile(files, EncodingFile(id, encoding));
      if env.imwrite.Stored? {
        WriteFileKeepsValid(withEncoding, ImageFile(id, image));
      }
    }
  }

  /**
   * A registration under an unused id that writes both files appends exactly those two files,
   * and the gallery gains exactly one entry: the new id with the new encoding.
   */
  lemma FreshRegistration(files: seq<StoredFile>, env: Env, encoding: Encoding, image: Image)
    requires IdFree(files, FaceId(env.digest))
    requires env.npySave.None? && env.imwrite.Stored?
    ensures RegisteredListing(files, env, encoding, image)
         == files + [EncodingFile(FaceId(env.digest), encoding), ImageFile(FaceId(env.digest), image)]
    ensures Gallery(RegisteredListing(files, env, encoding, image))
         == Gallery(files) + [(FaceId(env.digest), encoding)]
  {
    var id := FaceId(env.digest);
    var npy, jpg := EncodingFile(id, encoding), ImageFile(id, image);
    FaceIdRoundTrip(env.digest);
    var withEncoding := files + [npy];
    forall j | 0 <= j < |withEncoding| ensures withEncoding[j].name != jpg.name {
      if j == |files| {
        assert npy.name[|id|..] == ".npy" && jpg.name[|id|..] == ".jpg";
      }
    }
    GalleryAppend(files, [npy, jpg]);
    assert [npy, jpg][1..] == [jpg] && [jpg][1..] == [];
    assert Gallery([jpg]) == [];
    assert Gallery([npy, jpg]) == [(id, encoding)];
    assert files + [npy] + [jpg] == files + [npy, jpg];
  }

  /**
   * After a registration under an unused id, any probe within tolerance of the registered
   * encoding that matched nothing before is now matched, and matched to the new id.
   */
  lemma RegisteredFaceIsMatched(files: seq<StoredFile>, env: Env, encoding: Encoding, image: Image,
                                probe: Encoding, tol: real)
    requires FirstMatchIndex(files, probe, tol).None?
    requires IdFree(files, FaceId(env.digest))
    requires env.npySave.None?
    requires Within(encoding, probe, tol)
    ensures FirstMatch(RegisteredListing(files, env, encoding, image), probe, tol) == Some(FaceId(env.digest))
  {
    var id := FaceId(env.digest);
    var npy, jpg := EncodingFile(id, encoding), ImageFile(id, image);
    FaceIdRoundTrip(env.digest);
    assert Matches(npy, probe, tol);
    if env.imwrite.Stored? {
      FreshRegistration(files, env, encoding, image);
      FirstMatchAfterNoMatch(files, [npy, jpg], probe, tol);
    } else {
      FirstMatchAfterNoMatch(files, [npy], probe, tol);
    }
  }
}
