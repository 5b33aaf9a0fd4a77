/**
 * BiometricVerifier: decode, take the first detected face, first-match search under tolerance
 * 0.6, and registration of an unmatched face in the known-faces directory. No quality gate, no
 * liveness gate, no database.
 */
module BasicVerification {
  import opened Base
  import opened Images
  import opened KnownFaces
  import opened Responses
  import opened Platform

  /** `self.tolerance`. */
  const BasicTolerance: real := 0.6

  const InvalidImageMessage := "Invalid image data"
  const NoFaceMessage := "No face detected"
  const MatchedMessage := "Face verified"
  const RegisteredMessage := "New face registered"

  /** `_extract_face_encoding`: the encoding of the first detected face, or None without a face. */
  function ExtractFaceEncoding(image: Image): (e: Option<Encoding>)
    ensures e.None? <==> |image.faces| == 0
    ensures e.Some? ==> e.value == image.faces[0].encoding
  {
    if |image.faces| == 0 then None else Some(image.faces[0].encoding)
  }

  /** The response and the directory listing after one request. */
  datatype Answered = Answered(response: Response, listing: seq<StoredFile>)

  /** Lines 29-36 once an encoding is in hand: match, or register under a fresh id. */
  function AfterEncoding(files: seq<StoredFile>, encoding: Encoding, image: Image, env: Env): (a: Answered)
    ensures WellFormed(a.response)
    ensures a.response.success <==> FirstMatch(files, encoding, BasicTolerance).Some? || WriteFault(env).None?
    ensures FirstMatch(files, encoding, BasicTolerance).Some? ==> a.listing == files
    ensures a.response.success ==> a.response.message == MatchedMessage || a.response.message == RegisteredMessage
  {
    match FirstMatch(files, encoding, BasicTolerance)
    case Some(personId) => Answered(SuccessResponse(personId, MatchedMessage), files)
    case None =>
      var listing := RegisteredListing(files, env, encoding, image);
      match WriteFault(env)
      case Some(detail) => Answered(ExceptionResponse(detail), listing)
      case None => Answered(SuccessResponse(FaceId(env.digest), RegisteredMessage), listing)
  }

  /**
   * verify_face (lines 15-39) with the face check of line 25 as evidently intended
   * (`face_encoding is None`).
   */
  function BasicVerifyFaceSpec(files: seq<StoredFile>, data: ImageData, env: Env): (a: Answered)
    ensures WellFormed(a.response)
    ensures ParseImage(data, env.decoders).None? ==> a == Answered(ErrorResponse(InvalidImageMessage), files)
    ensures ParseImage(data, env.decoders).Some? && |ParseImage(data, env.decoders).value.faces| == 0
            ==> a == Answered(ErrorResponse(NoFaceMessage), files)
  {
    match ParseImage(data, env.decoders)
    case None => Answered(ErrorResponse(InvalidImageMessage), files)
    case Some(image) =>
      match ExtractFaceEncoding(image)
      case None => Answered(ErrorResponse(NoFaceMessage), files)
      case Some(encoding) => AfterEncoding(files, encoding, image, env)
  }

  /** A face that matches answers "Face verified" with the stem of the first matching file and writes nothing. */
  lemma BasicMatched(files: seq<StoredFile>, data: ImageData, env: Env)
    requires ParseImage(data, env.decoders).Some? && |ParseImage(data, env.decoders).value.faces| > 0
    requires FirstMatch(files, ParseImage(data, env.decoders).value.faces[0].encoding, BasicTolerance).Some?
    ensures BasicVerifyFaceSpec(files, data, env)
         == Answered(SuccessResponse(FirstMatch(files, ParseImage(data, env.decoders).value.faces[0].encoding,
                                                BasicTolerance).value, MatchedMessage), files)
  {
  }

  /**
   * An unmatched face registered under an unused id with both writes succeeding answers with
   * the new id, and exactly `{id}.npy` and `{id}.jpg` join the directory.
   */
  lemma BasicRegistered(files: seq<StoredFile>, data: ImageData, env: Env)
    requires ParseImage(data, env.decoders).Some? && |ParseImage(data, env.decoders).value.faces| > 0
    requires FirstMatch(files, ParseImage(data, env.decoders).value.faces[0].encoding, BasicTolerance).None?
    requires IdFree(files, FaceId(env.digest))
    requires env.npySave.None? && env.imwrite.Stored?
    ensures var image := ParseImage(data, env.decoders).value;
      var a := BasicVerifyFaceSpec(files, data, env);
      && a.response == SuccessResponse(FaceId(env.digest), RegisteredMessage)
      && a.listing == files + [EncodingFile(FaceId(env.digest), image.faces[0].encoding), ImageFile(FaceId(env.digest), image)]
      && Gallery(a.listing) == Gallery(files) + [(FaceId(env.digest), image.faces[0].encoding)]
  {
    var image := ParseImage(data, env.decoders).value;
    FreshRegistration(files, env, image.faces[0].encoding, image);
  }

  /** A registration whose write raises answers "Verification error: " with the exception text. */
  lemma BasicWriteFault(files: seq<StoredFile>, data: ImageData, env: Env)
    requires ParseImage(data, env.decoders).Some? && |ParseImage(data, env.decoders).value.faces| > 0
    requires FirstMatch(files, ParseImage(data, env.decoders).value.faces[0].encoding, BasicTolerance).None?
    requires WriteFault(env).Some?
    ensures var image := ParseImage(data, env.decoders).value;
      BasicVerifyFaceSpec(files, data, env)
      == Answered(ExceptionResponse(WriteFault(env).value), RegisteredListing(files, env, image.faces[0].encoding, image))
  {
  }

  /** Any decodable image with a face is accepted when the writes do not raise: no size, focus or liveness gate. */
  lemma BasicAcceptsAnyFace(files: seq<StoredFile>, data: ImageData, env: Env)
    requires ParseImage(data, env.decoders).Some? && |ParseImage(data, env.decoders).value.faces| > 0
    requires WriteFault(env).None?
    ensures BasicVerifyFaceSpec(files, data, env).response.success
  {
  }

  /**
   * Presenting the same image again after it was registered is answered "Face verified" with
   * the id the first request returned, and changes nothing.
   */
  lemma BasicSecondPresentationMatches(files: seq<StoredFile>, data: ImageData, env: Env, later: Env)
    requires ParseImage(data, env.decoders).Some? && |ParseImage(data, env.decoders).value.faces| > 0
    requires FirstMatch(files, ParseImage(data, env.decoders).value.faces[0].encoding, BasicTolerance).None?
    requires IdFree(files, FaceId(env.digest))
    requires WriteFault(env).None?
    requires later.decoders == env.decoders
    ensures var first := BasicVerifyFaceSpec(files, data, env);
      && first.response == SuccessResponse(FaceId(env.digest), RegisteredMessage)
      && BasicVerifyFaceSpec(first.listing, data, later)
         == Answered(SuccessResponse(FaceId(env.digest), MatchedMessage), first.listing)
  {
    var image := ParseImage(data, env.decoders).value;
    var e := image.faces[0].encoding;
    assert FirstMatchIndex(files, e, BasicTolerance).None?;
    WithinSelf(e, BasicTolerance);
    RegisteredFaceIsMatched(files, env, e, image, e, BasicTolerance);
  }

  /**
   * The secure verifier's tolerance (0.5) is stricter: a face it matches is matched here too,
   * by a file no later in the listing.
   */
  lemma StricterToleranceMatchesHere(files: seq<StoredFile>, probe: Encoding, strict: real)
    requires strict <= BasicTolerance
    requires FirstMatchIndex(files, probe, strict).Some?
    ensures FirstMatchIndex(files, probe, BasicTolerance).Some?
    ensures FirstMatchIndex(files, probe, BasicTolerance).value <= FirstMatchIndex(files, probe, strict).value
  {
    FirstMatchLooser(files, probe, strict, BasicTolerance);
  }

  // ---------------------------------------------------------------------------------------
  // Line 25 as written

  /** numpy's message when an array of several elements is used as a truth value. */
  const AmbiguousTruthMessage :=
    "The truth value of an array with more than one element is ambiguous. Use a.any() or a.all()"

  /**
   * Python's `not v` for None or a one-dimensional float array: None and the empty array are
   * falsy, a one-element array is its element's truth, a longer one raises ValueError.
   */
  function PyNot(v: Option<seq<real>>): (r: Outcome<bool>)
    ensures v.None? ==> r == Returned(true)
    ensures v.Some? && |v.value| > 1 ==> r == Raised(AmbiguousTruthMessage)
    ensures v.Some? && |v.value| == 1 ==> r == Returned(v.value[0] == 0.0)
  {
    match v
    case None => Returned(true)
    case Some(a) =>
      if |a| == 0 then Returned(true)
      else if |a| == 1 then Returned(a[0] == 0.0)
      else Raised(AmbiguousTruthMessage)
  }

  /** verify_face (lines 15-39) exactly as written: `if not face_encoding` on the 128-element array. */
  function BasicVerifyFaceAsWritten(files: seq<StoredFile>, data: ImageData, env: Env): (a: Answered)
    ensures WellFormed(a.response)
  {
    match ParseImage(data, env.decoders)
    case None => Answered(ErrorResponse(InvalidImageMessage), files)
    case Some(image) =>
      var faceEncoding := ExtractFaceEncoding(image);
      match PyNot(faceEncoding)
      case Raised(detail) => Answered(ExceptionResponse(detail), files)
      case Returned(noFace) =>
        match faceEncoding
        case None => Answered(ErrorResponse(NoFaceMessage), files)
        case Some(encoding) =>
          if noFace then Answered(ErrorResponse(NoFaceMessage), files)
          else AfterEncoding(files, encoding, image, env)
  }

  /**
   * As written, no request ever succeeds and none writes a file: an image with a face is
   * answered with numpy's ambiguity error, and only the error paths before it behave.
   */
  lemma AsWrittenNeverSucceeds(files: seq<StoredFile>, data: ImageData, env: Env)
    ensures !BasicVerifyFaceAsWritten(files, data, env).response.success
    ensures BasicVerifyFaceAsWritten(files, data, env).listing == files
    ensures ParseImage(data, env.decoders).Some? && |ParseImage(data, env.decoders).value.faces| > 0
            ==> BasicVerifyFaceAsWritten(files, data, env).response == ExceptionResponse(AmbiguousTruthMessage)
    ensures ParseImage(data, env.decoders).None? || |ParseImage(data, env.decoders).value.faces| == 0
            ==> BasicVerifyFaceAsWritten(files, data, env) == BasicVerifyFaceSpec(files, data, env)
  {
  }

  /** Where the two differ: an image with a face whose registration writes succeed. */
  lemma AsWrittenDiffersOnEveryFace(files: seq<StoredFile>, data: ImageData, env: Env)
    requires ParseImage(data, env.decoders).Some? && |ParseImage(data, env.decoders).value.faces| > 0
    requires WriteFault(env).None?
    ensures BasicVerifyFaceSpec(files, data, env).response.success
    ensures !BasicVerifyFaceAsWritten(files, data, env).response.success
  {
  }

  // ---------------------------------------------------------------------------------------
  // The verifier object

  class BasicVerifier {
    const dir: FaceDirectory

    ghost predicate Valid()
      reads this, dir
    {
      dir.Valid()
    }

    /** `BiometricVerifier()`: the known-faces directory, created if missing. */
    constructor (dir: FaceDirectory)
      requires dir.Valid()
      ensures Valid() && this.dir == dir
    {
      this.dir := dir;
    }

    /** `_register_new_face`: writes `{id}.npy`, then `{id}.jpg`, and returns the id. */
    method RegisterNewFace(encoding: Encoding, image: Image, env: Env) returns (outcome: Outcome<string>)
      requires Valid()
      modifies dir
      ensures Valid()
      ensures dir.files == RegisteredListing(old(dir.files), env, encoding, image)
      ensures outcome == match WriteFault(env)
                         case Some(detail) => Raised(detail)
                         case None => Returned(FaceId(env.digest))
    {
      var faceId := FaceId(env.digest);
      FaceIdRoundTrip(env.digest);
      if env.npySave.Some? {
        return Raised(env.npySave.value);
      }
      dir.Save(EncodingFile(faceId, encoding));
      match env.imwrite {
        case ImwriteRaises(detail) =>
          return Raised(detail);
        case NotStored =>
        case Stored =>
          dir.Save(ImageFile(faceId, image));
      }
      return Returned(faceId);
    }

    /** verify_face with the face check of line 25 as evidently intended. */
    method VerifyFace(data: ImageData, env: Env) returns (r: Response)
      requires Valid()
      modifies dir
      ensures Valid()
      ensures Answered(r, dir.files) == BasicVerifyFaceSpec(old(dir.files), data, env)
    {
      var image := ParseImage(data, env.decoders);
      if image.None? {
        return ErrorResponse(InvalidImageMessage);
      }
      var faceEncoding := ExtractFaceEncoding(image.value);
      if faceEncoding.None? {
        return ErrorResponse(NoFaceMessage);
      }
      var matched, personId := MatchKnownFaces(dir.files, faceEncoding.value, BasicTolerance);
      if matched {
        return SuccessResponse(personId.value, MatchedMessage);
      }
      var registered := RegisterNewFace(faceEncoding.value, image.value, env);
      match registered
      case Raised(detail) =>
        return ExceptionResponse(detail);
      case Returned(faceId) =>
        return SuccessResponse(faceId, RegisteredMessage);
    }
  }
}
