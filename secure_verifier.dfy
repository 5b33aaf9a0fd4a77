/**
 * SecureBiometricVerifier: decode, detect, a size-and-focus quality gate, an optional
 * eye-count liveness gate, first-match search under tolerance 0.5, and registration of an
 * unmatched face in the known-faces directory and the verifications table. A successful
 * result can then be bound to a wallet address.
 */
module SecureVerification {
  import opened Base
  import opened Images
  import opened KnownFaces
  import opened Responses
  import opened Platform
  import opened VerificationDb

  /** `self.tolerance`: stricter than the basic verifier's. */
  const SecureTolerance: real := 0.5

  /** `self.min_face_size`, in pixels. */
  const MinFaceSize: int := 100

  /** The focus threshold of `_check_face_quality`. */
  const FocusThreshold: real := 100.0

  /** The eye count `_check_liveness` asks for (the literal 2; `self.required_blinks` is never read). */
  const RequiredEyes: nat := 2

  const InvalidImageMessage := "Invalid image data"
  const NoFaceMessage := "No face detected"
  const LowQualityMessage := "Face quality too low"
  const LivenessFailedMessage := "Liveness check failed"
  const MatchedMessage := "Verified"
  const RegisteredMessage := "New face registered"

  // ---------------------------------------------------------------------------------------
  // Gates

  /**
   * `_check_face_quality`: both sides of the face box at least MinFaceSize, and then the
   * focus measure strictly above FocusThreshold.
   */
  function CheckFaceQuality(image: Image, location: Box): (ok: bool)
    ensures ok ==> location.bottom - location.top >= MinFaceSize && location.right - location.left >= MinFaceSize
    ensures location.bottom - location.top >= MinFaceSize && location.right - location.left >= MinFaceSize
            ==> (ok <==> image.focus > FocusThreshold)
  {
    var faceHeight := location.bottom - location.top;
    var faceWidth := location.right - location.left;
    if faceHeight < MinFaceSize || faceWidth < MinFaceSize then false
    else image.focus > FocusThreshold
  }

  /** A 100 x 100 face passes the size check, a side of 99 fails, and a focus of exactly 100 fails. */
  lemma QualityBoundaries(image: Image, top: int, left: int)
    ensures CheckFaceQuality(image, Box(top, left + 100, top + 100, left)) <==> image.focus > 100.0
    ensures !CheckFaceQuality(image, Box(top, left + 100, top + 99, left))
    ensures !CheckFaceQuality(image, Box(top, left + 99, top + 100, left))
    ensures !CheckFaceQuality(image.(focus := 100.0), Box(top, left + 100, top + 100, left))
  {
  }

  /** `_check_liveness`: at least two eye regions detected. */
  function CheckLiveness(image: Image): (ok: bool)
    ensures ok <==> image.eyeRegions >= 2
  {
    image.eyeRegions >= RequiredEyes
  }

  /** Where the gates leave a request: stopped with a message, or through with the first face. */
  datatype Gate = Reject(reason: string) | Pass(face: Face, image: Image)

  /** The early returns of verify_face (lines 22-37), in order. */
  function SecureGate(parsed: Option<Image>, isLiveCheck: bool): (g: Gate)
    ensures g.Pass? ==> parsed == Some(g.image) && |g.image.faces| > 0 && g.face == g.image.faces[0]
    ensures g.Pass? ==> CheckFaceQuality(g.image, g.face.location)
    ensures g.Pass? && isLiveCheck ==> CheckLiveness(g.image)
  {
    match parsed
    case None => Reject(InvalidImageMessage)
    case Some(image) =>
      if |image.faces| == 0 then Reject(NoFaceMessage)
      else if !CheckFaceQuality(image, image.faces[0].location) then Reject(LowQualityMessage)
      else if isLiveCheck && !CheckLiveness(image) then Reject(LivenessFailedMessage)
      else Pass(image.faces[0], image)
  }

  /** Each gate answers with its own message exactly when every earlier gate passed and it fails. */
  lemma GateOrder(parsed: Option<Image>, isLiveCheck: bool)
    ensures SecureGate(parsed, isLiveCheck) == Reject(InvalidImageMessage) <==> parsed.None?
    ensures SecureGate(parsed, isLiveCheck) == Reject(NoFaceMessage)
            <==> parsed.Some? && |parsed.value.faces| == 0
    ensures SecureGate(parsed, isLiveCheck) == Reject(LowQualityMessage)
            <==> parsed.Some? && |parsed.value.faces| > 0
                 && !CheckFaceQuality(parsed.value, parsed.value.faces[0].location)
    ensures SecureGate(parsed, isLiveCheck) == Reject(LivenessFailedMessage)
            <==> parsed.Some? && |parsed.value.faces| > 0
                 && CheckFaceQuality(parsed.value, parsed.value.faces[0].location)
                 && isLiveCheck && !CheckLiveness(parsed.value)
    ensures SecureGate(parsed, isLiveCheck).Pass?
            <==> parsed.Some? && |parsed.value.faces| > 0
                 && CheckFaceQuality(parsed.value, parsed.value.faces[0].location)
                 && (isLiveCheck ==> CheckLiveness(parsed.value))
  {
  }

  /** Without a liveness request the eye count never changes the outcome of the gates. */
  lemma LivenessOnlyWhenRequested(image: Image, eyes: nat)
    ensures SecureGate(Some(image), false) != Reject(LivenessFailedMessage)
    ensures SecureGate(Some(image), false).Reject?
            ==> SecureGate(Some(image.(eyeRegions := eyes)), false) == SecureGate(Some(image), false)
    ensures SecureGate(Some(image), false).Pass?
            ==> SecureGate(Some(image.(eyeRegions := eyes)), false).Pass?
  {
  }

  // ---------------------------------------------------------------------------------------
  // The pipeline of lines 19-51

  /** The response, the directory listing and the table after one request. */
  datatype Verified = Verified(response: Response, listing: seq<StoredFile>, table: Table)

  /** The row `_register_new_face` writes for a new id (`wallet` is None from verify_face). */
  function RegistrationRecord(env: Env, wallet: Option<string>): Record
  {
    var id := FaceId(env.digest);
    NewRecord(id, PathOf(EncodingFileName(id)), Some(PathOf(ImageFileName(id))), wallet, env.now)
  }

  /**
   * verify_face (lines 19-51) as a function of the directory listing and the table before the
   * request. The result of create_verification is not looked at: a duplicate id leaves the
   * table alone and the request still reports the registration.
   */
  function VerifyFaceSpec(files: seq<StoredFile>, table: Table, data: ImageData, isLiveCheck: bool, env: Env): (v: Verified)
    ensures WellFormed(v.response)
    ensures !v.response.success ==> v.table == table
    ensures v.response.success ==> v.response.message == MatchedMessage || v.response.message == RegisteredMessage
  {
    match SecureGate(ParseImage(data, env.decoders), isLiveCheck)
    case Reject(reason) => Verified(ErrorResponse(reason), files, table)
    case Pass(face, image) =>
      match FirstMatch(files, face.encoding, SecureTolerance)
      case Some(personId) => Verified(SuccessResponse(personId, MatchedMessage), files, table)
      case None =>
        var listing := RegisteredListing(files, env, face.encoding, image);
        match WriteFault(env)
        case Some(detail) => Verified(ExceptionResponse(detail), listing, table)
        case None =>
          Verified(SuccessResponse(FaceId(env.digest), RegisteredMessage), listing,
                   AfterCreate(table, RegistrationRecord(env, None)))
  }

  /** A request the gates stop answers with that gate's message and changes nothing. */
  lemma RejectedRequestChangesNothing(files: seq<StoredFile>, table: Table, data: ImageData, isLiveCheck: bool, env: Env)
    requires SecureGate(ParseImage(data, env.decoders), isLiveCheck).Reject?
    ensures VerifyFaceSpec(files, table, data, isLiveCheck, env)
         == Verified(ErrorResponse(SecureGate(ParseImage(data, env.decoders), isLiveCheck).reason), files, table)
  {
  }

  /** A matched face answers "Verified" with the first matching id and changes nothing. */
  lemma MatchedRequestChangesNothing(files: seq<StoredFile>, table: Table, data: ImageData, isLiveCheck: bool, env: Env)
    requires SecureGate(ParseImage(data, env.decoders), isLiveCheck).Pass?
    requires FirstMatch(files, SecureGate(ParseImage(data, env.decoders), isLiveCheck).face.encoding, SecureTolerance).Some?
    ensures VerifyFaceSpec(files, table, data, isLiveCheck, env)
         == Verified(SuccessResponse(FirstMatch(files, SecureGate(ParseImage(data, env.decoders), isLiveCheck).face.encoding,
                                                SecureTolerance).value, MatchedMessage), files, table)
  {
  }

  /**
   * An unmatched face registered under an unused id with both writes succeeding: the answer
   * carries the new id, the gallery gains exactly that id with that encoding, and the table
   * gains one active row with the same id and both artefact paths.
   */
  lemma RegisteredRequest(files: seq<StoredFile>, table: Table, data: ImageData, isLiveCheck: bool, env: Env)
    requires SecureGate(ParseImage(data, env.decoders), isLiveCheck).Pass?
    requires FirstMatch(files, SecureGate(ParseImage(data, env.decoders), isLiveCheck).face.encoding, SecureTolerance).None?
    requires IdFree(files, FaceId(env.digest)) && FaceId(env.digest) !in table
    requires env.npySave.None? && env.imwrite.Stored?
    ensures var v := VerifyFaceSpec(files, table, data, isLiveCheck, env);
      && v.response == SuccessResponse(FaceId(env.digest), RegisteredMessage)
      && Gallery(v.listing) == Gallery(files) + [(FaceId(env.digest), SecureGate(ParseImage(data, env.decoders), isLiveCheck).face.encoding)]
      && v.table == table[FaceId(env.digest) := RegistrationRecord(env, None)]
      && v.table[FaceId(env.digest)].faceEncodingPath == PathOf(FaceId(env.digest) + ".npy")
      && v.table[FaceId(env.digest)].imagePath == Some(PathOf(FaceId(env.digest) + ".jpg"))
      && v.table[FaceId(env.digest)].isActive == 1
  {
    var g := SecureGate(ParseImage(data, env.decoders), isLiveCheck);
    FreshRegistration(files, env, g.face.encoding, g.image);
  }

  /**
   * A registration whose write raises answers "Verification error: " with the exception text
   * and leaves the table alone; a raising np.save writes nothing, a raising imwrite leaves the
   * `.npy` file behind.
   */
  lemma WriteFaultAnswersException(files: seq<StoredFile>, table: Table, data: ImageData, isLiveCheck: bool, env: Env)
    requires SecureGate(ParseImage(data, env.decoders), isLiveCheck).Pass?
    requires FirstMatch(files, SecureGate(ParseImage(data, env.decoders), isLiveCheck).face.encoding, SecureTolerance).None?
    requires WriteFault(env).Some?
    ensures var g := SecureGate(ParseImage(data, env.decoders), isLiveCheck);
      VerifyFaceSpec(files, table, data, isLiveCheck, env)
      == Verified(ExceptionResponse(WriteFault(env).value), RegisteredListing(files, env, g.face.encoding, g.image), table)
    ensures env.npySave.Some? ==> VerifyFaceSpec(files, table, data, isLiveCheck, env).listing == files
    ensures env.npySave.None? ==> EncodingFile(FaceId(env.digest), SecureGate(ParseImage(data, env.decoders), isLiveCheck).face.encoding)
                                   in VerifyFaceSpec(files, table, data, isLiveCheck, env).listing
  {
  }

  /**
   * Presenting the same image again after it was registered is answered "Verified" with the id
   * the first request returned, and changes nothing: one face, one identity.
   */
  lemma SecondPresentationMatches(files: seq<StoredFile>, table: Table, data: ImageData, isLiveCheck: bool,
                                  env: Env, later: Env)
    requires SecureGate(ParseImage(data, env.decoders), isLiveCheck).Pass?
    requires FirstMatch(files, SecureGate(ParseImage(data, env.decoders), isLiveCheck).face.encoding, SecureTolerance).None?
    requires IdFree(files, FaceId(env.digest))
    requires WriteFault(env).None?
    requires later.decoders == env.decoders
    ensures var first := VerifyFaceSpec(files, table, data, isLiveCheck, env);
      && first.response == SuccessResponse(FaceId(env.digest), RegisteredMessage)
      && VerifyFaceSpec(first.listing, first.table, data, isLiveCheck, later)
         == Verified(SuccessResponse(FaceId(env.digest), MatchedMessage), first.listing, first.table)
  {
    var g := SecureGate(ParseImage(data, env.decoders), isLiveCheck);
    var e := g.face.encoding;
    assert FirstMatchIndex(files, e, SecureTolerance).None?;
    WithinSelf(e, SecureTolerance);
    RegisteredFaceIsMatched(files, env, e, g.image, e, SecureTolerance);
  }

  // ---------------------------------------------------------------------------------------
  // Wallet rebind (lines 133-142)

  /** Python truthiness of an optional string: present and non-empty. */
  predicate Truthy(wallet: Option<string>)
  {
    wallet.Some? && wallet.value != ""
  }

  /**
   * The table after the rebind as evidently intended: after a successful result and with a
   * wallet given, the row with the result's id (active or not) gets that wallet; a missing
   * id (a KeyError or no row) changes nothing.
   */
  function Rebound(t: Table, result: Response, wallet: Option<string>): (t': Table)
    ensures t'.Keys == t.Keys
    ensures forall k :: k in t ==> t'[k].(walletAddress := t[k].walletAddress) == t[k]
    ensures forall k :: k in t && result.verificationId != Some(k) ==> t'[k] == t[k]
    ensures !result.success || !Truthy(wallet) ==> t' == t
    ensures result.success && Truthy(wallet) && result.verificationId.Some? && result.verificationId.value in t
            ==> t'[result.verificationId.value].walletAddress == wallet
  {
    if result.success && Truthy(wallet) && result.verificationId.Some? && result.verificationId.value in t
    then t[result.verificationId.value := t[result.verificationId.value].(walletAddress := wallet)]
    else t
  }

  /**
   * The names biometric_verification_secure.py binds at module level: its imports and its
   * class. `Database` is imported inside `__init__` only and `VerificationRecord` nowhere.
   */
  const SecureModuleGlobals: set<string> :=
    {"face_recognition", "cv2", "np", "os", "base64", "datetime", "hashlib", "SecureBiometricVerifier"}

  /**
   * The rebind as written: `VerificationRecord` at line 137 is looked up among the module's
   * globals; the NameError is caught at lines 143-145, the session rolls back, nothing changes.
   */
  function ReboundAsWritten(t: Table, result: Response, wallet: Option<string>): (t': Table)
    ensures t' == t
  {
    assert "VerificationRecord" !in SecureModuleGlobals;
    if result.success && Truthy(wallet) then
      if "VerificationRecord" in SecureModuleGlobals then Rebound(t, result, wallet) else t
    else t
  }

  /**
   * For any successful result whose row exists, the rebind as written stores no wallet while
   * the intended rebind stores it.
   */
  lemma RebindAsWrittenNeverBinds(t: Table, result: Response, wallet: string)
    requires result.success && result.verificationId.Some? && result.verificationId.value in t
    requires wallet != ""
    ensures ReboundAsWritten(t, result, Some(wallet)) == t
    ensures Rebound(t, result, Some(wallet))[result.verificationId.value].walletAddress == Some(wallet)
    ensures t[result.verificationId.value].walletAddress != Some(wallet)
            ==> ReboundAsWritten(t, result, Some(wallet)) != Rebound(t, result, Some(wallet))
  {
  }

  // ---------------------------------------------------------------------------------------
  // The second verify_face definition (line 130) and its super() call

  /** `dir(object)` (Python 3.11). */
  const ObjectAttributes: set<string> := {
    "__class__", "__delattr__", "__dir__", "__doc__", "__eq__", "__format__", "__ge__",
    "__getattribute__", "__getstate__", "__gt__", "__hash__", "__init__", "__init_subclass__",
    "__le__", "__lt__", "__ne__", "__new__", "__reduce__", "__reduce_ex__", "__repr__",
    "__setattr__", "__sizeof__", "__str__", "__subclasshook__"}

  /** The methods SecureBiometricVerifier defines (the later verify_face replaces the earlier). */
  const SecureVerifierAttributes: set<string> := {
    "__init__", "verify_face", "_check_face_quality", "_check_liveness", "_parse_image",
    "_match_known_faces", "_register_new_face", "_success_response", "_error_response"}

  /** The method resolution order of SecureBiometricVerifier: it names no base, so object follows it. */
  const SecureVerifierMro: seq<set<string>> := [SecureVerifierAttributes, ObjectAttributes]

  /** The first class of `mro` from position `from` on that defines `name`. */
  function DefinerFrom(mro: seq<set<string>>, from: nat, name: string): (r: Option<nat>)
    requires from <= |mro|
    ensures r.Some? ==> from <= r.value < |mro| && name in mro[r.value]
    ensures r.Some? ==> forall j :: from <= j < r.value ==> name !in mro[j]
    ensures r.None? ==> forall j :: from <= j < |mro| ==> name !in mro[j]
    decreases |mro| - from
  {
    if from == |mro| then None
    else if name in mro[from] then Some(from)
    else DefinerFrom(mro, from + 1, name)
  }

  /**
   * `super().name` in a method of `mro[0]`: the first later class of the MRO that defines
   * `name`; None is Python's AttributeError.
   */
  function SuperLookup(mro: seq<set<string>>, name: string): (r: Option<nat>)
    ensures r.Some? ==> 1 <= r.value < |mro| && name in mro[r.value]
    ensures r.None? ==> forall j :: 1 <= j < |mro| ==> name !in mro[j]
  {
    if |mro| == 0 then None else DefinerFrom(mro, 1, name)
  }

  /**
   * As written, `super().verify_face` at line 132 finds nothing: every call of the public
   * verify_face raises AttributeError before any verification, outside any try.
   */
  lemma SuperVerifyFaceUnresolved()
    ensures SuperLookup(SecureVerifierMro, "verify_face") == None
  {
    assert "verify_face" !in ObjectAttributes;
  }

  // ---------------------------------------------------------------------------------------
  // The verifier object

  class SecureVerifier {
    const dir: FaceDirectory
    const db: Database

    ghost predicate Valid()
      reads this, dir, db
    {
      dir.Valid() && db.Valid()
    }

    /** `SecureBiometricVerifier()`: the known-faces directory and the database it opens. */
    constructor (dir: FaceDirectory, db: Database)
      requires dir.Valid() && db.Valid()
      ensures Valid() && this.dir == dir && this.db == db
    {
      this.dir := dir;
      this.db := db;
    }

    /**
     * `_register_new_face`: writes `{id}.npy` and `{id}.jpg`, then the row, and returns the id.
     * A raising write stops it (np.save first, nothing else written); the row's success is
     * not looked at.
     */
    method RegisterNewFace(encoding: Encoding, image: Image, wallet: Option<string>, env: Env)
      returns (outcome: Outcome<string>)
      requires Valid()
      modifies dir, db
      ensures Valid()
      ensures dir.files == RegisteredListing(old(dir.files), env, encoding, image)
      ensures outcome == match WriteFault(env)
                         case Some(detail) => Raised(detail)
                         case None => Returned(FaceId(env.digest))
      ensures db.records == if WriteFault(env).Some? then old(db.records)
                            else AfterCreate(old(db.records), RegistrationRecord(env, wallet))
    {
      var faceId := FaceId(env.digest);
      var encodingPath := PathOf(EncodingFileName(faceId));
      var imagePath := PathOf(ImageFileName(faceId));
      FaceIdRoundTrip(env.digest);
      if env.npySave.Some? {
        return Raised(env.npySave.value);
      }
      dir.Save(EncodingFile(faceId, encoding));
      match env.imwrite {
        case ImwriteRaises(detail) =>
          return Raised(detail);
        case NotStored =>
        case Stored =>
          dir.Save(ImageFile(faceId, image));
      }
      var created := db.CreateVerification(faceId, encodingPath, Some(imagePath), wallet, env.now);
      return Returned(faceId);
    }

    /** verify_face, lines 19-51. */
    method VerifyFace(data: ImageData, isLiveCheck: bool, env: Env) returns (r: Response)
      requires Valid()
      modifies dir, db
      ensures Valid()
      ensures Verified(r, dir.files, db.records) == VerifyFaceSpec(old(dir.files), old(db.records), data, isLiveCheck, env)
    {
      var image := ParseImage(data, env.decoders);
      if image.None? {
        return ErrorResponse(InvalidImageMessage);
      }
      var faceLocations := image.value.faces;
      if |faceLocations| == 0 {
        return ErrorResponse(NoFaceMessage);
      }
      if !CheckFaceQuality(image.value, faceLocations[0].location) {
        return ErrorResponse(LowQualityMessage);
      }
      if isLiveCheck && !CheckLiveness(image.value) {
        return ErrorResponse(LivenessFailedMessage);
      }
      var faceEncoding := faceLocations[0].encoding;
      var matched, personId := MatchKnownFaces(dir.files, faceEncoding, SecureTolerance);
      if matched {
        return SuccessResponse(personId.value, MatchedMessage);
      }
      var registered := RegisterNewFace(faceEncoding, image.value, None, env);
      match registered
      case Raised(detail) =>
        return ExceptionResponse(detail);
      case Returned(faceId) =>
        return SuccessResponse(faceId, RegisteredMessage);
    }

    /** Lines 133-142 as evidently intended: bind the wallet to the verified record. */
    method RebindWallet(result: Response, wallet: Option<string>)
      requires Valid()
      modifies db
      ensures Valid()
      ensures db.records == Rebound(old(db.records), result, wallet)
    {
      if result.success && Truthy(wallet) {
        match result.verificationId
        case None =>
        case Some(id) =>
          if id in db.records {
            db.records := db.records[id := db.records[id].(walletAddress := wallet)];
          }
      }
    }

    /**
     * The second verify_face (line 130) as evidently intended: run the pipeline of lines
     * 19-51, then rebind the wallet of a successful result.
     */
    method VerifyFaceWithWallet(data: ImageData, isLiveCheck: bool, wallet: Option<string>, env: Env)
      returns (r: Response)
      requires Valid()
      modifies dir, db
      ensures Valid()
      ensures var v := VerifyFaceSpec(old(dir.files), old(db.records), data, isLiveCheck, env);
        r == v.response && dir.files == v.listing && db.records == Rebound(v.table, r, wallet)
    {
      r := VerifyFace(data, isLiveCheck, env);
      RebindWallet(r, wallet);
    }
  }
}
