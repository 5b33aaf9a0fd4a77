# Biometric voting back end: verifiers, verification table and voting contract client

This project models the core of a biometric voting back end in Dafny and proves properties of the model. A voter is identified by face. The design is that the first time a face is presented, it is registered in a gallery of known faces on disk and recorded in a table of verifications, and that the same face presented again is recognised under the same id. That behaviour is proved of the corrected pipelines; as written, neither public `verify_face` reaches it (see "## Findings"). The voting contract client validates Ethereum addresses and builds unsigned transactions for the contract. It also reads the candidates and the voters' status from the contract.

Modules, one per concern of the source:

- `Base` (base.dfy): `Option`, `Outcome` (what a Python call returns or raises), `byte`.
- `Images` (images.dfy): decoded images and the measurements the foreign vision calls take of them. Also `_parse_image`: split a data URL on its first comma, base64-decode the rest, then decode the image.
- `KnownFaces` (known_faces.dfy): the `data/known_faces` directory as an ordered listing of stored files, and the Euclidean tolerance test that `compare_faces` performs. Also the first-match walk of `_match_known_faces`, file writes, and the face id (the first 16 characters of a sha256 hex digest). `FaceDirectory` is the directory as a mutable object.
- `Responses` (responses.dfy): the response dictionaries of both verifiers.
- `Platform` (platform.dfy): the foreign answers during one request (`Env`: decoders, the digest, np.save, cv2.imwrite, the clock). Also the two file writes of a registration and the facts about them.
- `VerificationDb` (database.dfy): the `verifications` table and the `Database` class with create, get and deactivate.
- `SecureVerification` (secure_verifier.dfy): `SecureBiometricVerifier` with the quality and liveness gates, the request pipeline as a specification function, the `SecureVerifier` class whose methods are proved against it, the wallet rebind, and the two faults of the second `verify_face`.
- `BasicVerification` (basic_verifier.dfy): `BiometricVerifier` with no gates and no table. The face check at line 25 is modelled both as written and corrected.
- `Voting` (voting.dfy): `VotingContract`, covering `Web3.is_address`, `to_bytes(hexstr=...)`, the two transaction builders and the three reads.

Each verifier's request pipeline is a function, from the directory listing (and the table) before the request to the response and the state after it. The class methods perform the same steps on `seq` and `map` fields and are proved to leave exactly that state. Foreign computations are parameters:

- image decoding, face detection, face encodings, the Laplacian focus measure and the eye cascade;
- the sha256 digest and the clock;
- whether each file write succeeds;
- the EIP-55 checksum test;
- what the node and the contract answer.

The model follows the source as written:

- matching returns the first `.npy` file within tolerance in listing order, not the closest one;
- matching reads the files on disk, not the table, so a deactivated verification is still matched;
- `cast_vote` does not check whether the voter is registered or has voted, and it reports no not-eligible error;
- a failing image write after the encoding was saved leaves the `.npy` file behind (nothing is rolled back);
- the secure verifier ignores the result of `create_verification`: a duplicate id still answers "New face registered";
- the attribute `required_blinks = 2` is never read, and liveness uses its own literal 2.

## Model

| member | source | states |
|---|---|---|
| Images.SplitFirstComma | biometric_verification_secure.py:84 | `split(",", 1)` unpacking succeeds exactly when the string has a comma; the parts rejoin to the string and the first part has no comma |
| Images.SplitFirstCommaOfJoin | biometric_verification_new.py:45 | splitting `header + "," + rest` gives back exactly `header` and `rest`, whatever commas `rest` holds |
| Images.ParseDataUrl | biometric_verification_secure.py:80-92 | a data URL is decoded from the part after its first comma alone; the header is ignored |
| Images.ParseImage | biometric_verification_secure.py:80-92 | a buffer is decoded by the image decoder alone, a non-buffer and a string without a comma never decode, and a decoded string is an image the decoder returned |
| Images.ParseFailures | biometric_verification_new.py:41-53 | a string without a comma and an object that is not a buffer never decode (the exception becomes None) |
| KnownFaces.SqDistance | biometric_verification_secure.py:99-103 | the squared distance behind `compare_faces` is never negative |
| KnownFaces.SqDistanceSelf | biometric_verification_secure.py:99-103 | an encoding is at distance 0 from itself |
| KnownFaces.SqDistanceSymmetric | biometric_verification_secure.py:99-103 | the distance does not depend on argument order |
| KnownFaces.WithinIsDistance | biometric_verification_secure.py:99-103 | the tolerance test holds exactly when the Euclidean distance (the non-negative root of the squared distance) is at most the tolerance |
| KnownFaces.WithinSelf | biometric_verification_secure.py:99-103 | an encoding is within every non-negative tolerance of itself |
| KnownFaces.WithinSymmetric | biometric_verification_new.py:67-71 | the tolerance test is symmetric in the stored and the probe encoding |
| KnownFaces.WithinLooser | biometric_verification_new.py:67-71 | a pair within a strict tolerance is within every looser one |
| KnownFaces.Stem | biometric_verification_secure.py:105 | `filename.split('.')[0]` is the prefix of the name up to (not including) its first dot |
| KnownFaces.StemOfKeyed | biometric_verification_secure.py:105 | the stem of `id + ".ext"` is `id` when `id` has no dot |
| KnownFaces.NameIndex | biometric_verification_secure.py:115-118 | finds the position of a file of that name, or proves no file has it |
| KnownFaces.WriteFile | biometric_verification_secure.py:117-118 | writing a path replaces a file of that name in place or adds a new file; the written file is present and every other file is unchanged |
| KnownFaces.WriteFileKeepsValid | biometric_verification_secure.py:117-118 | a write keeps names unique and every `.npy` file an array |
| KnownFaces.FirstMatchIndex | biometric_verification_secure.py:94-106 | the first `.npy` file of the listing within tolerance: it matches, no earlier file matches, and None means no file matches |
| KnownFaces.MatchKnownFaces | biometric_verification_secure.py:94-106 | the loop over the listing returns `(True, stem)` of the first matching file, or `(False, None)` when none matches |
| KnownFaces.FirstMatch | biometric_verification_secure.py:94-106 | None exactly when no file matches; otherwise the id is the stem of a matching file before which no file matches |
| KnownFaces.FirstMatchAfterNoMatch | biometric_verification_new.py:62-74 | when nothing in a listing matches, files added at its end alone decide the match |
| KnownFaces.FirstMatchLooser | biometric_verification_new.py:62-74 | a match under a strict tolerance implies a match under a looser one at a file no later in the listing |
| KnownFaces.GalleryAppend | biometric_verification_secure.py:96-97 | the `.npy` entries of two concatenated listings are those of each, in order |
| KnownFaces.FaceId | biometric_verification_secure.py:110-112 | the id is 16 characters of the digest, with no dot and no slash |
| KnownFaces.FaceIdRoundTrip | biometric_verification_secure.py:105-116 | matching reads the id back from the `{id}.npy` and `{id}.jpg` names; only the `.npy` one is matched |
| KnownFaces.FaceDirectory.constructor | biometric_verification_secure.py:11-12 | the directory starts with its existing valid listing |
| KnownFaces.FaceDirectory.Save | biometric_verification_secure.py:117-118 | one write changes the listing exactly as `WriteFile` says and keeps it valid |
| Responses.SuccessResponse | biometric_verification_secure.py:150-155 | success, with the id and the message |
| Responses.ErrorResponse | biometric_verification_secure.py:157-161 | failure with the message and no verification id |
| Responses.ExceptionResponse | biometric_verification_secure.py:50-51 | failure whose message is "Verification error: " followed by the exception text |
| Platform.RegisteredListing | biometric_verification_secure.py:115-118 | a raising np.save writes nothing; otherwise `{id}.npy` is present, `{id}.jpg` too when imwrite stores it, and the listing grows by at most two files |
| Platform.RegisteredListingValid | biometric_verification_secure.py:115-118 | the writes of a registration keep the directory listing valid |
| Platform.FreshRegistration | biometric_verification_secure.py:115-118 | a registration under an unused id with both writes succeeding adds `{id}.npy` and `{id}.jpg`; the gallery gains exactly `(id, encoding)` |
| Platform.RegisteredFaceIsMatched | biometric_verification_new.py:76-88 | after a registration under an unused id, a probe within tolerance of the new encoding that matched nothing before now matches the new id |
| VerificationDb.NewRecord | database.py:27-44 | the row carries the given id, paths and wallet, the clock as `created_at` and `is_active = 1`, and is a valid one-row table under its id |
| VerificationDb.AfterCreate | database.py:27-44 | a new id gains exactly its row; a duplicate violates the unique constraint and rolls back to the unchanged table; other rows are kept |
| VerificationDb.AfterDeactivate | database.py:55-71 | an existing row gets `is_active = 0` and keeps every other column; no row is added or removed; other rows are unchanged |
| VerificationDb.AfterCreateValid | database.py:9-18 | create keeps every row under its own id with `is_active` 0 or 1 |
| VerificationDb.AfterDeactivateValid | database.py:9-18 | deactivate keeps every row under its own id with `is_active` 0 or 1 |
| VerificationDb.DeactivateIdempotent | database.py:61-64 | deactivating twice is deactivating once |
| VerificationDb.Database.constructor | database.py:21-25 | the database opens with its existing rows |
| VerificationDb.Database.CreateVerification | database.py:27-44 | returns True exactly for an unused id, and the row is then active under that id with the given paths and wallet; otherwise False and the table is unchanged |
| VerificationDb.Database.GetVerification | database.py:46-53 | the row of the id exactly when it exists and is active |
| VerificationDb.Database.DeactivateVerification | database.py:55-71 | returns True exactly for an existing id; the row is then inactive and no longer found by get; a missing id returns False with the table unchanged |
| SecureVerification.CheckFaceQuality | biometric_verification_secure.py:53-66 | quality fails if the height or width is below 100; once both are at least 100, it holds exactly when focus is above 100 |
| SecureVerification.QualityBoundaries | biometric_verification_secure.py:14 | a 100 x 100 face passes the size check, a 99-pixel side fails it, and a focus of exactly 100 fails |
| SecureVerification.CheckLiveness | biometric_verification_secure.py:68-75 | liveness holds exactly when at least two eye regions are detected |
| SecureVerification.SecureGate | biometric_verification_secure.py:22-37 | a request that passes the gates has a decoded image, at least one face, acceptable quality of the first face, and liveness when requested; it proceeds with the first face |
| SecureVerification.GateOrder | biometric_verification_secure.py:22-37 | each gate message is given exactly when all earlier gates pass and that gate fails, in the order: invalid image data, no face, quality, liveness |
| SecureVerification.LivenessOnlyWhenRequested | biometric_verification_secure.py:36 | without a liveness request the eye count never changes the gate outcome |
| SecureVerification.VerifyFaceSpec | biometric_verification_secure.py:19-51 | every response carries an id exactly when it is a success; a failure leaves the table unchanged; a success is "Verified" or "New face registered" |
| SecureVerification.RejectedRequestChangesNothing | biometric_verification_secure.py:22-37 | a request the gates stop answers with that gate's message and leaves the directory and the table unchanged |
| SecureVerification.MatchedRequestChangesNothing | biometric_verification_secure.py:41-44 | a matched face answers "Verified" with the first matching id and changes nothing |
| SecureVerification.RegisteredRequest | biometric_verification_secure.py:46-48 | an unmatched face with unused id and successful writes answers with the new id; the gallery gains that id and encoding, and the table gains one active row with the same id and both paths |
| SecureVerification.WriteFaultAnswersException | biometric_verification_secure.py:46-51 | an unmatched face whose registration write raises answers "Verification error: " with the exception text and leaves the table unchanged; a raising np.save writes nothing, a raising imwrite leaves the `.npy` file |
| SecureVerification.SecondPresentationMatches | biometric_verification_secure.py:41-48 | presenting the registered image again answers "Verified" with the id the registration returned and changes nothing |
| SecureVerification.Rebound | biometric_verification_secure.py:133-142 | after a successful result with a non-empty wallet, only the wallet of the result's row changes (active or not); otherwise the table is unchanged |
| SecureVerification.ReboundAsWritten | biometric_verification_secure.py:137 | as written the rebind leaves the table unchanged on every input, since the name it uses is not bound in the module |
| SecureVerification.RebindAsWrittenNeverBinds | biometric_verification_secure.py:137 | for any successful result naming a stored row and any non-empty wallet, the rebind as written leaves the table unchanged (the NameError is caught and rolled back), while the intended rebind stores the wallet; the two differ whenever the row held another wallet |
| SecureVerification.DefinerFrom | biometric_verification_secure.py:132 | finds the first class of the MRO from a position on that defines a name, or proves none does |
| SecureVerification.SuperLookup | biometric_verification_secure.py:132 | `super().name` resolves to the first later class of the MRO defining it; None means none does |
| SecureVerification.SuperVerifyFaceUnresolved | biometric_verification_secure.py:9 | with no base class, `super().verify_face` finds nothing (AttributeError) |
| SecureVerification.SecureVerifier.constructor | biometric_verification_secure.py:10-17 | the verifier is built over a valid directory and database |
| SecureVerification.SecureVerifier.RegisterNewFace | biometric_verification_secure.py:108-128 | writes `{id}.npy` then `{id}.jpg` as `RegisteredListing` says and then the row; a raising write stops it with that exception; the id is returned |
| SecureVerification.SecureVerifier.VerifyFace | biometric_verification_secure.py:19-51 | the response and the new directory and table are those of `VerifyFaceSpec` |
| SecureVerification.SecureVerifier.RebindWallet | biometric_verification_secure.py:133-142 | the table becomes `Rebound` of the old table |
| SecureVerification.SecureVerifier.VerifyFaceWithWallet | biometric_verification_secure.py:130-148 | returns the pipeline's response, leaves its directory, and rebinds the wallet on its table |
| BasicVerification.ExtractFaceEncoding | biometric_verification_new.py:55-60 | None exactly when no face is found, otherwise the encoding of the first face |
| BasicVerification.AfterEncoding | biometric_verification_new.py:29-36 | every response is well formed; it succeeds exactly when a file matches or the writes do not raise; a match writes nothing; a success is "Face verified" or "New face registered" |
| BasicVerification.BasicVerifyFaceSpec | biometric_verification_new.py:15-39 | undecodable data answers "Invalid image data" and no face answers "No face detected", both writing nothing |
| BasicVerification.BasicMatched | biometric_verification_new.py:29-32 | a matched face answers "Face verified" with the stem of the first matching file and leaves the directory unchanged |
| BasicVerification.BasicRegistered | biometric_verification_new.py:34-36 | an unmatched face with unused id and both writes succeeding answers "New face registered" with the new id, and exactly `{id}.npy` and `{id}.jpg` join the directory |
| BasicVerification.BasicWriteFault | biometric_verification_new.py:34-39 | an unmatched face whose registration write raises answers "Verification error: " with the exception text, the directory holding what was written before the exception |
| BasicVerification.BasicAcceptsAnyFace | biometric_verification_new.py:15-39 | with no quality or liveness gate, every decodable image with a face succeeds when the writes do not raise |
| BasicVerification.BasicSecondPresentationMatches | biometric_verification_new.py:29-36 | presenting the registered image again answers "Face verified" with the registered id and changes nothing |
| BasicVerification.StricterToleranceMatchesHere | biometric_verification_new.py:13 | what tolerance 0.5 matches, tolerance 0.6 matches too, at a file no later in the listing |
| BasicVerification.PyNot | biometric_verification_new.py:25 | `not v` is True for None, and raises ValueError for an array of more than one element |
| BasicVerification.BasicVerifyFaceAsWritten | biometric_verification_new.py:15-39 | every response is well formed |
| BasicVerification.AsWrittenNeverSucceeds | biometric_verification_new.py:25 | as written, no request succeeds or writes a file, and every image with a face gets numpy's ambiguity error |
| BasicVerification.AsWrittenDiffersOnEveryFace | biometric_verification_new.py:25 | on an image with a face and successful writes, the corrected pipeline succeeds and the one as written fails |
| BasicVerification.BasicVerifier.constructor | biometric_verification_new.py:10-13 | the verifier is built over a valid directory |
| BasicVerification.BasicVerifier.RegisterNewFace | biometric_verification_new.py:76-88 | writes `{id}.npy` then `{id}.jpg` as `RegisteredListing` says and returns the id, or the exception a write raises |
| BasicVerification.BasicVerifier.VerifyFace | biometric_verification_new.py:15-39 | the response and the new directory are those of `BasicVerifyFaceSpec` |
| Voting.StripHexPrefix | voting.py:39 | drops exactly a leading "0x" or "0X" |
| Voting.IsAddress | voting.py:39 | a valid address is a hex address; a hex address that does not mix letter cases is valid; a mixed-case one is valid exactly when its checksum holds |
| Voting.AddressWithoutChecksum | voting.py:39 | an address that does not mix letter cases is valid exactly when it is 40 hex digits after an optional prefix, whatever the checksum says |
| Voting.AddressShape | voting.py:141 | a valid address has 40 or 42 characters and hex digits after the prefix |
| Voting.HexValue | voting.py:150 | a hex digit has a value below 16, and the digit written for that value is the digit itself or its lower-case form |
| Voting.HexChar | voting.py:150 | the digit written for a value is a lower-case hex digit, never 'x' |
| Voting.HexValueOfHexChar | voting.py:150 | reading back the digit written for a value gives the value |
| Voting.HexValueIgnoresCase | voting.py:150 | an upper-case digit has the value of its lower-case form |
| Voting.Unhexlify | voting.py:150 | unhexlify succeeds exactly on hexadecimal text, giving half as many bytes |
| Voting.ToHex | voting.py:150 | the hex form has two hex digits per byte |
| Voting.UnhexlifyToHex | voting.py:150 | unhexlify reverses the hex form of any bytes |
| Voting.PaddedHex | voting.py:150 | the padded string has even length and is hexadecimal exactly when the unprefixed one is |
| Voting.HexToBytes | voting.py:150 | the conversion succeeds exactly when the text after the prefix is hexadecimal, giving half its length rounded up in bytes; otherwise it raises the non-hexadecimal error |
| Voting.StripHexText | voting.py:150 | hexadecimal text has no prefix to strip; "0x" + text strips to the text |
| Voting.HexToBytesRoundTrip | voting.py:150 | the hex form of any bytes, with or without "0x", converts back to those bytes |
| Voting.OddLengthIsPadded | voting.py:150 | an odd number of digits is read with a leading 0: "abc" and "0xabc" give 0x0a 0xbc |
| Voting.BuildTransaction | voting.py:46-51 | the transaction goes to the contract from the given sender with the given call, gas 200000, the node's gas price and chain id, and the sender's transaction count as nonce |
| Voting.CastVote | voting.py:33-65 | an invalid address answers 'Invalid voter address format' with no transaction; otherwise an id outside `uint256` answers web3's refusal text; otherwise a fault answers its text; otherwise a `castVote(candidate_id)` transaction goes from the voter to the contract with gas 200000, the node's gas price and the voter's transaction count as nonce |
| Voting.CastVoteIgnoresVoterState | voting.py:33-65 | the voter's registration and has-voted state never change what cast_vote answers |
| Voting.RegisterVoter | voting.py:135-168 | unless both addresses are valid it answers 'Invalid address format'; it succeeds exactly when the hash is hexadecimal and there is no fault, and a fault after a good hash answers the fault's text; the transaction goes from the admin to the contract with gas 200000, the node's gas price and the admin's count as nonce, calling `registerVoter(voter, bytes of the hash)` |
| Voting.RegisterVoterCarriesDigest | voting.py:148-156 | the bytes in the transaction are exactly the digest whose hex form, with or without "0x", was passed |
| Voting.RegisterVoterRefusesNonHex | voting.py:150 | a hash with a non-hex character is refused with the conversion's error |
| Voting.GetCandidates | voting.py:67-93 | a fault or a reverted lookup answers the error; otherwise the list has `getCandidateCount()` entries and entry i has id i with candidate i's name and vote count |
| Voting.VerifyVoter | voting.py:95-113 | reports `is_registered = voter[0]` and `has_voted = voter[1]`, or the fault's text |
| Voting.GetVoteCount | voting.py:115-133 | an id outside `uint256` answers web3's refusal text, then a fault its text; otherwise it succeeds exactly for a listed id, with that candidate's name and count, and an unknown id reverts |
| Voting.VoteCountAgreesWithListing | voting.py:72-81 | get_vote_count of a listed id agrees with that id's entry in get_candidates |

## Left out

- Image decoding, face detection, face encodings, the Laplacian focus variance and the eye cascade are foreign computations (OpenCV, face_recognition). An image is the values those calls return for it; base64 and image decoding are oracle functions. Floating-point effects are not modelled; encodings are vectors of reals.
- An exception inside face detection or encoding, and a corrupt `.npy` file making `np.load` raise, are not modelled. A valid listing holds an array in every `.npy` file.
- The order `os.listdir` gives is left to the listing: a new file joins at its end and a rewritten file keeps its place.
- cv2.imwrite's lossy re-encoding of the reference image is not modelled; the stored image is the decoded one.
- The sha256 digest of the clock and the clock itself are inputs (`Env`): a new id is not guaranteed fresh. Freshness is a precondition of the lemmas that need it, and a collision overwrites the files of the earlier id, as the source would.
- Database errors other than a duplicate `verification_id` (the connection, disk, the length limits of the `String` columns) are not modelled, and neither is the surrogate integer primary key.
- The SQLAlchemy session of the rebind is reduced to its net effect: a commit or a rollback.
- `VotingContract.__init__` (the HTTP provider, `contract_abi.json`, `Config`) is not modelled: a `Ledger` value stands for the node and the contract.
- `contract_abi.json` is not part of this model: `castVote` and `getCandidate` are taken to take a `uint256`, so an id below 0 or at least 2^256 is refused by web3 before any call, with the text given by the `argumentError` input. web3's other validation of arguments, ABI encoding of the call data and the exact text of its other exceptions are folded into the `fault` input. The EIP-55 checksum test is an oracle.
- Voting.HexToBytes: a non-ASCII character is reported with binascii's non-hexadecimal message, although Python raises a different encoding error first.
- Nothing is signed or sent, as in the source; the contract's own state changes (a vote counted, a voter registered) are not modelled.
- Concurrency: two requests interleaving between matching and registration are not modelled; every operation is one sequential step.
- PyNot: numpy's deprecation warning on the truth value of an empty array is not modelled.
- The logging calls and the `print` of database errors are not modelled.
- biometric_verification.py, app_template.py, the static scripts and the tests are not part of this model.

## Findings

| source | as written | input that shows it | evidently intended | confidence | as-written member | corrected member |
|---|---|---|---|---|---|---|
| biometric_verification_new.py:25 | `if not face_encoding:` tests a 128-element array for truth, which raises ValueError | any image with a detected face: the answer is "Verification error: The truth value of an array with more than one element is ambiguous. Use a.any() or a.all()" | `if face_encoding is None:` | not executed | BasicVerification.AsWrittenNeverSucceeds | BasicVerification.BasicVerifyFaceSpec |
| biometric_verification_secure.py:132 | `super().verify_face(...)` in a class with no base class (line 9); the later definition replaces the earlier one | any call of `verify_face`: AttributeError, raised outside any try | run the pipeline of lines 19-51, then rebind the wallet | not executed | SecureVerification.SuperVerifyFaceUnresolved | SecureVerification.SecureVerifier.VerifyFaceWithWallet |
| biometric_verification_secure.py:137 | `VerificationRecord` is never imported into the module | a successful result with wallet "0xabc": NameError, caught at lines 143-145, so the wallet is never stored | import `VerificationRecord` from database and store the wallet on the row | not executed | SecureVerification.RebindAsWrittenNeverBinds | SecureVerification.Rebound |
