/** The dictionaries both verifiers return: `success`, `message`, and `verification_id` on success only. */
module Responses {
  import opened Base

  /** `{'success': ..., 'verification_id': ..., 'message': ...}`; `verificationId` is None when the key is absent. */
  datatype Response = Response(success: bool, verificationId: Option<string>, message: string)

  /** A success response carries a verification id and an error response never does. */
  predicate WellFormed(r: Response)
  {
    r.success <==> r.verificationId.Some?
  }

  /** `_success_response(verification_id, message)`. */
  function SuccessResponse(id: string, message: string): (r: Response)
    ensures WellFormed(r) && r.success
    ensures r.verificationId == Some(id) && r.message == message
  {
    Response(true, Some(id), message)
  }

  /** `_error_response(message)`: no `verification_id` key. */
  function ErrorResponse(message: string): (r: Response)
    ensures WellFormed(r) && !r.success
    ensures r.verificationId == None && r.message == message
  {
    Response(false, None, message)
  }

  const VerificationErrorPrefix := "Verification error: "

  /** The handler around the whole pipeline: `_error_response(f"Verification error: {str(e)}")`. */
  function ExceptionResponse(detail: string): (r: Response)
    ensures WellFormed(r) && !r.success
    ensures |VerificationErrorPrefix| <= |r.message|
    ensures r.message[..|VerificationErrorPrefix|] == VerificationErrorPrefix
    ensures r.message[|VerificationErrorPrefix|..] == detail
  {
    ErrorResponse(VerificationErrorPrefix + detail)
  }
}
