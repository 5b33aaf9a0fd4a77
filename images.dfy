/**
 * Images as the verifiers see them. Decoding, face detection, face encoding, the Laplacian
 * focus measure and the eye cascade are foreign computations (OpenCV, face_recognition): a
 * decoded image is modelled by the values those calls return for it, and decoding is a pair of
 * oracle functions.
 */
module Images {
  import opened Base

  /** Length of a face_recognition face encoding. */
  const EncodingLength := 128

  /** A face encoding: a vector of 128 reals (numpy float64, modelled as `real`). */
  type Encoding = e: seq<real> | |e| == EncodingLength witness seq(EncodingLength, _ => 0.0)

  /** A face location as face_recognition returns it: `(top, right, bottom, left)` in pixels. */
  datatype Box = Box(top: int, right: int, bottom: int, left: int)

  /** One detected face: its location and the encoding face_encodings computes for it. */
  datatype Face = Face(location: Box, encoding: Encoding)

  /** A decoded image, seen through the measurements the foreign calls take of it. */
  datatype Image = Image(
    faces: seq<Face>,   // face_locations(image), in detection order, each with its encoding
    focus: real,        // cv2.Laplacian(gray, cv2.CV_64F).var()
    eyeRegions: nat)    // len(eye cascade detectMultiScale(gray, 1.1, 4))

  /** What a caller hands to verify_face: a string (a data URL), a bytes-like buffer, or another object. */
  datatype ImageData = Text(text: string) | Buffer(bytes: seq<byte>) | NotABuffer

  /**
   * The foreign decoders: base64.b64decode (None where it raises) and
   * cv2.imdecode over np.frombuffer (None where it returns None or raises).
   */
  datatype Decoders = Decoders(
    b64decode: string -> Option<seq<byte>>,
    imdecode: seq<byte> -> Option<Image>)

  /** `header, encoded = s.split(",", 1)`: None where the unpacking raises (no comma). */
  function SplitFirstComma(s: string): (r: Option<(string, string)>)
    ensures r.None? <==> ',' !in s
    ensures r.Some? ==> s == r.value.0 + "," + r.value.1 && ',' !in r.value.0
  {
    if s == [] then None
    else if s[0] == ',' then Some(([], s[1..]))
    else match SplitFirstComma(s[1..])
      case None => None
      case Some((header, encoded)) => Some(([s[0]] + header, encoded))
  }

  /** Splitting a joined header and remainder gives them back, whatever commas the remainder holds. */
  lemma {:induction false} SplitFirstCommaOfJoin(header: string, rest: string)
    requires ',' !in header
    ensures SplitFirstComma(header + "," + rest) == Some((header, rest))
  {
    if header != [] {
      assert (header + "," + rest)[1..] == header[1..] + "," + rest;
      SplitFirstCommaOfJoin(header[1..], rest);
      assert [header[0]] + header[1..] == header;
    } else {
      assert (header + "," + rest)[1..] == rest;
    }
  }

  /** `_parse_image`: the decoded image, or None on any failure. */
  function ParseImage(data: ImageData, decoders: Decoders): (r: Option<Image>)
    ensures data.Buffer? ==> r == decoders.imdecode(data.bytes)
    ensures data.NotABuffer? ==> r.None?
    ensures data.Text? && ',' !in data.text ==> r.None?
    ensures data.Text? && r.Some? ==> exists b :: decoders.imdecode(b) == r
  {
    match data
    case Text(s) =>
      (match SplitFirstComma(s)
       case None => None
       case Some((_, encoded)) =>
         match decoders.b64decode(encoded)
         case None => None
         case Some(bytes) => decoders.imdecode(bytes))
    case Buffer(bytes) => decoders.imdecode(bytes)
    case NotABuffer => None
  }

  /**
   * A data URL `header,rest` is decoded from `rest` alone: the header is never looked at, and
   * only the part after the first comma reaches base64.
   */
  lemma ParseDataUrl(header: string, rest: string, decoders: Decoders)
    requires ',' !in header
    ensures ParseImage(Text(header + "," + rest), decoders)
         == (match decoders.b64decode(rest)
             case None => None
             case Some(bytes) => decoders.imdecode(bytes))
  {
    SplitFirstCommaOfJoin(header, rest);
  }

  /** A string with no comma never decodes; a non-buffer object never decodes. */
  lemma ParseFailures(s: string, decoders: Decoders)
    ensures ',' !in s ==> ParseImage(Text(s), decoders) == None
    ensures ParseImage(NotABuffer, decoders) == None
  {
  }
}
