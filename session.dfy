/**
 * The resizer session (script.js): the uploaded file kept in
 * `originalImageFile`, the checks on user input, the download name, and the
 * two buttons that start a resize.  DOM updates are reduced to the values they
 * would display.
 */
module Session {
  import opened Wrappers
  import Text
  import opened DataUrl
  import opened Resize

  /** The `File` fields the resizer reads. */
  datatype File = File(name: string, mimeType: string)

  /** What `displayResult` shows: the image and link target, the size, the dimensions and the download name. */
  datatype ResultView = ResultView(dataUrl: string, blob: Blob, width: int, height: int, downloadName: string)

  /** The outcome of a button press. */
  datatype Outcome =
    | InvalidDimensions           // the alert on non-positive dimensions; nothing is encoded
    | EncodeFailed(error: BlobError)
    | Displayed(view: ResultView)

  /** `file.type.startsWith('image/')`. */
  predicate IsImageType(mimeType: string)
  {
    Text.StartsWith(mimeType, "image/")
  }

  /** `x <= 0` in JavaScript: false for NaN. */
  predicate AtMostZero(x: ParsedInt)
  {
    x.Int? && x.value <= 0
  }

  /** The negation of `!width || !height || width <= 0 || height <= 0`: both dimensions are accepted. */
  function DimensionsOk(width: ParsedInt, height: ParsedInt): (ok: bool)
    ensures ok <==> width.Int? && height.Int? && width.value > 0 && height.value > 0
  {
    !(!NumberTruthy(width) || !NumberTruthy(height) || AtMostZero(width) || AtMostZero(height))
  }

  /** `originalImageFile.name.split('.').pop()`. */
  function Extension(name: string): string
  {
    Text.LastPiece(name, '.')
  }

  function Digit(d: nat): (c: char)
    requires d < 10
    ensures '0' <= c <= '9' && c as int - '0' as int == d
  {
    ('0' as int + d) as char
  }

  /** The decimal text of a non-negative integer, as a template literal writes `Date.now()`. */
  function DecimalString(n: nat): (s: string)
    ensures |s| >= 1 && forall i :: 0 <= i < |s| ==> '0' <= s[i] <= '9'
    ensures s[0] == '0' ==> n == 0
    ensures |s| > 1 ==> s[0] != '0'
  {
    if n < 10 then [Digit(n)] else DecimalString(n / 10) + [Digit(n % 10)]
  }

  /** The number a string of decimal digits denotes. */
  function DecimalValue(s: string): nat
    requires forall i :: 0 <= i < |s| ==> '0' <= s[i] <= '9'
  {
    if s == [] then 0 else DecimalValue(s[..|s| - 1]) * 10 + (s[|s| - 1] as int - '0' as int)
  }

  /** The timestamp text reads back as the timestamp. */
  lemma {:induction false} DecimalRoundTrip(n: nat)
    ensures DecimalValue(DecimalString(n)) == n
  {
    var s := DecimalString(n);
    if n >= 10 {
      DecimalRoundTrip(n / 10);
      assert s[..|s| - 1] == DecimalString(n / 10);
    }
  }

  /** `resized-${Date.now()}.${fileExtension}`, with the clock reading `now` as a parameter. */
  function DownloadName(originalName: string, now: nat): (r: string)
    ensures |r| > 9 && r[..8] == "resized-" && '0' <= r[8] <= '9'
  {
    "resized-" + DecimalString(now) + "." + Extension(originalName)
  }

  /** A name without a '.' is its own extension. */
  lemma ExtensionOfUndottedName(name: string)
    requires '.' !in name
    ensures Extension(name) == name
  {
    Text.LastPieceWithoutSep(name, '.');
  }

  /** Otherwise the extension is exactly the text after the last '.'. */
  lemma ExtensionAfterLastDot(name: string, i: nat)
    requires i < |name| && name[i] == '.' && '.' !in name[i + 1..]
    ensures Extension(name) == name[i + 1..]
  {
    Text.LastPieceAfterLastSep(name, '.', i);
  }

  /**
   * The download name ends in the original file's extension: the extension of
   * the generated name is the extension of the original one (whatever format
   * the result was actually encoded in).
   */
  lemma DownloadNameKeepsExtension(originalName: string, now: nat)
    ensures Extension(DownloadName(originalName, now)) == Extension(originalName)
  {
    var ext := Extension(originalName);
    var stem := "resized-" + DecimalString(now);
    var full := DownloadName(originalName, now);
    assert full == stem + "." + ext;
    var i := |stem|;
    assert full[i] == '.';
    assert full[i + 1..] == ext;
    assert '.' !in ext by {
      var parts := Text.Split(originalName, '.');
      assert ext == parts[|parts| - 1];
    }
    ExtensionAfterLastDot(full, i);
  }

  /** `displayResult(dataUrl, blob, width, height)` for the file `original` at time `now`. */
  function Display(resized: Resized, width: int, height: int, original: File, now: nat): (v: ResultView)
    ensures Extension(v.downloadName) == Extension(original.name)
  {
    DownloadNameKeepsExtension(original.name, now);
    ResultView(resized.dataUrl, resized.blob, width, height, DownloadName(original.name, now))
  }

  function OutcomeOf(r: Result<Resized, BlobError>, width: int, height: int, original: File, now: nat): (o: Outcome)
    ensures o.Displayed? <==> r.Success?
    ensures o.Displayed? ==> o.view.dataUrl == r.value.dataUrl && o.view.blob == r.value.blob
                             && o.view.width == width && o.view.height == height
    ensures r.Failure? ==> o == EncodeFailed(r.error)
  {
    match r
    case Success(resized) => Displayed(Display(resized, width, height, original, now))
    case Failure(e) => EncodeFailed(e)
  }

  /** The page's session state: the file last accepted by `handleFile`. */
  class Resizer {
    var originalImageFile: Option<File>

    constructor ()
      ensures originalImageFile == None
    {
      originalImageFile := None;
    }

    /**
     * `handleFile(file)`: a file whose type does not start with "image/" is
     * turned away and the session keeps its previous file; any other file
     * becomes the session's file.
     */
    method HandleFile(file: File) returns (accepted: bool)
      modifies this
      ensures accepted <==> |file.mimeType| >= 6 && file.mimeType[..6] == "image/"
      ensures originalImageFile == if accepted then Some(file) else old(originalImageFile)
    {
      if !IsImageType(file.mimeType) {
        return false;
      }
      originalImageFile := Some(file);
      accepted := true;
    }

    /**
     * The "Resize by Dimensions" button: reject unless both parsed values are
     * positive integers, otherwise encode once at those dimensions in the
     * original file's type and display the result.
     */
    method ResizeByDimensions(encode: Encoder, atob: Base64Decoder,
                              widthInput: ParsedInt, heightInput: ParsedInt, now: nat)
      returns (outcome: Outcome, requests: seq<EncodeRequest>)
      requires originalImageFile.Some?
      ensures !(widthInput.Int? && heightInput.Int? && widthInput.value > 0 && heightInput.value > 0) ==>
        outcome == InvalidDimensions && requests == []
      ensures widthInput.Int? && heightInput.Int? && widthInput.value > 0 && heightInput.value > 0 ==>
        var canvas := Canvas(widthInput.value, heightInput.value);
        var file := originalImageFile.value;
        && requests == [EncodeRequest(canvas, file.mimeType, None)]
        && outcome == OutcomeOf(Package(encode, atob, requests[0]), canvas.width, canvas.height, file, now)
    {
      if !DimensionsOk(widthInput, heightInput) {
        return InvalidDimensions, [];
      }
      var width, height := widthInput.value, heightInput.value;
      var r;
      r, requests := ResizeImage(encode, atob, originalImageFile.value.mimeType, width, height, None);
      outcome := OutcomeOf(r, width, height, originalImageFile.value, now);
    }

    /**
     * A target-size button: resize at the loaded image's own dimensions with
     * the target as parsed from the button.  The displayed dimensions are the
     * image's, and the download name keeps the original extension even though
     * the search encodes JPEG.  A target that parses to NaN or 0 falls through
     * to the single encode in the original type.
     */
    method ResizeToTarget(encode: Encoder, atob: Base64Decoder,
                          imageWidth: int, imageHeight: int, targetInput: ParsedInt, now: nat)
      returns (outcome: Outcome, requests: seq<EncodeRequest>)
      requires originalImageFile.Some?
      ensures 1 <= |requests| <= MaxEncodes
      ensures forall k :: 0 <= k < |requests| ==> requests[k].canvas == Canvas(imageWidth, imageHeight)
      ensures outcome.Displayed? ==>
        && outcome.view.width == imageWidth && outcome.view.height == imageHeight
        && outcome.view.downloadName == DownloadName(originalImageFile.value.name, now)
      ensures outcome == OutcomeOf(Package(encode, atob, requests[|requests| - 1]),
                                   imageWidth, imageHeight, originalImageFile.value, now)
      ensures NumberTruthy(targetInput) ==>
        && (forall k :: 0 <= k < |requests| ==> requests[k] == SearchRequest(Canvas(imageWidth, imageHeight), k))
        && (forall k :: 0 <= k < |requests| - 1 ==> TooLarge(encode, atob, targetInput.value, requests[k]))
        && (outcome.Displayed? && !Fits(outcome.view.blob, targetInput.value) ==> |requests| == MaxEncodes)
        && |requests| == SettleIndex(encode, atob, Canvas(imageWidth, imageHeight), targetInput.value, 0) + 1
      ensures !NumberTruthy(targetInput) ==>
        requests == [EncodeRequest(Canvas(imageWidth, imageHeight), originalImageFile.value.mimeType, None)]
    {
      var newWidth, newHeight := imageWidth, imageHeight;
      var r;
      r, requests := ResizeImage(encode, atob, originalImageFile.value.mimeType,
                                 newWidth, newHeight, Some(targetInput));
      outcome := OutcomeOf(r, newWidth, newHeight, originalImageFile.value, now);
    }
  }
}
