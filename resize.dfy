/**
 * `resizeImage` (script.js): draw the image on a canvas of the requested
 * width and height, then either search for a JPEG quality that fits a target
 * size (`findBestQuality`) or encode once in the original file's type.
 *
 * The canvas encoder (`canvas.toDataURL`) is foreign: it enters as a function
 * from an encode request to the data URL it returns.  Qualities are integer
 * hundredths (90 stands for 0.9).  The search's self-rescheduling through
 * `requestAnimationFrame` is an ordinary loop.
 */
module Resize {
  import opened Wrappers
  import opened DataUrl

  /** An encoder quality in hundredths. */
  type Quality = q: int | 0 <= q <= 100

  /** The canvas everything is encoded from, drawn at `width` x `height`. */
  datatype Canvas = Canvas(width: int, height: int)

  /** One call `canvas.toDataURL(mimeType, quality)`; `quality` is absent on the dimension path. */
  datatype EncodeRequest = EncodeRequest(canvas: Canvas, mimeType: string, quality: Option<Quality>)

  /** `canvas.toDataURL`: the data URL the browser returns for a request. */
  type Encoder = EncodeRequest -> string

  /** The `{ dataUrl, blob }` a resize resolves with. */
  datatype Resized = Resized(dataUrl: string, blob: Blob)

  /** The result of `parseInt`: an integer or NaN. */
  datatype ParsedInt = NaN | Int(value: int)

  const SearchFormat := "image/jpeg"
  const StartQuality: Quality := 90
  const QualityStep := 5
  const QualityFloor: Quality := 10
  /** Qualities 90, 85, ..., 10: the most the search can encode. */
  const MaxEncodes := 17

  /** JavaScript truthiness of a parsed number: NaN and 0 are false. */
  predicate NumberTruthy(x: ParsedInt)
  {
    x.Int? && x.value != 0
  }

  /** JavaScript truthiness of `targetSizeKB`: undefined is false too. */
  predicate Truthy(target: Option<ParsedInt>)
  {
    target.Some? && NumberTruthy(target.value)
  }

  /** `blob.size / 1024 <= targetSizeKB`, multiplied out; exact because the target is an integer. */
  predicate Fits(blob: Blob, targetKB: int)
  {
    blob.Size() <= targetKB * 1024
  }

  /** The search's k-th encode request (k = 0 is the first). */
  function SearchRequest(canvas: Canvas, k: nat): EncodeRequest
    requires k < MaxEncodes
  {
    EncodeRequest(canvas, SearchFormat, Some(StartQuality - QualityStep * k))
  }

  /** Encode once and convert: `dataUrl = canvas.toDataURL(...); blob = dataURLtoBlob(dataUrl)`. */
  function Package(encode: Encoder, atob: Base64Decoder, req: EncodeRequest): (r: Result<Resized, BlobError>)
    ensures r.Success? <==> ToBlob(encode(req), atob).Success?
    ensures r.Success? ==> r.value.dataUrl == encode(req) && ToBlob(r.value.dataUrl, atob) == Success(r.value.blob)
    ensures r.Failure? ==> ToBlob(encode(req), atob) == Failure(r.error)
  {
    var url := encode(req);
    match ToBlob(url, atob)
    case Success(blob) => Success(Resized(url, blob))
    case Failure(e) => Failure(e)
  }

  /** The encode for `req` converted and was over the target. */
  predicate TooLarge(encode: Encoder, atob: Base64Decoder, targetKB: int, req: EncodeRequest)
  {
    var r := Package(encode, atob, req);
    r.Success? && !Fits(r.value.blob, targetKB)
  }

  /** The index of the encode the search settles on, looking from the k-th: the first not over the target, or the floor. */
  function SettleIndex(encode: Encoder, atob: Base64Decoder, canvas: Canvas, targetKB: int, k: nat): (n: nat)
    requires k < MaxEncodes
    ensures k <= n < MaxEncodes
    ensures forall m :: k <= m < n ==> TooLarge(encode, atob, targetKB, SearchRequest(canvas, m))
    ensures n < MaxEncodes - 1 ==> !TooLarge(encode, atob, targetKB, SearchRequest(canvas, n))
    decreases MaxEncodes - k
  {
    if k == MaxEncodes - 1 || !TooLarge(encode, atob, targetKB, SearchRequest(canvas, k)) then k
    else SettleIndex(encode, atob, canvas, targetKB, k + 1)
  }

  /**
   * `findBestQuality`: encode at 0.9, 0.85, ... until a result fits the target
   * or the quality reaches 0.1.  `requests` lists every encode made, in order;
   * the result is the conversion of the last one.  A failing conversion ends
   * the search with its error.
   */
  method FindBestQuality(encode: Encoder, atob: Base64Decoder, canvas: Canvas, targetKB: int)
    returns (r: Result<Resized, BlobError>, requests: seq<EncodeRequest>)
    ensures 1 <= |requests| <= MaxEncodes
    ensures forall k :: 0 <= k < |requests| ==> requests[k] == SearchRequest(canvas, k)
    ensures forall k :: 0 <= k < |requests| - 1 ==> TooLarge(encode, atob, targetKB, requests[k])
    ensures r == Package(encode, atob, requests[|requests| - 1])
    ensures r.Success? && !Fits(r.value.blob, targetKB) ==> |requests| == MaxEncodes
    ensures !TooLarge(encode, atob, targetKB, SearchRequest(canvas, 0)) ==> |requests| == 1
    ensures |requests| == SettleIndex(encode, atob, canvas, targetKB, 0) + 1
  {
    var quality: Quality := StartQuality;
    var dataUrl := encode(SearchRequest(canvas, 0));
    var blob := DataUrlToBlob(dataUrl, atob);
    requests := [SearchRequest(canvas, 0)];
    while true
      invariant 1 <= |requests| <= MaxEncodes
      invariant quality == StartQuality - QualityStep * (|requests| - 1)
      invariant forall k :: 0 <= k < |requests| ==> requests[k] == SearchRequest(canvas, k)
      invariant forall k :: 0 <= k < |requests| - 1 ==> TooLarge(encode, atob, targetKB, requests[k])
      invariant dataUrl == encode(requests[|requests| - 1])
      invariant blob == ToBlob(dataUrl, atob)
      decreases quality
    {
      if blob.Failure? {
        return Failure(blob.error), requests;
      }
      if Fits(blob.value, targetKB) || quality <= QualityFloor {
        return Success(Resized(dataUrl, blob.value)), requests;
      }
      quality := quality - QualityStep;
      var next := SearchRequest(canvas, |requests|);
      dataUrl := encode(next);
      blob := DataUrlToBlob(dataUrl, atob);
      requests := requests + [next];
    }
  }

  /**
   * `resizeImage(img, width, height, targetSizeKB)`: with a truthy target the
   * quality search in JPEG, otherwise one encode in `originalType` without a
   * quality.  Every encode is of the canvas drawn at `width` x `height`.
   */
  method ResizeImage(encode: Encoder, atob: Base64Decoder, originalType: string,
                     width: int, height: int, targetKB: Option<ParsedInt>)
    returns (r: Result<Resized, BlobError>, requests: seq<EncodeRequest>)
    ensures 1 <= |requests| <= MaxEncodes
    ensures forall k :: 0 <= k < |requests| ==> requests[k].canvas == Canvas(width, height)
    ensures r == Package(encode, atob, requests[|requests| - 1])
    ensures !Truthy(targetKB) ==> requests == [EncodeRequest(Canvas(width, height), originalType, None)]
    ensures Truthy(targetKB) ==>
      && (forall k :: 0 <= k < |requests| ==> requests[k] == SearchRequest(Canvas(width, height), k))
      && (forall k :: 0 <= k < |requests| - 1 ==> TooLarge(encode, atob, targetKB.value.value, requests[k]))
      && (r.Success? && !Fits(r.value.blob, targetKB.value.value) ==> |requests| == MaxEncodes)
      && |requests| == SettleIndex(encode, atob, Canvas(width, height), targetKB.value.value, 0) + 1
  {
    var canvas := Canvas(width, height);
    if Truthy(targetKB) {
      r, requests := FindBestQuality(encode, atob, canvas, targetKB.value.value);
    } else {
      var req := EncodeRequest(canvas, originalType, None);
      var dataUrl := encode(req);
      var blob := DataUrlToBlob(dataUrl, atob);
      requests := [req];
      r := match blob
        case Success(b) => Success(Resized(dataUrl, b))
        case Failure(e) => Failure(e);
    }
  }
}
