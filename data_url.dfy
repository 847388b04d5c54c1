/**
 * `dataURLtoBlob` (script.js): split a data URL at its commas, take the MIME
 * type from the header with the pattern `/:(.*?);/`, base64-decode the payload
 * with `atob`, and copy the decoded character codes into a byte array from the
 * back.  `atob` itself is a foreign decoder and enters as a parameter.
 */
module DataUrl {
  import opened Wrappers
  import Text

  /** One entry of a `Uint8Array`; `atob` only produces character codes in this range. */
  type Byte = x: int | 0 <= x < 256

  /** `atob`: the decoded character codes, or None where it throws `InvalidCharacterError`. */
  type Base64Decoder = string -> Option<seq<Byte>>

  /** `new Blob([u8arr], { type: mime })`, which copies the bytes. */
  datatype Blob = Blob(bytes: seq<Byte>, mimeType: string)
  {
    /** `blob.size`, in bytes. */
    function Size(): nat { |bytes| }
  }

  datatype BlobError =
    | NoMimeType      // the header does not match `/:(.*?);/`, so `[1]` of null throws
    | InvalidBase64   // `atob` throws

  /** The characters the regular-expression `.` does not match. */
  predicate LineTerminator(c: char)
  {
    c == '\n' || c == '\r' || c == '\U{2028}' || c == '\U{2029}'
  }

  predicate NoLineTerminators(s: string)
  {
    forall k :: 0 <= k < |s| ==> !LineTerminator(s[k])
  }

  /** The lazy `(.*?);` started at `k`: the first `;` at or after `k`, unless a line terminator comes first. */
  function LazyEnd(h: string, k: nat): (j: Option<nat>)
    requires k <= |h|
    ensures j.Some? ==> k <= j.value < |h| && h[j.value] == ';' && ';' !in h[k..j.value]
    ensures j.Some? ==> NoLineTerminators(h[k..j.value])
    decreases |h| - k
  {
    if k == |h| then None
    else if h[k] == ';' then Some(k)
    else if LineTerminator(h[k]) then None
    else LazyEnd(h, k + 1)
  }

  /** The leftmost match of `/:(.*?);/` starting at or after `i`, as its captured group. */
  function MatchFrom(h: string, i: nat): (m: Option<string>)
    requires i <= |h|
    ensures m.Some? ==> ';' !in m.value && NoLineTerminators(m.value)
    decreases |h| - i
  {
    if i == |h| then None
    else if h[i] == ':' then
      match LazyEnd(h, i + 1)
      case Some(j) => Some(h[i + 1..j])
      case None => MatchFrom(h, i + 1)
    else MatchFrom(h, i + 1)
  }

  /** `header.match(/:(.*?);/)[1]`, or None where the match is null. */
  function MimeOf(header: string): (m: Option<string>)
    ensures m.Some? ==> ';' !in m.value && NoLineTerminators(m.value)
  {
    MatchFrom(header, 0)
  }

  /** `arr[0]` of `dataurl.split(',')`. */
  function Header(url: string): string
  {
    Text.Split(url, ',')[0]
  }

  /** `arr[1]` of `dataurl.split(',')`; without a comma it is `undefined`, which `atob` reads as the text "undefined". */
  function Payload(url: string): string
  {
    var parts := Text.Split(url, ',');
    if |parts| > 1 then parts[1] else "undefined"
  }

  /** What `dataURLtoBlob(url)` returns, or the error it throws. */
  function ToBlob(url: string, atob: Base64Decoder): (r: Result<Blob, BlobError>)
    ensures r.Success? <==> MimeOf(Header(url)).Some? && atob(Payload(url)).Some?
    ensures MimeOf(Header(url)).None? ==> r == Failure(NoMimeType)
    ensures MimeOf(Header(url)).Some? && atob(Payload(url)).None? ==> r == Failure(InvalidBase64)
    ensures r.Success? ==> Some(r.value.mimeType) == MimeOf(Header(url)) && Some(r.value.bytes) == atob(Payload(url))
    ensures r.Success? ==> ';' !in r.value.mimeType
  {
    match MimeOf(Header(url))
    case None => Failure(NoMimeType)
    case Some(mime) =>
      match atob(Payload(url))
      case None => Failure(InvalidBase64)
      case Some(codes) => Success(Blob(codes, mime))
  }

  /**
   * `const u8arr = new Uint8Array(n); while (n--) { u8arr[n] = bstr.charCodeAt(n); }`:
   * every entry of the fresh array holds the code at the same position.
   */
  method CopyCodes(codes: seq<Byte>) returns (u8: array<Byte>)
    ensures u8.Length == |codes|
    ensures forall i :: 0 <= i < |codes| ==> u8[i] == codes[i]
  {
    var n := |codes|;
    u8 := new Byte[n];
    while n != 0
      invariant 0 <= n <= |codes| == u8.Length
      invariant forall i :: n <= i < |codes| ==> u8[i] == codes[i]
    {
      n := n - 1;
      u8[n] := codes[n];
    }
  }

  /** `dataURLtoBlob`: the blob the data URL denotes, built through the array copy. */
  method DataUrlToBlob(url: string, atob: Base64Decoder) returns (r: Result<Blob, BlobError>)
    ensures r == ToBlob(url, atob)
  {
    var mime := MimeOf(Header(url));
    if mime.None? {
      return Failure(NoMimeType);
    }
    var bstr := atob(Payload(url));
    if bstr.None? {
      return Failure(InvalidBase64);
    }
    var u8arr := CopyCodes(bstr.value);
    assert u8arr[..] == bstr.value;
    r := Success(Blob(u8arr[..], mime.value));
  }

  // ---- The MIME pattern ----

  lemma {:induction false} LazyEndFinds(h: string, k: nat, j: nat)
    requires k <= j < |h| && h[j] == ';'
    requires ';' !in h[k..j] && NoLineTerminators(h)
    ensures LazyEnd(h, k) == Some(j)
    decreases j - k
  {
    if k < j {
      assert h[k] in h[k..j];
      assert h[k + 1..j] == h[k..j][1..];
      LazyEndFinds(h, k + 1, j);
    }
  }

  lemma {:induction false} LazyEndMisses(h: string, k: nat)
    requires k <= |h|
    requires ';' !in h[k..]
    ensures LazyEnd(h, k) == None
    decreases |h| - k
  {
    if k < |h| {
      assert h[k] in h[k..];
      assert h[k + 1..] == h[k..][1..];
      LazyEndMisses(h, k + 1);
    }
  }

  lemma {:induction false} MatchFromFinds(h: string, start: nat, i: nat, j: nat)
    requires start <= i < j < |h| && NoLineTerminators(h)
    requires h[i] == ':' && ':' !in h[start..i]
    requires h[j] == ';' && ';' !in h[i + 1..j]
    ensures MatchFrom(h, start) == Some(h[i + 1..j])
    decreases i - start
  {
    if start < i {
      assert h[start] in h[start..i];
      assert h[start + 1..i] == h[start..i][1..];
      MatchFromFinds(h, start + 1, i, j);
    } else {
      LazyEndFinds(h, i + 1, j);
    }
  }

  lemma {:induction false} MatchFromMisses(h: string, start: nat)
    requires start <= |h|
    requires forall i, j :: start <= i < j < |h| ==> !(h[i] == ':' && h[j] == ';')
    ensures MatchFrom(h, start) == None
    decreases |h| - start
  {
    if start < |h| {
      if h[start] == ':' {
        forall m | start + 1 <= m < |h| ensures h[m] != ';' {
          assert !(h[start] == ':' && h[m] == ';');
        }
        LazyEndMisses(h, start + 1);
      }
      MatchFromMisses(h, start + 1);
    }
  }

  lemma {:induction false} LazyEndReaches(h: string, k: nat, j: nat)
    requires k <= j < |h| && h[j] == ';' && NoLineTerminators(h)
    ensures LazyEnd(h, k).Some?
    decreases j - k
  {
    if h[k] != ';' {
      LazyEndReaches(h, k + 1, j);
    }
  }

  lemma {:induction false} MatchFromComplete(h: string, start: nat, i: nat, j: nat)
    requires start <= i < j < |h| && NoLineTerminators(h)
    requires h[i] == ':' && h[j] == ';'
    ensures MatchFrom(h, start).Some?
    decreases i - start
  {
    if h[start] == ':' {
      LazyEndReaches(h, start + 1, j);
    } else {
      MatchFromComplete(h, start + 1, i, j);
    }
  }

  /**
   * For a header without line breaks, the MIME type is the text between the
   * first ':' and the next ';' after it.
   */
  lemma MimeBetweenColonAndSemicolon(h: string, i: nat, j: nat)
    requires NoLineTerminators(h)
    requires i < j < |h| && h[i] == ':' && ':' !in h[..i]
    requires h[j] == ';' && ';' !in h[i + 1..j]
    ensures MimeOf(h) == Some(h[i + 1..j])
  {
    assert h[0..i] == h[..i];
    MatchFromFinds(h, 0, i, j);
  }

  /** For a header without line breaks, there is no MIME type exactly when no ':' is followed by a ';'. */
  lemma NoMimeWithoutPattern(h: string)
    requires NoLineTerminators(h)
    ensures MimeOf(h).None? <==> forall i, j :: 0 <= i < j < |h| ==> !(h[i] == ':' && h[j] == ';')
  {
    if forall i, j :: 0 <= i < j < |h| ==> !(h[i] == ':' && h[j] == ';') {
      MatchFromMisses(h, 0);
    } else {
      var i, j :| 0 <= i < j < |h| && h[i] == ':' && h[j] == ';';
      MatchFromComplete(h, 0, i, j);
    }
  }

  // ---- The comma split ----

  lemma FirstPiece(a: string, sep: char, rest: string)
    requires sep !in a
    requires rest == [] || rest[0] == sep
    ensures Text.Split(a + rest, sep)[0] == a
  {
    Text.SplitWithoutSep(a, sep);
    if rest == [] {
      assert a + rest == a;
    } else {
      assert a + rest == a + [sep] + rest[1..];
      Text.SplitAround(a, sep, rest[1..]);
    }
  }

  /** The header is the text before the first comma; the payload is the text up to the next comma. */
  lemma HeaderAndPayload(header: string, payload: string, rest: string)
    requires ',' !in header && ',' !in payload
    requires rest == [] || rest[0] == ','
    ensures Header(header + [','] + payload + rest) == header
    ensures Payload(header + [','] + payload + rest) == payload
  {
    var url := header + [','] + payload + rest;
    assert url == header + [','] + (payload + rest);
    Text.SplitAround(header, ',', payload + rest);
    Text.SplitWithoutSep(header, ',');
    var tail := Text.Split(payload + rest, ',');
    assert Text.Split(url, ',') == [header] + tail;
    FirstPiece(payload, ',', rest);
  }

  /** A URL without a comma hands `atob` the text "undefined". */
  lemma PayloadWithoutComma(url: string)
    requires ',' !in url
    ensures Header(url) == url && Payload(url) == "undefined"
  {
    Text.SplitWithoutSep(url, ',');
  }

  // ---- The whole conversion ----

  /**
   * A data URL of the form `data:<mime>;base64,<payload>` converts to a blob of
   * type `<mime>` whose bytes are, position by position, the codes `atob` decodes.
   */
  lemma WellFormedDataUrl(mime: string, payload: string, atob: Base64Decoder)
    requires ';' !in mime && ',' !in mime && NoLineTerminators(mime)
    requires ',' !in payload
    requires atob(payload).Some?
    ensures var r := ToBlob("data:" + mime + ";base64," + payload, atob);
      && r.Success?
      && r.value.mimeType == mime
      && r.value.Size() == |atob(payload).value|
      && forall i :: 0 <= i < r.value.Size() ==> r.value.bytes[i] == atob(payload).value[i]
  {
    var header := "data:" + mime + ";base64";
    assert "data:" + mime + ";base64," + payload == header + [','] + payload + [];
    HeaderAndPayload(header, payload, []);
    var j := 5 + |mime|;
    assert header[5..j] == mime;
    assert header[5..j] == header[4 + 1..j];
    assert header[..4] == "data";
    assert header[j] == ';';
    assert NoLineTerminators(header) by {
      forall k | 0 <= k < |header| ensures !LineTerminator(header[k]) {
        if 5 <= k < j {
          assert header[k] == mime[k - 5];
        }
      }
    }
    MimeBetweenColonAndSemicolon(header, 4, j);
  }

  /** A header with no ':' ... ';' makes the conversion fail, whatever the payload. */
  lemma HeaderWithoutPatternFails(url: string, atob: Base64Decoder)
    requires var h := Header(url); forall i, j :: 0 <= i < j < |h| ==> !(h[i] == ':' && h[j] == ';')
    ensures ToBlob(url, atob) == Failure(NoMimeType)
  {
    MatchFromMisses(Header(url), 0);
  }
}
