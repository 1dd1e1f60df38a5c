/**
 * The exchange with the image-generation API made by the single-image
 * generator of src/App.jsx: the base64 payload cut out of the FileReader
 * result, the request body, the scan of the reply for the first inline
 * image, and the `data:` URL built from it (section 3 of RFC 2397).
 * The network call and the file read are not modelled: their outcomes are
 * values handed in by the caller.
 */
module Gemini {
  import opened Wrappers
  import opened Strings

  /** Media type used when the upload or the returned image declares none. */
  const DefaultMediaType := "image/png"

  /** Message thrown for a reply that is not ok and whose body text is empty. */
  const DefaultHttpMessage := "Failed to generate image"

  // ---------------------------------------------------------------------
  // The payload of the upload: `result.split(',')[1]`

  /**
   * Element 1 of `s.split(',')`: the text after the first comma up to the
   * next comma or the end. None is JavaScript's `undefined`, which is what
   * the index yields when `s` holds no comma.
   */
  function Base64Field(s: string): (r: Option<string>)
    ensures r.None? <==> ',' !in s
    ensures r.Some? ==> ',' !in r.value
    ensures r.Some? ==> SecondSegment(s, ',', r.value)
  {
    var head := FirstSegment(s, ',');
    if |head| == |s| then None
    else
      var field := FirstSegment(s[|head| + 1..], ',');
      var rest := s[|head| + 1 + |field|..];
      CutAtSegments(s, ',', head, field, rest);
      SecondSegmentOf(s, ',', head, field, rest);
      Some(field)
  }

  // ---------------------------------------------------------------------
  // Data URLs

  /** `x || 'image/png'` for a media type. */
  function MediaTypeOr(mediaType: string): (r: string)
    ensures r != ""
    ensures mediaType != "" ==> r == mediaType
    ensures mediaType == "" ==> r == DefaultMediaType
  {
    if mediaType != "" then mediaType else DefaultMediaType
  }

  /**
   * The `data:` URL of section 3 of RFC 2397 for a base64 payload:
   * "data:" media-type ";base64," data, with image/png standing in for an
   * empty (absent) media type.
   */
  function DataUrl(mediaType: string, data: string): string
  {
    "data:" + MediaTypeOr(mediaType) + ";base64," + data
  }

  /** A data URL of the shape above carrying a non-empty payload. */
  ghost predicate IsImageDataUrl(url: string)
  {
    exists mediaType, data :: data != "" && url == DataUrl(mediaType, data)
  }

  /**
   * Cutting `split(',')[1]` out of a data URL gives back its payload, as
   * long as neither the media type nor the payload holds a comma (the base64
   * alphabet has none).
   */
  lemma {:induction false} PayloadOfDataUrl(mediaType: string, data: string)
    requires ',' !in mediaType && ',' !in data
    ensures Base64Field(DataUrl(mediaType, data)) == Some(data)
  {
    var head := "data:" + MediaTypeOr(mediaType) + ";base64";
    var url := DataUrl(mediaType, data);
    assert ',' !in head by {
      assert head == "data:" + MediaTypeOr(mediaType) + ";base64";
    }
    assert url == head + [','] + data;
    SegmentEndsAtSeparator(head, ',', data);
    assert url[|head| + 1..] == data;
    SegmentOfSeparatorFree(data, ',');
  }

  // ---------------------------------------------------------------------
  // The request body

  /**
   * `{ inline_data: { mime_type, data } }` of the request. A data of None is
   * `undefined`, which JSON.stringify leaves out.
   */
  datatype InlinePayload = InlinePayload(mimeType: string, data: Option<string>)

  datatype RequestPart = TextPart(text: string) | InlinePart(inlineData: InlinePayload)

  datatype RequestContent = RequestContent(role: string, parts: seq<RequestPart>)

  datatype RequestBody = RequestBody(contents: seq<RequestContent>)

  /** The body posted for one generation: one user turn, the prompt, then the image. */
  function BuildBody(prompt: string, fileType: string, base64: Option<string>): (r: RequestBody)
    ensures |r.contents| == 1 && r.contents[0].role == "user"
    ensures |r.contents[0].parts| == 2
    ensures r.contents[0].parts[0] == TextPart(prompt)
    ensures r.contents[0].parts[1].InlinePart?
    ensures r.contents[0].parts[1].inlineData.data == base64
    ensures r.contents[0].parts[1].inlineData.mimeType != ""
    ensures fileType != "" ==> r.contents[0].parts[1].inlineData.mimeType == fileType
    ensures fileType == "" ==> r.contents[0].parts[1].inlineData.mimeType == DefaultMediaType
  {
    RequestBody([RequestContent("user", [TextPart(prompt), InlinePart(InlinePayload(MediaTypeOr(fileType), base64))])])
  }

  /**
   * When the file reader hands back the data URL of a file with a declared
   * type, the request carries exactly that file's type and payload.
   */
  lemma RequestCarriesUpload(prompt: string, fileType: string, data: string)
    requires fileType != "" && ',' !in fileType && ',' !in data
    ensures BuildBody(prompt, fileType, Base64Field(DataUrl(fileType, data))).contents[0].parts[1]
         == InlinePart(InlinePayload(fileType, Some(data)))
  {
    PayloadOfDataUrl(fileType, data);
  }

  // ---------------------------------------------------------------------
  // The reply

  /** An `inline_data` object of the reply; "" stands for a missing or empty field. */
  datatype InlineData = InlineData(mimeType: string, data: string)

  /**
   * An element of `parts`. NullPart is `null` or `undefined`, on which
   * `p.inline_data` throws; Part(None) is a part without (truthy) `inline_data`.
   */
  datatype Part = NullPart | Part(inlineData: Option<InlineData>)

  /** A `content` object; None for a missing or falsy `parts`. */
  datatype Content = Content(parts: Option<seq<Part>>)

  /** A candidate; Candidate(None) also stands for a `null` candidate (`c?.content`). */
  datatype Candidate = Candidate(content: Option<Content>)

  /**
   * The reply body: not JSON at all (`res.json()` rejects), the JSON value
   * `null` (reading `.candidates` of it throws), or an object.
   */
  datatype Reply = Unparsable | NullJson | JsonObject(candidates: Option<seq<Candidate>>)

  /** `p.inline_data && p.inline_data.data` is truthy. */
  predicate CarriesImage(p: Part)
  {
    p.Part? && p.inlineData.Some? && p.inlineData.value.data != ""
  }

  /** `data.candidates || []`. */
  function CandidatesOf(candidates: Option<seq<Candidate>>): seq<Candidate>
  {
    if candidates.Some? then candidates.value else []
  }

  /** `c?.content?.parts || []`. */
  function PartsOf(c: Candidate): seq<Part>
  {
    if c.content.Some? && c.content.value.parts.Some? then c.content.value.parts.value else []
  }

  /** Every part, candidate after candidate: the order in which the scan visits them. */
  function AllParts(candidates: seq<Candidate>): seq<Part>
  {
    if candidates == [] then [] else PartsOf(candidates[0]) + AllParts(candidates[1..])
  }

  lemma {:induction false} AllPartsConcat(a: seq<Candidate>, b: seq<Candidate>)
    ensures AllParts(a + b) == AllParts(a) + AllParts(b)
  {
    if a != [] {
      assert (a + b)[1..] == a[1..] + b;
      AllPartsConcat(a[1..], b);
    } else {
      assert a + b == b;
    }
  }

  /** What the scan of the reply ends with: an image, none, or a thrown TypeError. */
  datatype Scan = Found(image: InlineData) | NoImage | Crashed

  /** Reference definition of the scan, over the parts in visiting order. */
  function ScanParts(parts: seq<Part>): Scan
  {
    if parts == [] then NoImage
    else if parts[0].NullPart? then Crashed
    else if CarriesImage(parts[0]) then Found(parts[0].inlineData.value)
    else ScanParts(parts[1..])
  }

  /** Part i is the first image part, and the scan reaches it without throwing. */
  predicate FirstImageAt(parts: seq<Part>, i: int)
  {
    && 0 <= i < |parts|
    && CarriesImage(parts[i])
    && forall j :: 0 <= j < i ==> parts[j].Part? && !CarriesImage(parts[j])
  }

  /** The scan returns an image exactly when it is the image of the first image part. */
  lemma {:induction false} ScanFindsFirstImage(parts: seq<Part>, image: InlineData)
    ensures ScanParts(parts) == Found(image)
        <==> exists i :: FirstImageAt(parts, i) && parts[i].inlineData.value == image
  {
    if parts == [] {
    } else if parts[0].NullPart? {
      forall i | 0 < i < |parts| ensures !FirstImageAt(parts, i) {
        assert !parts[0].Part?;
      }
    } else if CarriesImage(parts[0]) {
      assert FirstImageAt(parts, 0);
      forall i | 0 < i < |parts| ensures !FirstImageAt(parts, i) {
        assert !(parts[0].Part? && !CarriesImage(parts[0]));
      }
    } else {
      var rest := parts[1..];
      ScanFindsFirstImage(rest, image);
      forall i | FirstImageAt(parts, i) ensures FirstImageAt(rest, i - 1) {
        assert i != 0;
        forall j | 0 <= j < i - 1 ensures rest[j].Part? && !CarriesImage(rest[j]) {
          assert rest[j] == parts[j + 1];
        }
      }
      forall i | FirstImageAt(rest, i) ensures FirstImageAt(parts, i + 1) {
        forall j | 0 <= j < i + 1 ensures parts[j].Part? && !CarriesImage(parts[j]) {
          if j > 0 { assert parts[j] == rest[j - 1]; }
        }
      }
      if ScanParts(parts) == Found(image) {
        var i :| FirstImageAt(rest, i) && rest[i].inlineData.value == image;
        assert FirstImageAt(parts, i + 1);
      }
      if exists i :: FirstImageAt(parts, i) && parts[i].inlineData.value == image {
        var i :| FirstImageAt(parts, i) && parts[i].inlineData.value == image;
        assert FirstImageAt(rest, i - 1);
      }
    }
  }

  /** The scan finds nothing exactly when every part is an object without image data. */
  lemma {:induction false} ScanFindsNothing(parts: seq<Part>)
    ensures ScanParts(parts) == NoImage
        <==> forall i :: 0 <= i < |parts| ==> parts[i].Part? && !CarriesImage(parts[i])
  {
    if parts != [] {
      ScanFindsNothing(parts[1..]);
      assert forall i :: 1 <= i < |parts| ==> parts[i] == parts[1..][i - 1];
    }
  }

  /** Scanning a concatenation: the second half is reached only if the first finds nothing. */
  lemma {:induction false} ScanAppend(a: seq<Part>, b: seq<Part>)
    ensures ScanParts(a + b) == if ScanParts(a) == NoImage then ScanParts(b) else ScanParts(a)
  {
    if a != [] {
      assert (a + b)[0] == a[0];
      assert (a + b)[1..] == a[1..] + b;
      ScanAppend(a[1..], b);
    } else {
      assert a + b == b;
    }
  }

  /** The parts of all candidates, split around candidate i. */
  lemma {:induction false} AllPartsAround(candidates: seq<Candidate>, i: int)
    requires 0 <= i < |candidates|
    ensures AllParts(candidates)
         == AllParts(candidates[..i]) + (PartsOf(candidates[i]) + AllParts(candidates[i + 1..]))
  {
    var rest := candidates[i..];
    assert candidates == candidates[..i] + rest;
    AllPartsConcat(candidates[..i], rest);
    assert rest[0] == candidates[i] && rest[1..] == candidates[i + 1..];
    assert AllParts(rest) == PartsOf(candidates[i]) + AllParts(candidates[i + 1..]);
  }

  /** A null part or an image part ends the scan, whatever follows it. */
  lemma ScanStopsAt(p: Part, rest: seq<Part>)
    requires !(p.Part? && !CarriesImage(p))
    ensures ScanParts([p] + rest) == ScanParts([p])
  {
    assert ([p] + rest)[0] == p;
  }

  /** Within a list of parts: the scan resumes at part j once the parts before it were passed. */
  lemma ScanResumesWithin(before: seq<Part>, parts: seq<Part>, tail: seq<Part>, j: int)
    requires 0 <= j < |parts|
    requires ScanParts(before) == NoImage && ScanParts(parts[..j]) == NoImage
    requires !(parts[j].Part? && !CarriesImage(parts[j]))
    ensures ScanParts(before + (parts + tail)) == ScanParts([parts[j]])
  {
    ScanAppend(before, parts + tail);
    var after := parts[j + 1..] + tail;
    assert parts + tail == parts[..j] + ([parts[j]] + after);
    ScanAppend(parts[..j], [parts[j]] + after);
    ScanStopsAt(parts[j], after);
  }

  /** The scan over all candidates resumes at part j of candidate i once everything before it was passed. */
  lemma ScanResumesAt(candidates: seq<Candidate>, i: int, j: int)
    requires 0 <= i < |candidates| && 0 <= j < |PartsOf(candidates[i])|
    requires ScanParts(AllParts(candidates[..i])) == NoImage
    requires ScanParts(PartsOf(candidates[i])[..j]) == NoImage
    requires !(PartsOf(candidates[i])[j].Part? && !CarriesImage(PartsOf(candidates[i])[j]))
    ensures ScanParts(AllParts(candidates)) == ScanParts([PartsOf(candidates[i])[j]])
  {
    AllPartsAround(candidates, i);
    ScanResumesWithin(AllParts(candidates[..i]), PartsOf(candidates[i]), AllParts(candidates[i + 1..]), j);
  }

  /** The scan stays empty-handed after passing a candidate without image parts. */
  lemma ScanPassesCandidate(candidates: seq<Candidate>, i: int)
    requires 0 <= i < |candidates|
    requires ScanParts(AllParts(candidates[..i])) == NoImage
    requires ScanParts(PartsOf(candidates[i])) == NoImage
    ensures ScanParts(AllParts(candidates[..i + 1])) == NoImage
  {
    assert candidates[..i + 1] == candidates[..i] + [candidates[i]];
    AllPartsConcat(candidates[..i], [candidates[i]]);
    assert [candidates[i]][1..] == [];
    assert AllParts([candidates[i]]) == PartsOf(candidates[i]) + [];
    assert PartsOf(candidates[i]) + [] == PartsOf(candidates[i]);
    ScanAppend(AllParts(candidates[..i]), PartsOf(candidates[i]));
  }

  /**
   * The reply scan of the source: a loop over the candidates around a loop
   * over their parts, leaving both at the first part with truthy
   * `inline_data.data`. Reading `inline_data` of a null part throws (Crashed).
   */
  method FindImagePart(candidates: seq<Candidate>) returns (r: Scan)
    ensures r == ScanParts(AllParts(candidates))
  {
    var imagePart: Option<InlineData> := None;
    var i := 0;
    while i < |candidates|
      invariant 0 <= i <= |candidates|
      invariant imagePart.None?
      invariant ScanParts(AllParts(candidates[..i])) == NoImage
    {
      var parts := PartsOf(candidates[i]);
      var j := 0;
      while j < |parts|
        invariant 0 <= j <= |parts|
        invariant imagePart.None?
        invariant ScanParts(parts[..j]) == NoImage
      {
        var p := parts[j];
        if p.NullPart? {
          ScanResumesAt(candidates, i, j);
          return Crashed;
        }
        if p.inlineData.Some? && p.inlineData.value.data != "" {
          ScanResumesAt(candidates, i, j);
          imagePart := p.inlineData;
          break;
        }
        assert parts[..j + 1] == parts[..j] + [p];
        ScanAppend(parts[..j], [p]);
        j := j + 1;
      }
      if imagePart.Some? {
        break;
      }
      assert parts[..j] == parts;
      ScanPassesCandidate(candidates, i);
      i := i + 1;
    }
    if imagePart.None? {
      assert candidates[..i] == candidates;
      r := NoImage;
    } else {
      r := Found(imagePart.value);
    }
  }

  // ---------------------------------------------------------------------
  // One generation attempt

  /**
   * What FileReader delivered: a string result, or a failure (`onerror`,
   * or a result that is not a string).
   */
  datatype ReadOutcome = ReadDone(result: string) | ReadFailed

  /** What `fetch` delivered: a network failure, or a response with its status flag, text and JSON. */
  datatype FetchOutcome = NetworkFailure | Response(ok: bool, text: string, body: Reply)

  /** Why an attempt threw; HttpError keeps the message the source builds for it. */
  datatype Failure = ReadError | NetworkError | HttpError(message: string) | MalformedReply | NoImageReturned

  datatype Attempted = Generated(dataUrl: string) | Failed(failure: Failure)

  /**
   * Reference definition of the body of the `try` block: read the file, post
   * the request, reject a non-ok status, scan the reply, build the data URL.
   */
  function Attempt(read: ReadOutcome, fetched: FetchOutcome): Attempted
  {
    if read.ReadFailed? then Failed(ReadError)
    else match fetched
      case NetworkFailure => Failed(NetworkError)
      case Response(ok, text, body) =>
        if !ok then Failed(HttpError(if text != "" then text else DefaultHttpMessage))
        else match body
          case Unparsable => Failed(MalformedReply)
          case NullJson => Failed(MalformedReply)
          case JsonObject(candidates) =>
            match ScanParts(AllParts(CandidatesOf(candidates)))
            case Found(image) => Generated(DataUrl(image.mimeType, image.data))
            case NoImage => Failed(NoImageReturned)
            case Crashed => Failed(MalformedReply)
  }

  /** The reply was read as JSON after an ok status, and these are its parts in scan order. */
  predicate RepliedWith(read: ReadOutcome, fetched: FetchOutcome, parts: seq<Part>)
  {
    && read.ReadDone?
    && fetched.Response? && fetched.ok && fetched.body.JsonObject?
    && parts == AllParts(CandidatesOf(fetched.body.candidates))
  }

  /**
   * An attempt succeeds exactly when the reply is ok JSON with an image
   * part; the URL is then the data URL of the first image part, its media
   * type defaulting to image/png.
   */
  lemma AttemptYieldsFirstImage(read: ReadOutcome, fetched: FetchOutcome, url: string)
    ensures Attempt(read, fetched) == Generated(url)
        <==> exists parts: seq<Part>, i: int :: RepliedWith(read, fetched, parts) && FirstImageAt(parts, i)
               && url == DataUrl(parts[i].inlineData.value.mimeType, parts[i].inlineData.value.data)
    ensures Attempt(read, fetched) == Generated(url) ==> IsImageDataUrl(url)
  {
    if read.ReadDone? && fetched.Response? && fetched.ok && fetched.body.JsonObject? {
      var parts := AllParts(CandidatesOf(fetched.body.candidates));
      var scan := ScanParts(parts);
      if scan.Found? {
        ScanFindsFirstImage(parts, scan.image);
        var i :| FirstImageAt(parts, i) && parts[i].inlineData.value == scan.image;
        assert Attempt(read, fetched) == Generated(DataUrl(scan.image.mimeType, scan.image.data));
        assert RepliedWith(read, fetched, parts);
      }
      forall ps: seq<Part>, i: int | RepliedWith(read, fetched, ps) && FirstImageAt(ps, i)
        ensures Attempt(read, fetched) == Generated(DataUrl(ps[i].inlineData.value.mimeType, ps[i].inlineData.value.data))
      {
        ScanFindsFirstImage(ps, ps[i].inlineData.value);
      }
    }
  }

  /**
   * An ok JSON reply fails with NoImageReturned exactly when none of its
   * parts, candidate after candidate, carries image data (and none is null);
   * in particular when `candidates` is missing or empty.
   */
  lemma AttemptFindsNoImage(read: ReadOutcome, fetched: FetchOutcome)
    ensures Attempt(read, fetched) == Failed(NoImageReturned)
        <==> exists parts: seq<Part> :: RepliedWith(read, fetched, parts)
               && forall i :: 0 <= i < |parts| ==> parts[i].Part? && !CarriesImage(parts[i])
  {
    if read.ReadDone? && fetched.Response? && fetched.ok && fetched.body.JsonObject? {
      var parts := AllParts(CandidatesOf(fetched.body.candidates));
      ScanFindsNothing(parts);
      assert RepliedWith(read, fetched, parts);
    }
  }
}
