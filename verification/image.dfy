/** The choice of an image from a response of the image model, shared by the
    image route (image/routes.ts, lines 44-51) and by the chat relay
    (chat/routes.ts, lines 158-163), and the `/api/generate-image` handler
    as a pure function of the prompt and the outcome of the model call. */
module ImageSelection {
  import opened Wrappers
  import opened Http

  const DefaultMime := "image/png"
  const PromptRequired := "Prompt is required"
  const NoImageData := "No image data in response"
  const GenerationFailed := "Failed to generate image"

  /** The parts of a model response the handlers look at; every field may be
      absent. */
  datatype InlineData = InlineData(data: Option<string>, mimeType: Option<string>)
  datatype Part = Part(inlineData: Option<InlineData>)
  datatype Content = Content(parts: Option<seq<Part>>)
  datatype Candidate = Candidate(content: Option<Content>)
  datatype ImageResponse = ImageResponse(candidates: Option<seq<Candidate>>)

  /** What the call to the image model did: it threw, or it answered. */
  datatype ImageOutcome = Threw | Responded(response: ImageResponse)

  datatype Image = Image(data: string, mimeType: string)

  /** `response.candidates?.[0]?.content?.parts`, with absent as empty: an
      absent list and an empty list both make the search below fail. */
  function FirstCandidateParts(r: ImageResponse): seq<Part> {
    if r.candidates.Some? && |r.candidates.value| > 0
       && r.candidates.value[0].content.Some?
       && r.candidates.value[0].content.value.parts.Some?
    then r.candidates.value[0].content.value.parts.value
    else []
  }

  /** Part `k` is the one `parts.find(part => part.inlineData)` returns. */
  predicate FirstInlineAt(parts: seq<Part>, k: int) {
    && 0 <= k < |parts|
    && parts[k].inlineData.Some?
    && forall m :: 0 <= m < k ==> parts[m].inlineData.None?
  }

  /** `parts.find(part => part.inlineData)`, searching from `from`. */
  function FindInline(parts: seq<Part>, from: nat): (r: Option<nat>)
    requires from <= |parts|
    requires forall m :: 0 <= m < from ==> parts[m].inlineData.None?
    ensures r.Some? ==> FirstInlineAt(parts, r.value)
    ensures r.None? ==> forall m :: 0 <= m < |parts| ==> parts[m].inlineData.None?
    decreases |parts| - from
  {
    if from == |parts| then None
    else if parts[from].inlineData.Some? then Some(from)
    else FindInline(parts, from + 1)
  }

  lemma FirstInlineUnique(parts: seq<Part>, k1: int, k2: int)
    requires FirstInlineAt(parts, k1) && FirstInlineAt(parts, k2)
    ensures k1 == k2
  {
  }

  /** The image in a response: the data and MIME type of the first part of
      the first candidate that carries inline data, when that data is not
      empty; the MIME type defaults to `image/png`. */
  function SelectImage(resp: ImageResponse): (r: Option<Image>)
    ensures r.Some? ==> r.value.data != "" && r.value.mimeType != ""
    ensures forall k :: FirstInlineAt(FirstCandidateParts(resp), k) ==>
              var d := FirstCandidateParts(resp)[k].inlineData.value;
              && (r.Some? <==> d.data.Some? && d.data.value != "")
              && (r.Some? ==> r.value == Image(d.data.value, OrElse(d.mimeType, DefaultMime)))
    ensures (forall k :: !FirstInlineAt(FirstCandidateParts(resp), k)) ==> r.None?
  {
    var parts := FirstCandidateParts(resp);
    match FindInline(parts, 0)
    case None => None
    case Some(k) =>
      var d := parts[k].inlineData.value;
      if d.data.Some? && d.data.value != "" then
        Some(Image(d.data.value, OrElse(d.mimeType, DefaultMime)))
      else None
  }

  /** `data:${mimeType};base64,${data}` */
  function DataUri(img: Image): (r: string)
    ensures r != ""
  {
    "data:" + img.mimeType + ";base64," + img.data
  }

  /** The data URI keeps both halves of the image: when the MIME type holds
      no `;`, the type and the data can be read back from it. */
  lemma {:induction false} DataUriReadBack(img: Image)
    requires forall k :: 0 <= k < |img.mimeType| ==> img.mimeType[k] != ';'
    ensures var u := DataUri(img);
            var semi := 5 + |img.mimeType|;
            && u[..5] == "data:"
            && semi < |u| && u[semi] == ';'
            && (forall k :: 5 <= k < semi ==> u[k] != ';')
            && u[5..semi] == img.mimeType
            && u[semi..semi + 8] == ";base64,"
            && u[semi + 8..] == img.data
  {
    var u := DataUri(img);
    var semi := 5 + |img.mimeType|;
    assert u == "data:" + img.mimeType + (";base64," + img.data);
    forall k | 5 <= k < semi
      ensures u[k] != ';'
    {
      assert u[k] == img.mimeType[k - 5];
    }
  }

  /** What changes in the response beyond the first candidate's parts up to
      the first inline part is ignored. */
  lemma OnlyFirstInlinePartMatters(r1: ImageResponse, r2: ImageResponse, k: nat)
    requires FirstInlineAt(FirstCandidateParts(r1), k)
    requires k < |FirstCandidateParts(r2)|
    requires FirstCandidateParts(r1)[..k + 1] == FirstCandidateParts(r2)[..k + 1]
    ensures SelectImage(r1) == SelectImage(r2)
  {
    var p1, p2 := FirstCandidateParts(r1), FirstCandidateParts(r2);
    forall m | 0 <= m <= k
      ensures p1[m] == p2[m]
    {
      assert p1[m] == p1[..k + 1][m];
      assert p2[m] == p2[..k + 1][m];
    }
    assert FirstInlineAt(p2, k);
  }

  // ---------------------------------------------------------------------------
  // POST /api/generate-image
  // ---------------------------------------------------------------------------

  datatype ImageBody = ImageBody(b64Json: string, mimeType: string)

  /** The reply, and the prompt the image model was called with, if any. */
  datatype ImageRoute = ImageRoute(called: Option<string>, reply: Reply<ImageBody>)

  /** The handler: `prompt` is the request's `prompt` field (absent as
      `None`), `outcome` what the image model call does if made. */
  function GenerateImage(prompt: Option<string>, outcome: ImageOutcome): (r: ImageRoute)
    ensures r.called.Some? <==> prompt.Some? && prompt.value != ""
    ensures r.called.Some? ==> r.called.value == prompt.value
    ensures r.called.None? <==> r.reply == Failure(400, PromptRequired)
    ensures outcome.Threw? && r.called.Some? ==> r.reply == Failure(500, GenerationFailed)
    ensures r.reply.Success? <==>
              r.called.Some? && outcome.Responded? && SelectImage(outcome.response).Some?
    ensures r.reply.Success? ==>
              && r.reply.status == 200
              && r.reply.body.b64Json != ""
              && Image(r.reply.body.b64Json, r.reply.body.mimeType) == SelectImage(outcome.response).value
    ensures r.called.Some? && outcome.Responded? && SelectImage(outcome.response).None? ==>
              r.reply == Failure(500, NoImageData)
  {
    if prompt.None? || prompt.value == "" then
      ImageRoute(None, Failure(400, PromptRequired))
    else
      var reply := match outcome
        case Threw => Failure(500, GenerationFailed)
        case Responded(resp) =>
          match SelectImage(resp)
          case None => Failure(500, NoImageData)
          case Some(img) => Success(200, ImageBody(img.data, img.mimeType));
      ImageRoute(prompt, reply)
  }

  /** A rejected prompt never reaches the model, so the reply cannot depend
      on what the model would have done. */
  lemma RejectedPromptIgnoresModel(prompt: Option<string>, o1: ImageOutcome, o2: ImageOutcome)
    requires GenerateImage(prompt, o1).called.None?
    ensures GenerateImage(prompt, o1) == GenerateImage(prompt, o2)
  {
  }
}
