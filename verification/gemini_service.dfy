/** The client side of the three remote-model operations (services/geminiService.ts).
    The hosted model and the JSON parser are opaque: each operation receives them as
    function parameters, so the model states what the client does with whatever
    they return. Prompt wording and model configuration are not modelled. */
module GeminiService {
  import opened Wrappers
  import opened Strings
  import opened Types

  // ---------------------------------------------------------------------------
  // Response shape of a generate-content call (only the fields the client reads)
  // ---------------------------------------------------------------------------

  datatype InlineData = InlineData(mimeType: Option<string>, data: Option<string>)
  datatype Part = Part(inlineData: Option<InlineData>, text: Option<string>)
  datatype Content = Content(parts: Option<seq<Part>>)
  datatype Candidate = Candidate(content: Option<Content>)
  datatype GenerateResponse = GenerateResponse(candidates: Option<seq<Candidate>>, text: Option<string>)

  /** The image payload sent with an analysis or decomposition request. */
  datatype InlineRequest = InlineRequest(mimeType: string, data: string)

  /** The text fields of the trend reply, as parsed from JSON. */
  datatype TrendData = TrendData(title: Option<string>, description: Option<string>, keyElements: Option<seq<string>>)

  /** The message of the error thrown when an analysis reply has no text. */
  const NoDataMessage := "Gemini 未返回数据"

  const NoDataError := JsError(Some("Error"), None, Some(NoDataMessage))

  // ---------------------------------------------------------------------------
  // Data URLs
  // ---------------------------------------------------------------------------

  /** `base64Image.split(',')[1] || base64Image`: the segment after the first comma
      when that segment is non-empty, otherwise the whole input. */
  function StripDataUrlPrefix(s: string): (r: string)
    ensures ',' !in s ==> r == s
    ensures ',' in s ==>
      var rest := s[IndexOf(s, ',') + 1..];
      var segment := if ',' in rest then rest[..IndexOf(rest, ',')] else rest;
      r == if segment != "" then segment else s
    ensures ',' !in r || r == s
  {
    var parts := Split(s, ',');
    SplitSecond(s, ',');
    if |parts| > 1 && parts[1] != "" then parts[1] else s
  }

  /** The second segment of a split exists exactly when the separator occurs, and it
      runs from just after the first separator up to the next one. */
  lemma SplitSecond(s: string, sep: char)
    ensures |Split(s, sep)| > 1 <==> sep in s
    ensures sep in s ==>
      var rest := s[IndexOf(s, sep) + 1..];
      Split(s, sep)[1] == if sep in rest then rest[..IndexOf(rest, sep)] else rest
  {
    if sep in s {
      var rest := s[IndexOf(s, sep) + 1..];
      assert Split(s, sep) == [s[..IndexOf(s, sep)]] + Split(rest, sep);
    }
  }

  /** How `${x}` renders a possibly missing string. */
  function Interpolate(x: Option<string>): string
  {
    match x
    case Some(v) => v
    case None => "undefined"
  }

  /** The data URL built from an inline image part. */
  function DataUrl(d: InlineData): (r: string)
    ensures |r| == |"data:;base64,"| + |Interpolate(d.mimeType)| + |Interpolate(d.data)|
    ensures r[..5] == "data:"
    ensures r[5..5 + |Interpolate(d.mimeType)|] == Interpolate(d.mimeType)
    ensures r[5 + |Interpolate(d.mimeType)|..|r| - |Interpolate(d.data)|] == ";base64,"
    ensures r[|r| - |Interpolate(d.data)|..] == Interpolate(d.data)
  {
    "data:" + Interpolate(d.mimeType) + ";base64," + Interpolate(d.data)
  }

  /** Stripping the prefix of a data URL built from a part gives back the part's
      payload, provided the media type and payload contain no comma and the payload
      is not empty. */
  lemma DataUrlRoundTrip(mimeType: string, data: string)
    requires ',' !in mimeType && ',' !in data && data != ""
    ensures StripDataUrlPrefix(DataUrl(InlineData(Some(mimeType), Some(data)))) == data
  {
    var head := "data:" + mimeType + ";base64";
    assert ',' !in head;
    var url := DataUrl(InlineData(Some(mimeType), Some(data)));
    assert url == Join([head, data], [',']);
    SplitJoin([head, data], ',');
  }

  /** With an empty payload the built URL is its own stripped form: the request then
      carries the whole URL rather than an empty payload. */
  lemma EmptyPayloadKeepsUrl(mimeType: string)
    requires ',' !in mimeType
    ensures var url := DataUrl(InlineData(Some(mimeType), Some("")));
      StripDataUrlPrefix(url) == url
  {
    var head := "data:" + mimeType + ";base64";
    assert ',' !in head;
    var url := DataUrl(InlineData(Some(mimeType), Some("")));
    assert url == Join([head, ""], [',']);
    SplitJoin([head, ""], ',');
  }

  // ---------------------------------------------------------------------------
  // Selecting the generated image of a reply
  // ---------------------------------------------------------------------------

  /** `response.candidates?.[0]?.content?.parts || []`. */
  function PartsOf(response: GenerateResponse): (r: seq<Part>)
    ensures response.candidates.None? || |response.candidates.value| == 0 ==> r == []
    ensures r != [] ==>
      && response.candidates.Some? && |response.candidates.value| > 0
      && response.candidates.value[0].content.Some?
      && response.candidates.value[0].content.value.parts == Some(r)
    ensures response.candidates.Some? && |response.candidates.value| > 0
      && response.candidates.value[0].content.Some?
      && response.candidates.value[0].content.value.parts.Some?
      ==> r == response.candidates.value[0].content.value.parts.value
  {
    match response.candidates
    case None => []
    case Some(cs) =>
      if |cs| == 0 then []
      else match cs[0].content
        case None => []
        case Some(content) =>
          match content.parts
          case None => []
          case Some(parts) => parts
  }

  /** The parts depend on the first candidate alone: two replies whose first
      candidates agree (or which both have none) give the same parts, whatever their
      text and later candidates. */
  lemma PartsOfReadsFirstCandidateOnly(a: GenerateResponse, b: GenerateResponse)
    requires (a.candidates.Some? && |a.candidates.value| > 0) == (b.candidates.Some? && |b.candidates.value| > 0)
    requires a.candidates.Some? && |a.candidates.value| > 0 ==> a.candidates.value[0] == b.candidates.value[0]
    ensures PartsOf(a) == PartsOf(b)
  {
  }

  /** Part `k` is the first part carrying inline data. */
  ghost predicate IsFirstInline(parts: seq<Part>, k: int)
  {
    0 <= k < |parts| && parts[k].inlineData.Some?
    && forall j :: 0 <= j < k ==> parts[j].inlineData.None?
  }

  /** The data URL of the first part carrying inline data, or None when no part does. */
  function FirstInlineImage(parts: seq<Part>): (r: Option<string>)
    ensures r.None? <==> forall k :: 0 <= k < |parts| ==> parts[k].inlineData.None?
    ensures r.Some? ==> exists k :: IsFirstInline(parts, k) && r.value == DataUrl(parts[k].inlineData.value)
    ensures r.Some? ==> |r.value| >= 5 && r.value[..5] == "data:"
  {
    if |parts| == 0 then None
    else if parts[0].inlineData.Some? then
      assert IsFirstInline(parts, 0);
      Some(DataUrl(parts[0].inlineData.value))
    else
      FirstInlineShift(parts);
      FirstInlineImage(parts[1..])
  }

  /** Behind a leading part without inline data, the first inline part of the tail is
      the first inline part of the whole sequence. */
  lemma FirstInlineShift(parts: seq<Part>)
    requires |parts| > 0 && parts[0].inlineData.None?
    ensures forall k :: IsFirstInline(parts[1..], k) ==> IsFirstInline(parts, k + 1)
  {
  }

  /** Only the first candidate is consulted: a reply whose first candidate has no
      inline part yields no image even when a later candidate has one. */
  lemma OnlyFirstCandidateCounts(c0: Candidate, more: seq<Candidate>, text: Option<string>)
    requires c0.content.Some? && c0.content.value.parts.Some?
    requires forall p :: p in c0.content.value.parts.value ==> p.inlineData.None?
    ensures FirstInlineImage(PartsOf(GenerateResponse(Some([c0] + more), text))) == None
  {
    var parts := c0.content.value.parts.value;
    assert PartsOf(GenerateResponse(Some([c0] + more), text)) == parts;
    assert forall k :: 0 <= k < |parts| ==> parts[k] in parts;
  }

  // ---------------------------------------------------------------------------
  // The three operations
  // ---------------------------------------------------------------------------

  /** analyzeOutfit: sends the stripped image to the model and parses the reply text.
      Every failure propagates: a thrown call, an empty reply, a parse error. */
  function AnalyzeOutfit(
    base64Image: string,
    mimeType: string,
    model: InlineRequest -> Outcome<GenerateResponse>,
    parse: string -> Outcome<AnalysisResult>): (r: Outcome<AnalysisResult>)
    ensures var call := model(InlineRequest(mimeType, StripDataUrlPrefix(base64Image)));
      && (call.Throw? ==> r == Throw(call.error))
      && (call.Normal? && !Truthy(call.value.text) ==> r == Throw(NoDataError))
      && (call.Normal? && Truthy(call.value.text) ==> r == parse(call.value.text.value))
    ensures r.Normal? ==> exists text :: text != "" && parse(text) == r
  {
    var request := InlineRequest(mimeType, StripDataUrlPrefix(base64Image));
    match model(request)
    case Throw(e) => Throw(e)
    case Normal(response) =>
      if !Truthy(response.text) then Throw(NoDataError)
      else parse(response.text.value)
  }

  /** generateDecompositionImage: never throws. A thrown call, or a reply without
      an inline part, yields no image. */
  function GenerateDecompositionImage(
    base64Image: string,
    mimeType: string,
    model: InlineRequest -> Outcome<GenerateResponse>): (r: Option<string>)
    ensures var call := model(InlineRequest(mimeType, StripDataUrlPrefix(base64Image)));
      && (call.Throw? ==> r.None?)
      && (call.Normal? ==> r == FirstInlineImage(PartsOf(call.value)))
    ensures r.Some? ==> r.value[..5] == "data:"
  {
    var request := InlineRequest(mimeType, StripDataUrlPrefix(base64Image));
    match model(request)
    case Throw(_) => None
    case Normal(response) => FirstInlineImage(PartsOf(response))
  }

  /** The trend-image loop: walks the parts and stops at the first one carrying
      inline data. */
  method FirstInlineImageLoop(parts: seq<Part>) returns (imageUrl: Option<string>)
    ensures imageUrl == FirstInlineImage(parts)
  {
    imageUrl := None;
    var i := 0;
    while i < |parts|
      invariant 0 <= i <= |parts|
      invariant forall j :: 0 <= j < i ==> parts[j].inlineData.None?
      invariant FirstInlineImage(parts) == FirstInlineImage(parts[i..])
    {
      if parts[i].inlineData.Some? {
        imageUrl := Some(DataUrl(parts[i].inlineData.value));
        break;
      }
      assert parts[i..][1..] == parts[i + 1..];
      i := i + 1;
    }
  }

  /** getFashionTrends: a text phase whose failure propagates, then an image phase
      whose failure is swallowed. An empty reply text is parsed as "{}"; the image
      prompt then reads the missing `keyElements`, which throws inside the image
      phase and is swallowed like any other image failure. The image model receives
      the interpolated title and the comma-joined key elements. */
  method GetFashionTrends(
    textCall: Outcome<GenerateResponse>,
    parse: string -> Outcome<TrendData>,
    imageModel: (string, string) -> Outcome<GenerateResponse>)
    returns (r: Outcome<TrendResult>)
    ensures textCall.Throw? ==> r == Throw(textCall.error)
    ensures textCall.Normal? ==>
      var source := if Truthy(textCall.value.text) then textCall.value.text.value else "{}";
      var parsed := parse(source);
      && (parsed.Throw? ==> r == Throw(parsed.error))
      && (parsed.Normal? ==>
            && r.Normal?
            && r.value.title == parsed.value.title
            && r.value.description == parsed.value.description
            && r.value.keyElements == parsed.value.keyElements
            && r.value.imageUrl == TrendImage(parsed.value, imageModel))
  {
    if textCall.Throw? {
      return Throw(textCall.error);
    }
    var source := if Truthy(textCall.value.text) then textCall.value.text.value else "{}";
    var parsed := parse(source);
    if parsed.Throw? {
      return Throw(parsed.error);
    }
    var data := parsed.value;
    var imageUrl: Option<string> := None;
    if data.keyElements.Some? {
      var call := imageModel(Interpolate(data.title), Join(data.keyElements.value, ", "));
      if call.Normal? {
        imageUrl := FirstInlineImageLoop(PartsOf(call.value));
      }
    }
    r := Normal(TrendResult(data.title, data.description, data.keyElements, imageUrl));
  }

  /** The image a trend record ends up with: None when the key elements are missing
      or the image call throws, otherwise the first inline part of the reply. */
  function TrendImage(data: TrendData, imageModel: (string, string) -> Outcome<GenerateResponse>): (r: Option<string>)
    ensures data.keyElements.None? ==> r.None?
    ensures data.keyElements.Some? ==>
      var call := imageModel(Interpolate(data.title), Join(data.keyElements.value, ", "));
      && (call.Throw? ==> r.None?)
      && (call.Normal? ==> r == FirstInlineImage(PartsOf(call.value)))
    ensures r.Some? ==> |r.value| >= 5 && r.value[..5] == "data:"
  {
    if data.keyElements.None? then None
    else match imageModel(Interpolate(data.title), Join(data.keyElements.value, ", "))
      case Throw(_) => None
      case Normal(response) => FirstInlineImage(PartsOf(response))
  }

  // ---------------------------------------------------------------------------
  // Response schemas
  // ---------------------------------------------------------------------------

  /** The subset of the response-schema language the client uses. */
  datatype Schema =
    | StringType(enumValues: Option<seq<string>>)
    | ArrayType(items: Schema)
    | ObjectType(properties: seq<Property>, required: seq<string>)

  datatype Property = Property(name: string, schema: Schema)

  const ItemSchema: Schema := ObjectType(
    [ Property("category", StringType(Some(
        [Label(Top), Label(Bottom), Label(Outerwear), Label(Shoes),
         Label(Accessory), Label(OnePiece), Label(Innerwear), Label(Other)]))),
      Property("name", StringType(None)),
      Property("color", StringType(None)),
      Property("material", StringType(None)),
      Property("description", StringType(None)),
      Property("styleTip", StringType(None)) ],
    ["category", "name", "color", "material", "description", "styleTip"])

  const AnalysisSchema: Schema := ObjectType(
    [ Property("items", ArrayType(ItemSchema)),
      Property("overallStyle", StringType(None)),
      Property("occasion", StringType(None)),
      Property("colorPalette", ArrayType(StringType(None))) ],
    ["items", "overallStyle", "occasion", "colorPalette"])

  const TrendSchema: Schema := ObjectType(
    [ Property("title", StringType(None)),
      Property("description", StringType(None)),
      Property("keyElements", ArrayType(StringType(None))) ],
    ["title", "description", "keyElements"])

  /** The property names of an object schema. */
  function PropertyNames(s: Schema): seq<string>
    requires s.ObjectType?
  {
    seq(|s.properties|, i requires 0 <= i < |s.properties| => s.properties[i].name)
  }

  /** Every property of the object schema is required, in declaration order, and
      nothing else is. */
  predicate AllRequired(s: Schema)
    requires s.ObjectType?
  {
    PropertyNames(s) == s.required
  }

  /** The enum of the `category` property. */
  function CategoryEnum(): (labels: seq<string>)
    ensures |labels| == 8
  {
    ItemSchema.properties[0].schema.enumValues.value
  }

  /** The category enum lists every category label, each exactly once, and nothing
      that does not read back as a category. */
  lemma CategoryEnumComplete()
    ensures forall c: ItemCategory :: Label(c) in CategoryEnum()
    ensures forall i, j :: 0 <= i < j < |CategoryEnum()| ==> CategoryEnum()[i] != CategoryEnum()[j]
    ensures forall k :: 0 <= k < |CategoryEnum()| ==> CategoryOf(CategoryEnum()[k]).Some?
  {
  }

  /** In all three schemas every declared field is required. */
  lemma SchemasRequireEveryField()
    ensures AllRequired(ItemSchema)
    ensures AllRequired(AnalysisSchema)
    ensures AllRequired(TrendSchema)
  {
  }
}
