/** The analyzer screen's state and its transitions (`handleImageSelected`,
    `handleReset`, `handleSelectHistory` and `isContentActive` in App.tsx). An
    asynchronous handler is modelled by the state it leaves once every awaited call
    has settled; the two remote calls are parameters. */
module Analyzer {
  import opened Wrappers
  import opened Types
  import opened HistoryStore
  import GeminiService

  /** The message shown when an analysis fails. */
  const AnalysisFailedMessage := "分析图片失败，请重试或更换一张清晰的照片。"

  const EmptyImage := ImageState(None, None, None)

  /** Everything App holds: the active view, the analyzer's fields, the in-memory
      wardrobe and the contents of its storage slot. */
  datatype AppState = AppState(
    view: ViewMode,
    image: ImageState,
    result: Option<AnalysisResult>,
    decomposition: Option<string>,
    analyzing: bool,
    error: Option<string>,
    history: seq<HistoryItem>,
    storage: seq<HistoryItem>)

  /** The state after mounting: no image and no outcome, so the upload section is
      shown, and the wardrobe is whatever the slot holds. */
  function Mounted(storage: seq<HistoryItem>): (s: AppState)
    ensures s.image == EmptyImage && s.decomposition.None?
    ensures !IsContentActive(s.image)
    ensures s.history == s.storage == storage
    ensures s.view == Analyzer && !s.analyzing && s.error.None? && s.result.None?
  {
    AppState(Analyzer, EmptyImage, None, None, false, None, storage, storage)
  }

  /** The screen is coherent: the wardrobe agrees with its slot, and an error, when
      shown, is the failure message and is not shown next to a result. */
  predicate Coherent(s: AppState)
  {
    && s.storage == s.history
    && (s.error.Some? ==> s.error == Some(AnalysisFailedMessage) && s.result.None? && s.decomposition.None?)
  }

  /** `isContentActive`: an image (or its preview) is loaded. While an image is
      being analyzed the upload section stays hidden; in the empty state it is shown. */
  predicate IsContentActive(image: ImageState)
    ensures WillAnalyze(image) ==> IsContentActive(image)
    ensures image == EmptyImage ==> !IsContentActive(image)
  {
    Truthy(image.base64) || Truthy(image.previewUrl)
  }

  /** The guard of the analysis: a non-empty encoding and the file it came from. */
  predicate WillAnalyze(image: ImageState)
  {
    Truthy(image.base64) && image.file.Some?
  }

  /** The state while the remote calls are outstanding: the new image is shown and
      every earlier result and error is gone, so no partial outcome is visible. */
  function BeginImageSelection(s: AppState, newState: ImageState): (r: AppState)
    ensures r.view == Analyzer && r.image == newState
    ensures r.result.None? && r.decomposition.None? && r.error.None?
    ensures r.analyzing == (WillAnalyze(newState) || s.analyzing)
    ensures r.history == s.history && r.storage == s.storage
  {
    var cleared := s.(image := newState, result := None, decomposition := None,
                      error := None, view := Analyzer);
    if WillAnalyze(newState) then cleared.(analyzing := true) else cleared
  }

  /** `Promise.all` of the analysis and the decomposition image: the join fails when
      either call fails, with the error of a failed call, and otherwise carries both
      values. When both fail, the analysis error is the one kept. */
  function JoinBoth(analysis: Outcome<AnalysisResult>, decomposition: Outcome<Option<string>>): (r: Outcome<(AnalysisResult, Option<string>)>)
    ensures r.Throw? <==> analysis.Throw? || decomposition.Throw?
    ensures decomposition.Normal? ==> (r.Throw? <==> analysis.Throw?)
    ensures r.Throw? ==>
      || (analysis.Throw? && r.error == analysis.error)
      || (decomposition.Throw? && r.error == decomposition.error)
    ensures r.Normal? ==> r.value == (analysis.value, decomposition.value)
  {
    match analysis
    case Throw(e) => Throw(e)
    case Normal(result) =>
      match decomposition
      case Throw(e) => Throw(e)
      case Normal(image) => Normal((result, image))
  }

  /** With the service client plugged in, the joint call fails exactly when the
      analysis call does, whatever the image-generation model does. */
  lemma JointFailureIsAnalysisFailure(
    base64: string,
    mimeType: string,
    textModel: GeminiService.InlineRequest -> Outcome<GeminiService.GenerateResponse>,
    parse: string -> Outcome<AnalysisResult>,
    imageModel: GeminiService.InlineRequest -> Outcome<GeminiService.GenerateResponse>)
    ensures var analysis := GeminiService.AnalyzeOutfit(base64, mimeType, textModel, parse);
      var joint := JoinBoth(analysis, Normal(GeminiService.GenerateDecompositionImage(base64, mimeType, imageModel)));
      && (joint.Throw? <==> analysis.Throw?)
      && (joint.Normal? ==> joint.value.1.None? || joint.value.1.value[..5] == "data:")
  {
  }

  /** handleImageSelected: shows the new image and clears the old outcome; when the
      image can be analyzed, runs both remote calls together, shows their joint
      result and saves a history record, or shows the failure message and saves
      nothing. */
  method HandleImageSelected(
    s: AppState,
    newState: ImageState,
    analyze: (string, string) -> Outcome<AnalysisResult>,
    decompose: (string, string) -> Option<string>,
    id: string,
    timestamp: int,
    compress: string -> string,
    write: seq<HistoryItem> -> WriteResult)
    returns (r: AppState)
    ensures r.view == Analyzer && r.image == newState
    ensures !WillAnalyze(newState) ==> r == BeginImageSelection(s, newState)
    ensures WillAnalyze(newState) ==> !r.analyzing
    ensures WillAnalyze(newState) ==>
      var base64, mimeType := newState.base64.value, newState.file.value.mimeType;
      var analysis := analyze(base64, mimeType);
      && (analysis.Throw? ==>
            && r.error == Some(AnalysisFailedMessage)
            && r.result.None? && r.decomposition.None?
            && r.history == s.history && r.storage == s.storage)
      && (analysis.Normal? ==>
            && r.error.None?
            && r.result == Some(analysis.value)
            && r.decomposition == decompose(base64, mimeType)
            && var stored := OptimizeItem(HistoryItem(id, timestamp, newState, analysis.value, decompose(base64, mimeType)), compress);
               || (r.history == s.history && r.storage == s.storage)
               || (&& 1 <= |r.history| <= |s.history| + 1
                   && r.history[0] == stored
                   && r.history[1..] == s.history[..|r.history| - 1]))
    ensures s.storage == s.history ==> r.storage == r.history
    ensures Coherent(s) ==> Coherent(r)
  {
    r := BeginImageSelection(s, newState);
    if WillAnalyze(newState) {
      var base64, mimeType := newState.base64.value, newState.file.value.mimeType;
      var joint := JoinBoth(analyze(base64, mimeType), Normal(decompose(base64, mimeType)));
      match joint {
        case Throw(_) =>
          r := r.(error := Some(AnalysisFailedMessage));
        case Normal((result, decompImage)) =>
          r := r.(result := Some(result), decomposition := decompImage);
          var item := HistoryItem(id, timestamp, newState, result, decompImage);
          var newHistory, newStorage, _, _ := SaveToHistory(r.history, r.storage, item, compress, write);
          r := r.(history := newHistory, storage := newStorage);
      }
      r := r.(analyzing := false);
    }
  }

  /** handleReset: back to the upload screen, with the wardrobe, the view and the
      loading flag left alone. */
  function HandleReset(s: AppState): (r: AppState)
    ensures r.image == EmptyImage
    ensures !IsContentActive(r.image) && r.image.file.None?
    ensures r.result.None? && r.decomposition.None? && r.error.None?
    ensures r.view == s.view && r.analyzing == s.analyzing
    ensures r.history == s.history && r.storage == s.storage
  {
    s.(image := EmptyImage, result := None, decomposition := None, error := None)
  }

  /** handleSelectHistory: shows a stored record on the analyzer screen. The error
      and the loading flag are not touched, so an error left by an earlier failed
      analysis stays on screen. */
  function HandleSelectHistory(s: AppState, item: HistoryItem): (r: AppState)
    ensures r.view == Analyzer && r.image == item.imageState
    ensures r.result == Some(item.result) && r.decomposition == item.decompositionImage
    ensures r.error == s.error && r.analyzing == s.analyzing
    ensures r.history == s.history && r.storage == s.storage
  {
    s.(image := item.imageState, result := Some(item.result),
       decomposition := item.decompositionImage, view := Analyzer)
  }

  /** A stored record shows as active content exactly when its source image was
      present and compressed to a non-empty string: its preview is that string. */
  lemma StoredRecordIsActive(s: AppState, item: HistoryItem, compress: string -> string)
    ensures IsContentActive(HandleSelectHistory(s, OptimizeItem(item, compress)).image)
      <==> Truthy(item.imageState.base64) && compress(item.imageState.base64.value) != ""
  {
  }

  /** Mounting, starting a selection and resetting all leave the screen coherent. */
  lemma TransitionsKeepCoherence(s: AppState, newState: ImageState, storage: seq<HistoryItem>)
    requires Coherent(s)
    ensures Coherent(Mounted(storage))
    ensures Coherent(BeginImageSelection(s, newState))
    ensures Coherent(HandleReset(s))
  {
  }

  /** Selecting a history record keeps the screen coherent exactly when no error is
      shown: an error left by a failed analysis then stays next to the record's result. */
  lemma SelectHistoryCoherence(s: AppState, item: HistoryItem)
    requires Coherent(s)
    ensures Coherent(HandleSelectHistory(s, item)) <==> s.error.None?
  {
  }
}
