/** The records the application passes around (types.ts). A TypeScript `T | null`
    field becomes an Option<T>. */
module Types {
  import opened Wrappers

  /** The eight clothing categories. Their labels are the localized strings the
      analysis schema and every persisted history record use. */
  datatype ItemCategory = Top | Bottom | Outerwear | Shoes | Accessory | OnePiece | Innerwear | Other

  /** The string value of each enum member. */
  function Label(c: ItemCategory): string
  {
    match c
    case Top => "上装"
    case Bottom => "下装"
    case Outerwear => "外套"
    case Shoes => "鞋履"
    case Accessory => "配饰"
    case OnePiece => "连体衣"
    case Innerwear => "内衣/内搭"
    case Other => "其他"
  }

  /** Reads a label back into its category; None for any other string. */
  function CategoryOf(text: string): Option<ItemCategory>
  {
    if text == "上装" then Some(Top)
    else if text == "下装" then Some(Bottom)
    else if text == "外套" then Some(Outerwear)
    else if text == "鞋履" then Some(Shoes)
    else if text == "配饰" then Some(Accessory)
    else if text == "连体衣" then Some(OnePiece)
    else if text == "内衣/内搭" then Some(Innerwear)
    else if text == "其他" then Some(Other)
    else None
  }

  /** Labels and categories are in one-to-one correspondence: a string reads back
      as category `c` exactly when it is `c`'s text. */
  lemma LabelRoundTrip(text: string, c: ItemCategory)
    ensures CategoryOf(text) == Some(c) <==> Label(c) == text
  {
  }

  datatype OutfitItem = OutfitItem(
    category: ItemCategory,
    name: string,
    color: string,
    material: string,
    description: string,
    styleTip: string)

  datatype AnalysisResult = AnalysisResult(
    items: seq<OutfitItem>,
    overallStyle: string,
    occasion: string,
    colorPalette: seq<string>)

  /** The browser `File` an upload came from; only its media type is used. */
  datatype FileRef = FileRef(name: string, mimeType: string)

  datatype ImageState = ImageState(
    file: Option<FileRef>,
    previewUrl: Option<string>,
    base64: Option<string>)

  datatype HistoryItem = HistoryItem(
    id: string,
    timestamp: int,
    imageState: ImageState,
    result: AnalysisResult,
    decompositionImage: Option<string>)

  /** A trend record is built by spreading the parsed model reply, so the three
      text fields are only present when the reply carried them. */
  datatype TrendResult = TrendResult(
    title: Option<string>,
    description: Option<string>,
    keyElements: Option<seq<string>>,
    imageUrl: Option<string>)

  datatype ViewMode = Analyzer | Wardrobe | Trends

  /** An error value as the code inspects it: `name`, `code` and `message` may each
      be missing. */
  datatype JsError = JsError(name: Option<string>, code: Option<int>, message: Option<string>)

  /** The outcome of an awaited call that may throw a JsError. */
  type Outcome<T> = Completion<T, JsError>

  /** JavaScript truthiness of a `string | null`: present and non-empty. */
  predicate Truthy(s: Option<string>)
  {
    s.Some? && s.value != ""
  }
}
