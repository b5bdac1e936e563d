/** The property bag of an image record (`ImageProperties`): an open map of
    generation settings and flags read through typed getters, written
    through setters that each notify the owning record once. */
module Properties {
  import opened Wrappers
  import opened Strings

  const KeyTestName := "testName"
  const KeyTestNumber := "testNumber"
  const KeySeed := "seed"
  const KeyFolderName := "folder"
  const KeyImgBatchNr := "imgBatchNr"
  const KeyFavorite := "favorite"
  // Keys read by getters whose code is not part of the model (see README).
  const KeyForGallery := "forGallery"
  const KeyUpscaledImage := "upscaledImage"
  const KeyCfg := "cfg"
  const KeyPromptPositive := "prompt"
  const KeyPromptNegative := "negativePrompt"
  const KeySampler := "sampler"
  const KeySamplerSteps := "steps"
  const KeyScheduler := "scheduler"

  /** A decoded JSON scalar; integers have PHP's 64-bit range. */
  datatype PropValue = PStr(s: string) | PInt(i: PhpInt) | PBool(b: bool)

  type PropData = map<string, PropValue>

  /** `ArrayDataCollection::getString`: strings as they are, integers as
      their decimal text, anything else (and a missing key) as "". */
  function GetString(d: PropData, k: string): (r: string)
    ensures k !in d ==> r == ""
    ensures k in d && d[k].PStr? ==> r == d[k].s
    ensures k in d && d[k].PInt? ==> r != "" && PhpIntCast(r) == d[k].i && IsIntegerString(r)
    ensures k in d && d[k].PBool? ==> r == ""
  {
    if k !in d then ""
    else match d[k]
      case PStr(s) => s
      case PInt(i) => IntCastRoundTrip(i); IntToString(i)
      case PBool(_) => ""
  }

  /** `ArrayDataCollection::getInt`: integers as they are, integer-shaped
      strings cast, anything else (and a missing key) as 0. */
  function GetInt(d: PropData, k: string): (r: PhpInt)
    ensures k !in d ==> r == 0
    ensures k in d && d[k].PInt? ==> r == d[k].i
    ensures k in d && d[k].PStr? && IsIntegerString(d[k].s) ==> r == PhpIntCast(d[k].s)
    ensures k in d && d[k].PStr? && !IsIntegerString(d[k].s) ==> r == 0
  {
    if k !in d then 0
    else match d[k]
      case PInt(i) => i
      case PStr(s) => if IsIntegerString(s) then PhpIntCast(s) else 0
      case PBool(_) => 0
  }

  /** `(string)` of a numeric getter such as `getCFG()`: integers and
      integer-shaped strings as the decimal text of their value; other
      non-empty strings, the fractional numbers, as they are written; a
      missing key, a boolean or an empty string as the text of zero. */
  function GetNumberText(d: PropData, k: string): (r: string)
    ensures r != ""
    ensures k !in d ==> r == "0"
    ensures k in d && d[k].PInt? ==> r == IntToString(d[k].i)
    ensures k in d && d[k].PStr? && IsIntegerString(d[k].s) ==> r == IntToString(PhpIntCast(d[k].s))
    ensures k in d && d[k].PStr? && !IsIntegerString(d[k].s) && d[k].s != "" ==> r == d[k].s
  {
    if k !in d then "0"
    else match d[k]
      case PInt(i) => IntToString(i)
      case PStr(s) => if IsIntegerString(s) then IntToString(PhpIntCast(s)) else if s == "" then "0" else s
      case PBool(_) => "0"
  }

  /** `ArrayDataCollection::getBool`, on stored booleans. */
  function GetBool(d: PropData, k: string): (r: bool)
    ensures r <==> k in d && d[k] == PBool(true)
  {
    k in d && d[k] == PBool(true)
  }

  datatype ImageProperties = ImageProperties(data: PropData)
  {
    function GetSeed(): int { GetInt(data, KeySeed) }
    function GetFolderName(): string { GetString(data, KeyFolderName) }
    function GetTestNumber(): int { GetInt(data, KeyTestNumber) }
    function GetTestName(): string { GetString(data, KeyTestName) }
    function GetBatchNumber(): int { GetInt(data, KeyImgBatchNr) }
    function IsFavorite(): bool { GetBool(data, KeyFavorite) }
    function IsForGallery(): bool { GetBool(data, KeyForGallery) }
    function GetCfg(): string { GetNumberText(data, KeyCfg) }
    function GetPromptPositive(): string { GetString(data, KeyPromptPositive) }
    function GetPromptNegative(): string { GetString(data, KeyPromptNegative) }
    function GetSampler(): string { GetString(data, KeySampler) }
    function GetSamplerSteps(): int { GetInt(data, KeySamplerSteps) }
    function GetScheduler(): string { GetString(data, KeyScheduler) }

    /** The id of the upscaled version this image is linked to, if any. */
    function GetUpscaledImage(): (r: Option<string>)
      ensures r.Some? ==> r.value != ""
    {
      var s := GetString(data, KeyUpscaledImage);
      if s == "" then None else Some(s)
    }

    /** `serialize()`: the stored data as it is. */
    function Serialize(): (r: PropData)
      ensures forall k :: k in r <==> k in data
      ensures forall k :: k in r ==> r[k] == data[k]
    {
      data
    }
  }

  /** The result of a setter: the new properties and how many times the
      owner's modified callback ran. */
  datatype Update = Update(props: ImageProperties, callbacks: nat)

  /** `setKey`: store the value, then run the modified callback. */
  function SetKey(p: ImageProperties, name: string, value: PropValue): (u: Update)
    ensures u.callbacks == 1
    ensures name in u.props.data && u.props.data[name] == value
    ensures u.props.data.Keys == p.data.Keys + {name}
    ensures forall k :: k in p.data && k != name ==> u.props.data[k] == p.data[k]
  {
    Update(ImageProperties(p.data[name := value]), 1)
  }

  function SetFavorite(p: ImageProperties, favorite: bool): (u: Update)
    ensures u.callbacks == 1 && u.props.IsFavorite() == favorite
  {
    SetKey(p, KeyFavorite, PBool(favorite))
  }

  function SetForGallery(p: ImageProperties, forGallery: bool): (u: Update)
    ensures u.callbacks == 1 && u.props.IsForGallery() == forGallery
  {
    SetKey(p, KeyForGallery, PBool(forGallery))
  }

  function SetFolderName(p: ImageProperties, name: string): (u: Update)
    ensures u.callbacks == 1 && u.props.GetFolderName() == name
  {
    SetKey(p, KeyFolderName, PStr(name))
  }

  function SetUpscaledImage(p: ImageProperties, id: string): (u: Update)
    ensures u.callbacks == 1
    ensures u.props.GetUpscaledImage() == if id == "" then None else Some(id)
  {
    SetKey(p, KeyUpscaledImage, PStr(id))
  }

  /** `setFavorite($b)` followed by `serialize()` holds `favorite => $b`,
      and every other entry as before. */
  lemma SetFavoriteSerialize(p: ImageProperties, b: bool)
    ensures var s := SetFavorite(p, b).props.Serialize();
      KeyFavorite in s && s[KeyFavorite] == PBool(b)
      && forall k :: k in p.data && k != KeyFavorite ==> k in s && s[k] == p.data[k]
  {
  }

  /** The getters read back what the setters wrote, and a setter leaves
      every getter of another key as it was. */
  lemma SettersAreIndependent(p: ImageProperties, b: bool, name: string)
    ensures SetFavorite(p, b).props.GetFolderName() == p.GetFolderName()
    ensures SetFavorite(p, b).props.GetSeed() == p.GetSeed()
    ensures SetFavorite(p, b).props.IsForGallery() == p.IsForGallery()
    ensures SetForGallery(p, b).props.IsFavorite() == p.IsFavorite()
    ensures SetFolderName(p, name).props.IsFavorite() == p.IsFavorite()
    ensures SetFolderName(p, name).props.GetSeed() == p.GetSeed()
    ensures SetFolderName(p, name).props.GetTestName() == p.GetTestName()
  {
  }

  /** The LoRA reference catalog: which property keys are LoRA ids, and how
      the summary of their weights is written. */
  datatype LoRACatalog = LoRACatalog(ids: set<string>, summarize: PropData -> string)

  /** The LoRA entries of a property bag. */
  function LoRAEntries(p: ImageProperties, cat: LoRACatalog): (r: PropData)
    ensures forall k :: k in r <==> k in p.data && k in cat.ids
    ensures forall k :: k in r ==> r[k] == p.data[k]
  {
    map k | k in p.data && k in cat.ids :: p.data[k]
  }

  /** `getLoRASummary()` */
  function GetLoRASummary(p: ImageProperties, cat: LoRACatalog): string
  {
    cat.summarize(LoRAEntries(p, cat))
  }

  /** The LoRA summary depends on the LoRA entries only. */
  lemma LoRASummaryLocal(p: ImageProperties, q: ImageProperties, cat: LoRACatalog)
    requires forall k :: k in cat.ids ==> (k in p.data <==> k in q.data)
    requires forall k :: k in cat.ids && k in p.data ==> p.data[k] == q.data[k]
    ensures GetLoRASummary(p, cat) == GetLoRASummary(q, cat)
  {
    assert LoRAEntries(p, cat) == LoRAEntries(q, cat);
  }
}
