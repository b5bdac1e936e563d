/** The browser-side handler of one image card (`ImageHandler` in the
    JavaScript front end): the search filter over the image's search words
    and the selection toggle. The page is reduced to which of the elements
    the handler looks up exist. */
module ImageHandlers {
  import opened Wrappers
  import opened Strings

  /** The characters JavaScript's `String.prototype.trim` removes: white
      space and line terminators. */
  const JsWhitespace: set<char> := {
    '\t', '\n', '\U{0B}', '\U{0C}', '\r', ' ', '\U{A0}', '\U{1680}',
    '\U{2000}', '\U{2001}', '\U{2002}', '\U{2003}', '\U{2004}', '\U{2005}',
    '\U{2006}', '\U{2007}', '\U{2008}', '\U{2009}', '\U{200A}',
    '\U{2028}', '\U{2029}', '\U{202F}', '\U{205F}', '\U{3000}', '\U{FEFF}'
  }

  const LabelUnselect := "<i class=\"fas fa-toggle-on\"></i> Unselect"
  const LabelSelect := "<i class=\"fas fa-toggle-off\"></i> Select"

  datatype Handler = Handler(imageId: string, searchWords: seq<string>, selected: bool)

  /** The constructor: a new handler is not selected. */
  function NewHandler(imageId: string, searchWords: seq<string>): (h: Handler)
    ensures h.imageId == imageId && h.searchWords == searchWords
    ensures !h.selected
  {
    Handler(imageId, searchWords, false)
  }

  // ---------------------------------------------------------------------------
  // MatchesSearch
  // ---------------------------------------------------------------------------

  /** The search string as compared: lowercased, then trimmed. */
  function Normalize(search: string): string
  {
    Trim(ToLower(search), JsWhitespace)
  }

  /** The search string holds nothing but white space. */
  predicate Blank(search: string)
  {
    forall k :: 0 <= k < |search| ==> search[k] in JsWhitespace
  }

  /** What a search is meant to select: a blank search selects every image,
      any other one the images one of whose words holds the normalized
      search string somewhere. */
  ghost predicate Matches(h: Handler, search: string)
  {
    Blank(search) || exists i, k :: 0 <= i < |h.searchWords| && OccursAt(h.searchWords[i], Normalize(search), k)
  }

  /** Trimming leaves nothing exactly when every character is trimmed. */
  lemma {:induction false} TrimEmpty(s: string, cs: set<char>)
    ensures |Trim(s, cs)| == 0 <==> forall k :: 0 <= k < |s| ==> s[k] in cs
  {
    var l := TrimLeft(s, cs);
    assert |l| > 0 ==> l[0] == s[|s| - |l|];
    if |TrimRight(l, cs)| == 0 {
      assert |l| == 0;
    }
  }

  /** Lowercasing maps white space to white space and nothing else to it. */
  lemma LowerKeepsWhitespace(c: char)
    ensures LowerChar(c) in JsWhitespace <==> c in JsWhitespace
  {
    if 'A' <= c <= 'Z' {
      assert 'a' <= LowerChar(c) <= 'z';
    }
  }

  /** A search is blank exactly when its normalized form is empty. */
  lemma {:induction false} BlankIffEmpty(search: string)
    ensures Blank(search) <==> |Normalize(search)| == 0
  {
    var lower := ToLower(search);
    TrimEmpty(lower, JsWhitespace);
    forall k | 0 <= k < |search| ensures search[k] in JsWhitespace <==> lower[k] in JsWhitespace {
      LowerKeepsWhitespace(search[k]);
    }
  }

  /** `MatchesSearch()`: normalizes the search string, accepts it when it
      is empty, and otherwise looks for a search word that includes it. */
  method MatchesSearch(h: Handler, search: string) returns (r: bool)
    ensures r <==> Matches(h, search)
  {
    var s := Normalize(search);
    BlankIffEmpty(search);
    if |s| == 0 {
      return true;
    }
    var i := 0;
    while i < |h.searchWords|
      invariant 0 <= i <= |h.searchWords|
      invariant forall j, k :: 0 <= j < i ==> !OccursAt(h.searchWords[j], s, k)
    {
      ContainsIff(h.searchWords[i], s);
      if Contains(h.searchWords[i], s) {
        return true;
      }
      i := i + 1;
    }
    return false;
  }

  /** An empty or white-space search matches every image. */
  lemma BlankMatchesAll(h: Handler, search: string)
    requires Blank(search)
    ensures Matches(h, search)
  {
  }

  /** Without search words only a blank search matches. */
  lemma NoWordsMatchOnlyBlank(h: Handler, search: string)
    requires |h.searchWords| == 0
    ensures Matches(h, search) <==> Blank(search)
  {
  }

  /** The search ignores the case of its ASCII letters. */
  lemma MatchesIgnoresCase(h: Handler, search: string)
    ensures Matches(h, search) <==> Matches(h, ToLower(search))
  {
    ToLowerIdempotent(search);
    BlankIffEmpty(search);
    BlankIffEmpty(ToLower(search));
  }

  /** A word that holds the normalized search string selects the image. */
  lemma WordContainingSearchMatches(h: Handler, search: string, i: int)
    requires 0 <= i < |h.searchWords|
    requires Contains(h.searchWords[i], Normalize(search))
    ensures Matches(h, search)
  {
    ContainsIff(h.searchWords[i], Normalize(search));
  }

  // ---------------------------------------------------------------------------
  // ToggleSelection
  // ---------------------------------------------------------------------------

  /** Which of the elements the handler looks up exist on the page: the
      image's wrapper and its selection button. */
  datatype Page = Page(hasWrapper: bool, hasButton: bool)

  /** What a toggle leaves behind: the handler, the label written into the
      button, the value passed to the selection callback, and the error
      thrown when an element is missing. */
  datatype ToggleOutcome = ToggleOutcome(handler: Handler, buttonLabel: Option<string>, notified: Option<bool>, error: Option<string>)

  /** The error `getDOMElement()` throws for a missing element. */
  function MissingElement(h: Handler): string
  {
    "ImageHandler: DOM element not found for selector [" + h.imageId + "]."
  }

  /** `ToggleSelection()`: flips the flag first, then marks the wrapper and
      relabels the button, then tells the callback the new state. A missing
      element stops it with an error after the flag has flipped. */
  function ToggleSelection(h: Handler, page: Page): (o: ToggleOutcome)
    ensures o.handler.selected == !h.selected
    ensures o.handler.imageId == h.imageId && o.handler.searchWords == h.searchWords
    ensures o.error.None? <==> page.hasWrapper && page.hasButton
    ensures o.error.Some? ==> o.notified.None? && o.error.value == MissingElement(h)
    ensures o.error.None? ==> o.notified == Some(o.handler.selected)
    ensures o.buttonLabel.Some? <==> o.error.None?
    ensures o.buttonLabel.Some? ==> (o.buttonLabel.value == LabelUnselect <==> o.handler.selected)
  {
    var flipped := h.(selected := !h.selected);
    if !page.hasWrapper || !page.hasButton then
      ToggleOutcome(flipped, None, None, Some(MissingElement(h)))
    else
      ToggleOutcome(flipped, Some(if flipped.selected then LabelUnselect else LabelSelect), Some(flipped.selected), None)
  }

  /** Toggling twice gives back the handler, and the callback hears both
      states in turn. */
  lemma ToggleTwice(h: Handler, page: Page)
    ensures ToggleSelection(ToggleSelection(h, page).handler, page).handler == h
    ensures page.hasWrapper && page.hasButton ==>
      ToggleSelection(h, page).notified == Some(!h.selected) && ToggleSelection(ToggleSelection(h, page).handler, page).notified == Some(h.selected)
  {
  }
}
