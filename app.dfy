/**
 * The module-level state of static/js/app.js on the index page and the
 * handlers that change it: the selection, the DOM state derived from it
 * (grid button flags, rocket block texts, the launch button), the
 * translation cache, the current language and the document's direction.
 *
 * Network responses are parameters: a translation fetch either loads a
 * table or fails, a vote submission either succeeds with a redirect or
 * fails. The DOM is reduced to what the handlers write into it.
 */
module App {
  import opened Wrappers
  import opened Translations
  import opened Selection
  import Wordcloud

  /** `langDirections`: the text direction of each known language. */
  const LangDirections: map<string, string> := map["en" := "ltr", "he" := "rtl", "ar" := "rtl"]

  /** `langDirections[lang] || "ltr"`: right-to-left for Hebrew and Arabic, left-to-right for everything else. */
  function Direction(lang: string): (dir: string)
    ensures dir == "rtl" <==> lang == "he" || lang == "ar"
    ensures dir == "ltr" <==> !(lang == "he" || lang == "ar")
  {
    if lang in LangDirections then LangDirections[lang] else "ltr"
  }

  /**
   * `getWordcloudImagePath`: where the page loads the wordcloud for a
   * language from, which is the file the server writes for that language,
   * as an absolute URL path.
   */
  function WordcloudImagePath(language: string): (url: string)
    ensures url == "/" + Wordcloud.WordcloudPath(language)
  {
    "/static/wordcloud/wordcloud_" + language + ".png"
  }

  /**
   * The search loop of handleGridItemClick: starting from 0, step past every
   * index in `used`, stopping at 3 at the latest.
   */
  method NextRocketIndex(used: seq<int>) returns (rocketIndex: int)
    ensures 0 <= rocketIndex <= MaxSelections
    ensures forall n :: 0 <= n < rocketIndex ==> n in used
    ensures rocketIndex < MaxSelections ==> rocketIndex !in used
  {
    rocketIndex := 0;
    while rocketIndex in used && rocketIndex < MaxSelections
      invariant 0 <= rocketIndex <= MaxSelections
      invariant forall n :: 0 <= n < rocketIndex ==> n in used
      decreases MaxSelections - rocketIndex
    {
      rocketIndex := rocketIndex + 1;
    }
  }

  /** The outcome of `fetch('/translations/{lang}.json')` and its JSON parse. */
  datatype FetchResponse = Loaded(table: Table) | LoadFailed

  /** The outcome of the POST to /submit-vote: a 2xx reply with its `redirect` field ("" when absent), or any failure. */
  datatype VoteResponse = VoteAccepted(redirect: string) | VoteFailed

  /** A request the page sends to the server. */
  datatype Request =
    | PreviewRequest(items: seq<string>, language: string)
    | VoteRequest(items: seq<string>)

  /** What the user sees after a launch click. */
  datatype LaunchOutcome =
    | Ignored            // fewer or more than three selected: nothing happens
    | Navigated(path: string)
    | StayedDisabled     // accepted, but the reply named no redirect
    | ShowedError        // the alert, with the button enabled again

  /** The table loadTranslations resolves to: the cached one, else the fetched one, else none. */
  function Resolve(cache: map<string, Table>, lang: string, response: FetchResponse): (r: Option<Table>)
    ensures r.None? <==> lang !in cache && response.LoadFailed?
    ensures lang in cache ==> r == Some(cache[lang])
    ensures r.Some? && lang !in cache ==> response == Loaded(r.value)
  {
    if lang in cache then Some(cache[lang])
    else if response.Loaded? then Some(response.table)
    else None
  }

  class Page {
    /** `selectedItems`. */
    var selectedItems: seq<Entry>
    /** `currentTranslations`. */
    var currentTranslations: Table
    /** `translationsCache`: tables loaded so far, by language. */
    var translationsCache: map<string, Table>
    /** `currentLanguage`. */
    var currentLanguage: string
    /** The `lang` and `dir` attributes of the document element. */
    var documentLang: string
    var documentDir: string
    /** `launchButton.disabled`. */
    var launchDisabled: bool
    /** The `data-key` of each grid button, in document order. */
    const gridKeys: seq<string>
    /** The `selected`/`disabled` classes of each grid button. */
    const gridButtons: array<ButtonState>
    /** The text shown in each rocket block ("" when cleared), by `data-index`. */
    const rocketBlocks: array<string>

    ghost predicate Valid()
      reads this
    {
      ValidSelection(selectedItems) && gridButtons.Length == |gridKeys|
    }

    /** The grid buttons and the launch button show the selection. */
    ghost predicate GridShown()
      reads this, gridButtons
    {
      && gridButtons.Length == |gridKeys|
      && (forall i :: 0 <= i < |gridKeys| ==> gridButtons[i] == GridButton(selectedItems, gridKeys[i]))
      && launchDisabled == !LaunchEnabled(selectedItems)
    }

    /** Every rocket block shows what the selection puts there in the current language. */
    ghost predicate RocketBlocksShown()
      reads this, rocketBlocks
    {
      forall b :: 0 <= b < rocketBlocks.Length ==> rocketBlocks[b] == SlotText(selectedItems, currentTranslations, b)
    }

    /** The display equals what the selection and the current translations derive. */
    ghost predicate Rendered()
      reads this, gridButtons, rocketBlocks
    {
      GridShown() && RocketBlocksShown()
    }

    /**
     * A freshly loaded index page: nothing selected, every grid button
     * enabled, the rocket blocks empty and the launch button disabled; the
     * language is the stored one, or "en" when none is stored ("").
     */
    constructor (keys: seq<string>, blockCount: nat, storedLanguage: string)
      ensures Valid() && Rendered()
      ensures selectedItems == [] && gridKeys == keys && rocketBlocks.Length == blockCount
      ensures translationsCache == map[] && currentTranslations == map[]
      ensures currentLanguage == if storedLanguage == "" then "en" else storedLanguage
      ensures launchDisabled
    {
      selectedItems := [];
      currentTranslations := map[];
      translationsCache := map[];
      currentLanguage := if storedLanguage == "" then "en" else storedLanguage;
      documentLang, documentDir := "", "";
      launchDisabled := true;
      gridKeys := keys;
      gridButtons := new ButtonState[|keys|](_ => ButtonState(false, false));
      rocketBlocks := new string[blockCount](_ => "");
    }

    /** updateLaunchButtonState: enabled exactly when three items are selected. */
    method UpdateLaunchButtonState()
      modifies this`launchDisabled
      ensures launchDisabled == !LaunchEnabled(selectedItems)
    {
      var hasThreeSelections := |selectedItems| == MaxSelections;
      launchDisabled := !hasThreeSelections;
    }

    /** updateGridStates: every grid button's flags from the selection, then the launch button. */
    method UpdateGridStates()
      requires Valid()
      modifies gridButtons, this`launchDisabled
      ensures GridShown()
    {
      var isMaxSelected := |selectedItems| >= MaxSelections;
      var i := 0;
      while i < gridButtons.Length
        invariant 0 <= i <= gridButtons.Length
        invariant forall j :: 0 <= j < i ==> gridButtons[j] == GridButton(selectedItems, gridKeys[j])
      {
        var key := gridKeys[i];
        var isSelected := key in Keys(selectedItems);
        if isSelected {
          gridButtons[i] := ButtonState(true, false);
        } else {
          gridButtons[i] := ButtonState(false, isMaxSelected);
        }
        i := i + 1;
      }
      UpdateLaunchButtonState();
    }

    /** updateRocketBlocks: clear every block, then write each entry's translation into its block. */
    method UpdateRocketBlocks()
      modifies rocketBlocks
      ensures RocketBlocksShown()
    {
      var b := 0;
      while b < rocketBlocks.Length
        invariant 0 <= b <= rocketBlocks.Length
        invariant forall j :: 0 <= j < b ==> rocketBlocks[j] == ""
      {
        rocketBlocks[b] := "";
        b := b + 1;
      }
      var k := 0;
      while k < |selectedItems|
        invariant 0 <= k <= |selectedItems|
        invariant forall j :: 0 <= j < rocketBlocks.Length ==>
          rocketBlocks[j] == SlotText(selectedItems[..k], currentTranslations, j)
      {
        var item := selectedItems[k];
        var text := Translation(currentTranslations, item.key);
        if 0 <= item.rocketIndex < rocketBlocks.Length && text != "" {
          rocketBlocks[item.rocketIndex] := text;
        }
        assert selectedItems[..k + 1][..k] == selectedItems[..k];
        k := k + 1;
      }
      assert selectedItems[..|selectedItems|] == selectedItems;
    }

    /** handleGridItemClick: toggle `key`, then redraw the rocket blocks and the grid. */
    method HandleGridItemClick(key: string)
      requires Valid()
      modifies this`selectedItems, this`launchDisabled, gridButtons, rocketBlocks
      ensures Valid() && Rendered()
      ensures selectedItems == ToggleItem(old(selectedItems), key)
    {
      var existingIndex := FindIndex(selectedItems, HasKey(key));
      if existingIndex != -1 {
        selectedItems := selectedItems[..existingIndex] + selectedItems[existingIndex + 1..];
      } else if |selectedItems| < MaxSelections {
        var usedIndices := Slots(selectedItems);
        var rocketIndex := NextRocketIndex(usedIndices);
        FirstFreeUnique(usedIndices, rocketIndex);
        if rocketIndex < MaxSelections {
          selectedItems := selectedItems + [Entry(key, rocketIndex)];
        }
      }
      ToggleItemKeepsValid(old(selectedItems), key);
      UpdateRocketBlocks();
      UpdateGridStates();
    }

    /** handleRocketBlockClick: free the slot `index` if an entry occupies it, and redraw only then. */
    method HandleRocketBlockClick(index: int)
      requires Valid()
      modifies this`selectedItems, this`launchDisabled, gridButtons, rocketBlocks
      ensures Valid()
      ensures selectedItems == ToggleSlot(old(selectedItems), index)
      ensures index in Slots(old(selectedItems)) ==> Rendered()
      ensures index !in Slots(old(selectedItems)) ==>
        unchanged(gridButtons, rocketBlocks) && launchDisabled == old(launchDisabled)
    {
      FindSlot(selectedItems, index);
      ToggleSlotRemovesOccupant(selectedItems, index);
      var existingIndex := FindIndex(selectedItems, InSlot(index));
      if existingIndex != -1 {
        selectedItems := selectedItems[..existingIndex] + selectedItems[existingIndex + 1..];
        UpdateRocketBlocks();
        UpdateGridStates();
      }
    }

    /** setLanguageAttributes: the document's `lang` and its text direction. */
    method SetLanguageAttributes(lang: string)
      modifies this`documentLang, this`documentDir
      ensures documentLang == lang && documentDir == Direction(lang)
    {
      var direction := Direction(lang);
      documentLang := lang;
      documentDir := direction;
    }

    /**
     * loadTranslations: a cached table is returned without fetching; otherwise
     * the response decides, and only a loaded table is stored in the cache.
     */
    method LoadTranslations(lang: string, response: FetchResponse) returns (r: Option<Table>, fetched: bool)
      modifies this`translationsCache
      ensures r == Resolve(old(translationsCache), lang, response)
      ensures fetched <==> lang !in old(translationsCache)
      ensures translationsCache ==
        if !fetched || response.LoadFailed? then old(translationsCache)
        else old(translationsCache)[lang := response.table]
    {
      if lang in translationsCache {
        return Some(translationsCache[lang]), false;
      }
      fetched := true;
      match response
      case LoadFailed =>
        r := None;
      case Loaded(data) =>
        translationsCache := translationsCache[lang := data];
        r := Some(data);
    }

    /**
     * setLanguage: record the language, load its table and, when that
     * succeeds, set the document attributes and show the new texts. When the
     * load fails the language is still recorded but nothing else changes.
     */
    method SetLanguage(lang: string, response: FetchResponse)
      requires Valid()
      modifies this`currentLanguage, this`translationsCache, this`documentLang, this`documentDir,
               this`currentTranslations, rocketBlocks
      ensures Valid()
      ensures currentLanguage == lang
      ensures translationsCache ==
        if lang in old(translationsCache) || response.LoadFailed? then old(translationsCache)
        else old(translationsCache)[lang := response.table]
      ensures Resolve(old(translationsCache), lang, response).Some? ==>
        && currentTranslations == Resolve(old(translationsCache), lang, response).value
        && documentLang == lang && documentDir == Direction(lang)
        && RocketBlocksShown()
      ensures Resolve(old(translationsCache), lang, response).None? ==>
        && currentTranslations == old(currentTranslations)
        && documentLang == old(documentLang) && documentDir == old(documentDir)
        && unchanged(rocketBlocks)
      ensures old(Rendered()) ==> Rendered()
    {
      currentLanguage := lang;
      var translations, _ := LoadTranslations(lang, response);
      if translations.Some? {
        SetLanguageAttributes(lang);
        currentTranslations := translations.value;
        UpdateRocketBlocks();
      }
    }

    /**
     * handleLaunchButtonClick: with three items selected, disable the button,
     * send the preview and the vote with the keys in selection order, then
     * follow the redirect or, on failure, enable the button again. The
     * selection is never changed.
     */
    method HandleLaunchButtonClick(response: VoteResponse) returns (sent: seq<Request>, outcome: LaunchOutcome)
      requires Valid()
      modifies this`launchDisabled
      ensures |selectedItems| != MaxSelections ==>
        sent == [] && outcome == Ignored && launchDisabled == old(launchDisabled)
      ensures |selectedItems| == MaxSelections ==>
        sent == [PreviewRequest(Keys(selectedItems), currentLanguage), VoteRequest(Keys(selectedItems))]
      ensures |selectedItems| == MaxSelections && response.VoteFailed? ==>
        outcome == ShowedError && !launchDisabled
      ensures |selectedItems| == MaxSelections && response.VoteAccepted? ==>
        launchDisabled &&
        outcome == if response.redirect != "" then Navigated(response.redirect) else StayedDisabled
      ensures outcome == Ignored || outcome == ShowedError ==> (old(Rendered()) ==> Rendered())
    {
      if |selectedItems| != MaxSelections {
        return [], Ignored;
      }
      launchDisabled := true;
      var selectedKeys := Keys(selectedItems);
      sent := [PreviewRequest(selectedKeys, currentLanguage)];
      sent := sent + [VoteRequest(selectedKeys)];
      match response
      case VoteFailed =>
        launchDisabled := false;
        outcome := ShowedError;
      case VoteAccepted(redirect) =>
        outcome := if redirect != "" then Navigated(redirect) else StayedDisabled;
    }
  }
}
