# Rocket vote: selection reducer and vote tally

This project models the two halves of a small voting kiosk.

- The index page script (static/js/app.js). The visitor picks exactly three of
  twelve grid items. Each picked item occupies one of three rocket blocks, and
  it always takes the lowest free block. Clicking a picked grid item, or its
  rocket block, removes it again. The grid buttons, the rocket block texts and
  the launch button are redrawn from the selection after every change. The
  script also keeps the current language, a per-language cache of
  translation tables and the document's text direction. A launch click sends
  a preview request and a vote, and it re-enables the button if the vote
  fails.
- The Flask server (app.py). A vote adds one to each chosen item and one to
  the ballot count `totalvotes`, starting from an all-zero table when no
  votes file exists yet. A preview applies the same increments to a copy and
  leaves the ballot count alone. Before drawing a word cloud the server drops
  the ballot count and decides between a blank image and a cloud. It also
  builds the word-frequency table from the translated item names and picks
  the file path and the font.

Layout:

- `wrappers.dfy` (module `Wrappers`): `Option`.
- `translations.dfy` (module `Translations`): the translation table type, shared by the page and the server.
- `selection.dfy` (module `Selection`): the selection as a value.
  - The functions `ToggleItem` (a grid click) and `ToggleSlot` (a rocket block
    click) are what the page's handlers do to `selectedItems`.
  - `ValidSelection` is the invariant: at most three entries, distinct keys,
    and distinct blocks in 0..2.
  - The lemmas state what the handlers promise.
  - `Run` replays a whole click sequence.
- `app.dfy` (module `App`): class `Page` holds the script's module-level
  state and the parts of the DOM the handlers write.
  - Its methods are the handlers, and each is proved against the `Selection`
    functions.
  - Network replies are parameters: `FetchResponse` for a translation file
    and `VoteResponse` for `/submit-vote`.
- `votes.dfy` (module `Votes`): the default table and the `/submit-vote` and
  `/preview-wordcloud` updates. The votes file is a parameter (`None` when it
  does not exist), and the table to write back is part of the reply.
- `wordcloud.dfy` (module `Wordcloud`): everything generate_wordcloud
  decides before it draws.

Behaviour the model follows from the code:

- Changing language does not request a new preview or a regeneration on the
  index page (static/js/app.js:218-223). Only the document attributes, the
  translations and the rocket block texts change.
- `currentLanguage` is set before the translation file is fetched, so it
  changes even when the fetch fails (static/js/app.js:209-213).
- A rocket block shows nothing for an item whose translation is missing or
  empty, because the script tests the translation's truthiness
  (static/js/app.js:102).
- A selection that names `"totalvotes"` itself is counted like any other key
  that is in the table (app.py:50-55). `Votes.SubmitVote` states this
  exactly.

## Model

| member | source | states |
|---|---|---|
| Selection.ToggleItem | static/js/app.js:151-176 | a grid click on a selected key removes one entry; on a full selection without the key it changes nothing; under the invariant a click on an unselected key with fewer than three selected adds one entry |
| Selection.ToggleItemTouchesOnlyKey | static/js/app.js:151-176 | a grid click keeps every entry with another key, and any new entry has the clicked key and a block of 0..2 that was free |
| Selection.ToggleSlot | static/js/app.js:182-194 | a block click removes exactly one entry when the block is occupied and none otherwise |
| Selection.ToggleSlotTouchesOnlySlot | static/js/app.js:182-194 | a block click adds nothing and keeps every entry in another block |
| Selection.RemoveAt | static/js/app.js:157 | `splice(i, 1)`, here and in the block handler at line 190, leaves one entry fewer with the others in their order |
| Selection.RemoveAtMembers | static/js/app.js:157 | `splice(i, 1)` brings in nothing new and keeps every entry but the i-th |
| Selection.GridButton | static/js/app.js:113-130 | a grid button is `selected` exactly when some entry has its key, never both `selected` and `disabled`, and `disabled` only when three are selected |
| Selection.LaunchEnabled | static/js/app.js:140 | under the invariant the launch button is enabled exactly when every rocket block is taken |
| Selection.Translation | static/js/app.js:102 | a non-empty text always comes from the table under that key, and a key in the table shows its text |
| Selection.SlotText | static/js/app.js:88-106 | an unoccupied block shows nothing, and any text a block shows is the translation of an entry in that block |
| Selection.FindIndex | static/js/app.js:153 | `findIndex`: the index of the first entry satisfying the predicate, with no earlier one satisfying it, or -1 exactly when none does |
| Selection.FirstFree | static/js/app.js:162-166 | the block search stops at the first index from the start that is not used, or at 3 when 0..2 are all used |
| App.NextRocketIndex | static/js/app.js:162-166 | the `while` loop returns an index in 0..3; every index below it is used, and it is not used unless it is 3 |
| Selection.FirstFreeUnique | static/js/app.js:162-166 | the block search has exactly one possible answer, so the loop and the function agree |
| Selection.FreeSlotExists | static/js/app.js:160-174 | with fewer than three valid entries the search finds a free block below 3, so the `rocketIndex < 3` guard never drops a selection |
| Selection.FullSelectionUsesAllSlots | static/js/app.js:140 | a valid selection of three entries occupies blocks 0, 1 and 2 |
| Selection.LaunchEnabledIffSlotsFull | static/js/app.js:136-149 | the launch button is enabled exactly when all three rocket blocks are occupied |
| Selection.FindKey | static/js/app.js:153 | looking up a key finds its entry exactly when some entry has that key |
| Selection.FindSlot | static/js/app.js:184-186 | looking up a block finds its occupant exactly when the block is occupied |
| Selection.RemoveAtKeepsValid | static/js/app.js:157 | `splice(i, 1)` of a valid selection is valid |
| Selection.AppendKeepsValid | static/js/app.js:169-173 | pushing a new key in a free block below 3 onto a selection of fewer than three keeps it valid |
| Selection.RemoveAtKeepsOthers | static/js/app.js:157 | `splice(i, 1)` adds no key and keeps the block of every other entry occupied |
| Selection.ToggleSelectedRemoves | static/js/app.js:153-157 | clicking a selected item removes its entry and nothing else; the key is then unselected |
| Selection.ToggleUnselectedAppends | static/js/app.js:159-174 | clicking an unselected item while fewer than three are selected appends it at the end |
| Selection.ToggleAppendsLowestFree | static/js/app.js:162-173 | the appended entry takes the lowest block not used by the others |
| Selection.ToggleWhenFullIsNoOp | static/js/app.js:158-160 | clicking an unselected item when three are selected changes nothing |
| Selection.ToggleItemKeepsValid | static/js/app.js:151-176 | a grid click keeps the selection valid: at most three entries, distinct keys, distinct blocks in 0..2 |
| Selection.GridClickFlipsSelected | static/js/app.js:113-130 | a click on a disabled grid button changes nothing; a click on any other grid button flips its `selected` flag |
| Selection.FreedSlotIsReused | static/js/app.js:151-176 | on a full selection, removing one item and then choosing a new one puts the new item into the freed block, appended after the remaining entries |
| Selection.ToggleSlotRemovesOccupant | static/js/app.js:182-194 | the selection stays valid and the block ends up empty: an occupied block loses exactly its occupant, and a click on an empty block changes nothing |
| Selection.SlotTextIsOccupant | static/js/app.js:88-106 | after redrawing, a block shows its occupant's translation, or nothing when the block is empty or the translation is missing or empty |
| Selection.RunKeepsValid | static/js/app.js:151-194 | any sequence of grid and block clicks keeps the selection valid |
| Selection.RunSnoc | static/js/app.js:151-194 | replaying clicks then one more is replaying the clicks and applying the last one |
| Selection.SlotsFillInOrder | static/js/app.js:160-174 | clicking up to three distinct items from an empty selection puts them in blocks 0, 1, 2 in click order |
| Selection.RefillFreedSlot | static/js/app.js:153-174 | choosing a, b, c, removing b and then choosing d puts d into b's block 1 while c keeps block 2 |
| App.Direction | static/js/app.js:196-199 | the direction is `rtl` exactly for Hebrew and Arabic, and `ltr` for every other language, including unknown ones |
| App.WordcloudImagePath | static/js/app.js:255-259 | the page's image URL for a language is "/" followed by the file path the server writes for that language |
| App.Resolve | static/js/app.js:13-26 | loadTranslations yields nothing exactly when the language is not cached and the fetch fails; a cached table wins over the response; otherwise it is the loaded table |
| App.Page.constructor | static/js/app.js:1-4 | empty selection, cache and translations; the stored language, or `en` when none is stored; launch disabled |
| App.Page.UpdateLaunchButtonState | static/js/app.js:136-149 | the button is disabled exactly when the selection does not hold three items |
| App.Page.UpdateGridStates | static/js/app.js:108-134 | every grid button is `selected` exactly when its key is selected, and `disabled` exactly when it is unselected and three are selected; the launch button is updated too |
| App.Page.UpdateRocketBlocks | static/js/app.js:88-106 | every block is cleared, then each occupied block shows its occupant's translation when it is non-empty |
| App.Page.HandleGridItemClick | static/js/app.js:151-180 | the selection becomes the grid-click toggle of the old one, stays valid, and the page is redrawn from it |
| App.Page.HandleRocketBlockClick | static/js/app.js:182-194 | the selection becomes the block-click toggle of the old one; the page is redrawn only when the block was occupied, and otherwise nothing changes |
| App.Page.SetLanguageAttributes | static/js/app.js:196-205 | the document's `lang` is the language and its `dir` is the language's direction |
| App.Page.LoadTranslations | static/js/app.js:13-26 | a cached table is returned without a fetch; otherwise the fetched table is returned and cached; a failed fetch returns nothing and caches nothing |
| App.Page.SetLanguage | static/js/app.js:207-227 | the current language is set even when loading fails; on success the attributes and translations follow the language and the blocks are redrawn; on failure they are unchanged |
| App.Page.HandleLaunchButtonClick | static/js/app.js:319-370 | without three items nothing is sent; with three, a preview and then a vote for the selected keys are sent; a failed vote re-enables the button; an accepted one navigates to its redirect; the selection never changes |
| Votes.DefaultVotes | app.py:41-47 | with no votes file the table holds item1..item12 and totalvotes, all at zero |
| Votes.AddSelections | app.py:49-52 | each key already in the table gains one per occurrence in the selection; no key is added |
| Votes.SubmitVote | app.py:28-64 | a vote is rejected with 400 exactly when it does not name three items; otherwise the items are counted, the ballot count is one more than before (0 when absent), and the reply redirects to /wordcloud |
| Votes.PreviewWordcloud | app.py:66-98 | same rejection; otherwise a copy with the same item increments, the same keys, and the ballot count unchanged |
| Votes.LoadVotes | app.py:37-47 | the stored table when the votes file exists, else the default table |
| Wordcloud.ItemName | app.py:163 | an item's word is its translation, or "Item " followed by its key when it has none |
| Wordcloud.FallbackNamesDiffer | app.py:163 | two different untranslated items never share a word |
| Wordcloud.VoteCounts | app.py:138-139 | the item counts are the table without `totalvotes`, with every other count unchanged |
| Wordcloud.SumOverRemove | app.py:141 | the sum of the counts does not depend on the order in which keys are taken |
| Wordcloud.SumValues | app.py:141 | the loop computes the sum of all counts |
| Wordcloud.SumOfNonNegative | app.py:141 | non-negative counts sum to zero exactly when every count is zero |
| Wordcloud.WordFrequencies | app.py:157-164 | every word is the translated name of an item with a positive count; every such item's name is present; the table is empty exactly when no count is positive |
| Wordcloud.WordcloudPath | app.py:126-131 | the image path is `static/wordcloud/wordcloud_` followed by the language and `.png` |
| Wordcloud.WordcloudPathIsInjective | app.py:126-131 | two languages never share an image file |
| Wordcloud.FontFor | app.py:173-181 | EzerEuro for Hebrew and English, Cairo for Arabic, and no font for any other language |
| Wordcloud.GenerateWordcloud | app.py:133-200 | the output is written to the language's path; it is blank exactly when the counts sum to zero or none is positive; otherwise it is a cloud of the named frequencies in the language's font |
| Wordcloud.BlankIffNoVotes | app.py:141-170 | for a table without negative counts, the image is blank exactly when every item count is zero |

## Left out

- The text wrapping of `formatTextForBox`, including its `trim()`: a rocket block is modelled by the text it is given.
- `applyTranslations` on the page's other translated elements, and `updateLanguageButtonStates`: they only restyle the DOM.
- Writes to `localStorage`: the stored language is a constructor parameter.
- Asynchrony. Each network call is one reply passed as a parameter, so overlapping requests are not modelled. This covers the preview, commit and regenerate calls and `updateWordcloudImage` with its `Date.now` cache-busting.
- The wordcloud page: `isWordcloudPage` is taken as false, the model is the index page, and the launch button is taken to exist.
- `alert` and console logging.
- The `DOMContentLoaded` wiring: the listener's `!launchButton.disabled` guard is not modelled, and `HandleLaunchButtonClick` checks the selection size itself.
- JavaScript prototype-chain lookups: a language or item key such as `constructor` is treated as absent from the tables.
- `parseInt` of the block's `data-index`: the handler takes the parsed integer.
- Reading and writing the votes file and the translation files, and malformed JSON: the stored table is a parameter.
- The Flask routing and `regenerate_wordcloud`.
- `generate_wordcloud_all_languages` and the fallback to the English translation file: the translation table is a parameter of `GenerateWordcloud`.
- The drawing itself with PIL and WordCloud, including image sizes, colours and margins.
- Wordcloud.WordFrequencies: does not say which count a word carries when two items share a translated name, because the dictionary iteration order is modelled as any order.
- Clicks during a pending request. Each handler is one atomic step, but the script awaits inside `handleLaunchButtonClick` (static/js/app.js:343, 356) and `setLanguage` (static/js/app.js:213), and grid and block clicks still run meanwhile.
- The launch race this hides, not executed: select three items and click launch, then deselect one grid item while the vote is pending (static/js/app.js:157, 146). If the vote then fails, static/js/app.js:366 enables the button with two items selected. So "launch enabled exactly when three are selected" does not always hold in the program, and the failure path of `App.Page.HandleLaunchButtonClick` keeps `Rendered()` only because the model is atomic.
- Block numbering: `updateRocketBlocks` addresses blocks by their position in the document (static/js/app.js:89, 101), while `handleRocketBlockClick` reads `data-index` (static/js/app.js:183). The model uses one array for both, so it assumes the two numberings agree.
- The request body of `/submit-vote` and `/preview-wordcloud`: the server reads `data.get('items', [])` (app.py:31-32, 69-70), so a missing field becomes the empty list and a three-character string is iterated character by character. The model takes a list of keys and shows neither case.
- The optional `output_path` argument of `generate_wordcloud` (app.py:133-136): the image always goes to the language's path.
- Integer width: Python integers are unbounded, so the counts need no wrap-around.
