# Chat ViewFlex, modelled in Dafny

Chat ViewFlex is a browser extension that widens the conversation column of
chat web applications (Google Gemini, ChatGPT, Claude). Its content script
(`chat-viewflex.js`) works out which site the page belongs to. It holds a
fixed table of target descriptors: a tag name, classes, an enabled flag, an
optional custom matcher and an action. Every page element that a scan
reaches and that matches a target gets an inline style: `max-width` set to the current width in rem, a
fixed `50rem`, or the ChatGPT custom property `--thread-content-max-width`.
This happens once at start-up, for every node a mutation batch adds, and
again whenever the width changes. Its popup (`popup.js`) detects the site
from the active tab's URL, shows the width stored for that site (80 rem by
default), and saves a new width per site and sends it to the page.

The model:

- `wrappers.dfy`: `Option`.
- `strings.dfy`: `includes`, ASCII `toLowerCase`, the decimal text of a
  width, and `${w}rem` with its parser and round trip.
- `sites.dfy`: site detection. A reference classification (the first site
  in precedence order whose marker occurs) and the content script's own
  three-flag if-chain, proved equal.
- `dom.dfy`: the page as a flat sequence of nodes in document order, each
  naming its parent. The `tag.cls1.cls2` selector text, read back by a parser
  with a round-trip lemma. `querySelectorAll` as a filter over the nodes in
  scope.
- `rules.dfy`: the target table, `matchesCriteria`, and the actions as style
  writes. Lemmas cover match semantics, last-writer-wins, idempotence and
  enablement isolation.
- `scan.dfy`: specification functions for what the scans visit and what the
  styles and the counter become. Completeness lemmas show that the initial
  scan and a mutation batch reach every element matching a target they can
  reach, where a custom-matcher target reaches only `div` elements. A
  soundness lemma shows that they visit nothing outside the scanned scope.
  After `reapplyAllWidths`, each such element that matches a target writing
  the current width carries the new width, unless a later matching target in
  the table writes the same property: the last writer wins.
- `protocol.dfy`: the storage read, the `updateWidth` message, JavaScript
  truthiness of a width.
- `content_script.dfy`: class `Page`. It holds the nodes, their inline
  styles, `conversationWidth`, `totalModifications` and the log refreshes.
  The imperative handlers are proved against the functions of `scan.dfy`.
- `popup.dfy`: class `Popup`, holding the current site, the slider, the
  texts and the messages sent. The display-name lookup, the width fallback
  and the per-site merge are functions with lemmas relating them to what the
  page loads.

Behaviour the model keeps as the code has it:

- A target with no tag, no classes and no custom matcher matches every
  element (`Rules.UnselectableMatchesAll`). The scans never query for it
  (`Scan.UnselectableNotScanned`).
- A target with a custom matcher is looked for only among `div` elements
  (chat-viewflex.js:205, 258, 330). An element of another tag whose
  `className` carries the needle matches the target but is never found by
  a scan (`Scan.ScanComplete` and `Scan.BatchComplete` promise only
  reachable matches; `Scan.Reachable`).
- The initial scan and the mutation batch's subtree scans hand each element
  they find to `checkAndProcessNode`. That function runs every matching
  target's action, not only the queried one. So an element found by two
  targets' queries gets all matching actions twice, and `totalModifications`
  counts both rounds (`Scan.VisitCount` sums over visits). The final style
  is the same as after one visit (`Scan.RestyledConcat`,
  `Rules.StyledIdempotent`).
- `reapplyAllWidths` does not call `checkAndProcessNode`. For each target it
  runs only that target's action, once per element its query finds that
  matches it (`Scan.ActionOnEach`, `Scan.ReapplyCount`). An element matched
  by two targets is therefore counted twice there, not four times.
- Each site's targets are enabled by that site's own flag on the host name,
  not by the detected site. A host name that mentions two sites enables both
  tables (`Rules.RegistryEnablement`).
- The popup tests the whole URL and the page tests only its host name. A
  marker in the query string therefore makes them store and read different
  entries (`Popup.UrlAndHostCanDisagree`).
- In `saveSettings`, a failed tab query after a successful write still shows
  "Error saving!" (`Popup.Popup.SaveSettings`).

## Model

| member | source | states |
|---|---|---|
| Sites.HostSite | chat-viewflex.js:11-20 | The content script's three-flag detection equals the reference classification: the first of Gemini, ChatGPT, Claude whose marker occurs in the host name, else default. |
| Sites.ClassifyPrecedence | chat-viewflex.js:11-20 | Strict precedence, both directions: `gemini.google.com` gives gemini; else `chatgpt.com` or `openai.com` gives chatgpt; else `claude.ai` gives claude; else default. |
| Sites.UrlAgreesWithHost | chat-viewflex.js:11-14 | A URL that contains the host name and mentions no site the host name does not is classified like the host name. |
| Strings.ContainsIffOccurs | chat-viewflex.js:11-14 | `includes` holds exactly when the needle occurs at some position. |
| Strings.RemRoundTrip | chat-viewflex.js:52 | The text `${w}rem` reads back as `w`, for every integer width. |
| Strings.RemTextInjective | popup.js:79-81 | Different widths give different rem texts. |
| Dom.QuerySelectorAll | chat-viewflex.js:224 | Returns, in document order and without repeats, exactly the elements in scope that the parsed selector selects. |
| Dom.ParseRender | chat-viewflex.js:215-221 | The selector text `Render` builds, `tag.cls1.cls2`, parses back to the tag and the classes, in order, when no name contains a dot. |
| Dom.RenderEmpty | chat-viewflex.js:223 | The selector text is empty exactly when there is no tag and no class. |
| Dom.DivSelector | chat-viewflex.js:205 | The `div` query selects by tag `div` and no class. |
| Rules.MatchRequiresEnabledElement | chat-viewflex.js:146-152 | Under `MatchesCriteria`, the model of `matchesCriteria`, only an enabled target matches, and it matches only element nodes. |
| Rules.CustomMatcherDecides | chat-viewflex.js:154-157 | With a custom matcher, the tag and classes play no part: the result is the matcher alone, a non-empty `className` that includes the needle. |
| Rules.UnselectableMatchesAll | chat-viewflex.js:159-175 | An enabled target with no tag, no classes and no matcher matches every element. |
| Rules.SelectorAgreesWithMatcher | chat-viewflex.js:159-175 | For an enabled plain target, the element matches exactly when its built selector selects it: tag equal ignoring case, every class present. |
| Rules.ApplyAllOverrides | chat-viewflex.js:185-190 | `ApplyAction` (one target's action: `max-width` or `--thread-content-max-width`, set to the width in rem or a fixed value) run for each action in order leaves the old style overridden by each written property's last value, and nothing else changed. |
| Rules.ApplyAllIdempotent | chat-viewflex.js:185-190 | Running the same actions twice leaves the style they leave once. |
| Rules.MatchingActionsFromEnabled | chat-viewflex.js:185-189 | Every action run on a node belongs to an enabled target that matches it. |
| Rules.NoMatchNoActions | chat-viewflex.js:185-189 | A node no target matches gets no action. |
| Rules.StyledIdempotent | chat-viewflex.js:181-192 | Processing a node a second time does not change its style. |
| Rules.StyledByLastMatch | chat-viewflex.js:185-190 | A property ends with the value of the last matching target, in table order, that writes it. |
| Rules.StyledKeepsOthers | chat-viewflex.js:185-190 | A property no matching target writes keeps its old presence and value. |
| Rules.Registry | chat-viewflex.js:45-143 | The six descriptors, in table order, each enabled by its own site's flag. |
| Rules.RegistryEnablement | chat-viewflex.js:45-143 | Entry k is enabled exactly when its owning site is mentioned in the host name. When only that site is mentioned, it is also the detected site. |
| Rules.RegistryActions | chat-viewflex.js:45-143 | The ChatGPT entry writes `--thread-content-max-width` with the current width and is the only one with a custom matcher. `userQueryBubble` writes a fixed `50rem` max-width. The others write the current width as max-width. |
| Rules.RegistryWellFormed | chat-viewflex.js:45-143 | No name in any entry contains `.`, so every selector built from the table reads back as its tag and classes. Each entry has a tag, a class or a matcher. |
| Scan.Candidates | chat-viewflex.js:249-296 | A target's scan yields nodes of the page, in document order and without repeats. |
| Scan.CandidatesInScope | chat-viewflex.js:255-296 | Every candidate lies in the scanned scope: the whole document, or the added node's subtree. |
| Scan.ScanVisitsSound | chat-viewflex.js:249-303 | A scan visits only nodes in scope, each found by the query of some table entry. |
| Scan.AnyMatchedIffCounted | chat-viewflex.js:310-363 | The batch flag is set exactly when some action ran, that is when the counter grew. |
| Scan.RestyledConcat | chat-viewflex.js:259-261 | Visiting a list of nodes and then another gives the styles of one pass over both. Repeated visits do not change the final styles. |
| Scan.RestyledAgain | chat-viewflex.js:181-192 | Processing an already processed node again leaves its style as after the first time. |
| Scan.CandidatesExact | chat-viewflex.js:255-296 | An element matching a reachable target is among its candidates. For a plain target, every candidate matches. |
| Scan.ScanComplete | chat-viewflex.js:249-303 | The initial scan visits every element in scope that matches a reachable enabled target. For a custom matcher, reachable means a `div`. |
| Scan.BatchComplete | chat-viewflex.js:309-361 | A mutation batch visits every node added by a `childList` record. For an added element, it also visits every descendant that matches a reachable target. |
| Scan.DisabledNotScanned | chat-viewflex.js:249-253 | A disabled target is skipped before any query. |
| Scan.UnselectableNotScanned | chat-viewflex.js:279-287 | A target with no tag, classes or matcher is skipped: no query runs for it. |
| Scan.ReappliedStep | chat-viewflex.js:197-231 | reapplyAllWidths handles the targets in table order, each on the elements its query finds. |
| Scan.ReapplyConverges | chat-viewflex.js:195-232 | After reapplyAllWidths, an element matching a reachable target whose action writes the current width carries the new width in rem, unless a later matching target writes the same property. |
| Scan.ReapplyLeavesOthers | chat-viewflex.js:195-232 | Properties no matching target writes are left untouched by reapplyAllWidths. |
| Scan.ReapplyIsStyled | chat-viewflex.js:195-232 | For plain, selectable targets, reapplyAllWidths leaves the same styles as processing every node once. |
| Protocol.StoredEntry | chat-viewflex.js:24-25 | An entry is used exactly when the read succeeded and the settings hold a truthy value under the site's key, and the entry used is that stored value. |
| ContentScript.Page.constructor | chat-viewflex.js:7-20 | Start-up: the detected site, the table for the host name, width 80, counter 0. |
| ContentScript.Page.RunAction | chat-viewflex.js:51-58 | An action writes exactly one property of one element and adds exactly 1 to the counter. |
| ContentScript.Page.CheckAndProcessNode | chat-viewflex.js:181-192 | Runs every matching target's action in table order, adds one to the counter per action, and returns true iff some target matched. A non-element is left alone and gives false. |
| ContentScript.Page.ProcessEach | chat-viewflex.js:259-261 | Processes each given element in turn: styles, counter and flag as specified by the visits. |
| ContentScript.Page.ScanTarget | chat-viewflex.js:249-302 | One target's part of a scan, as specified by `Candidates`. |
| ContentScript.Page.ScanAll | chat-viewflex.js:249-303 | Every target's part of a scan, in table order, as specified by `ScanVisits`. |
| ContentScript.Page.UpdateLog | chat-viewflex.js:235-243 | The log is refreshed with the current counter. |
| ContentScript.Page.InitialScanAndModify | chat-viewflex.js:246-306 | The whole-document scan, then exactly one log refresh. |
| ContentScript.Page.ProcessAddedNode | chat-viewflex.js:313-358 | An added node, then, for an element, its matching descendants target by target. |
| ContentScript.Page.ProcessAddedNodes | chat-viewflex.js:313-359 | The added nodes of one record, in order. |
| ContentScript.Page.MutationCallback | chat-viewflex.js:309-365 | Processes every `childList` record's added nodes and subtrees. It refreshes the log at most once, and exactly when something matched. |
| ContentScript.Page.ActOnEach | chat-viewflex.js:224-229 | Applies the target's action to each queried element that matches it, counting each. |
| ContentScript.Page.ReapplyTarget | chat-viewflex.js:197-231 | One target's part of reapplyAllWidths: skipped when disabled, every `div` for a custom matcher, nothing for an empty selector, else its query. |
| ContentScript.Page.ReapplyAllWidths | chat-viewflex.js:195-232 | Restyles the page as specified by `Reapplied` and counts `ReapplyCount` modifications. |
| ContentScript.Page.OnMessage | chat-viewflex.js:37-43 | Only an `updateWidth` message changes the width, to the message's width, and reapplies it. Any other message changes nothing. |
| ContentScript.Page.OnStoredSettings | chat-viewflex.js:23-34 | A truthy stored entry for the site becomes the width and is reapplied. A missing or falsy entry, or a failed read, changes nothing. |
| Popup.UrlSiteId | popup.js:16-26 | The popup's URL if-chain gives the id of the reference classification of the URL. |
| Popup.UrlAndHostCanDisagree | popup.js:18-26 | A Claude page whose URL carries `chatgpt.com` in its query is `chatgpt` to the popup but `claude` to the page. |
| Popup.DisplayNames | popup.js:49-59 | `DisplayName`, the `siteNames` lookup with its `'default'` fallback, shows the four ids under their fixed names and any other id as "Unknown Site". |
| Popup.DisplayNameInjective | popup.js:50-55 | Different sites show different names. |
| Popup.LoadedWidthAgreesWithPage | popup.js:63-75 | `LoadedWidth`, the width `loadSettings` shows, is the width the page would load: a truthy entry, otherwise 80. A missing map or a failed read also gives 80. |
| Popup.MergedSettings | popup.js:96-100 | The merged settings hold the old keys plus the site. |
| Popup.MergeIsolation | popup.js:97-100 | Saving sets the site's entry to the width and leaves every other site's entry, present or absent, unchanged. |
| Popup.SaveThenLoad | popup.js:96-103 | A saved width is what the popup loads next for that site (80 when it is 0) and what the page picks up. Other sites load what they did before. |
| Popup.Popup.constructor | popup.js:11 | The site starts as `'default'`. |
| Popup.Popup.UpdateSiteDisplay | popup.js:49-60 | Shows the current site's display name. |
| Popup.Popup.UpdateWidthDisplay | popup.js:79-81 | Shows the width followed by `rem`, which reads back as the width. |
| Popup.Popup.LoadSettings | popup.js:63-76 | Sets the slider and the width text to the loaded width. |
| Popup.Popup.OnTabsQueried | popup.js:14-46 | The first tab's URL (or `''`) decides the site. With no tab or a failed query, the site stays as it was. Both paths show the name and load the width. |
| Popup.Popup.SaveSettings | popup.js:92-123 | On a successful read and write, stores the merged settings and sends `{action: 'updateWidth', width}` to the first tab. A failed read, write or tab query ends in "Error saving!". The send's outcome changes nothing. |

## Left out

- Browser APIs (`storage.sync`, `runtime.onMessage`, `tabs.query`, `tabs.sendMessage`) and their promise chains: the methods take what each promise delivered as parameters.
- `MutationObserver` construction, `observe` and the `DOMContentLoaded` wiring: `MutationCallback` takes the batch of records explicitly.
- The real CSS selector engine: `querySelectorAll` is a filter over the nodes for compound selectors `tag.cls…`. Names containing `.` are not given a meaning, so the `try`/`catch` around queries has nothing to catch.
- Document order is the order of node indices; a node's descendants are the nodes whose parent chain reaches it.
- The page's own changes to its nodes: the nodes are fixed and only the inline styles change.
- `classList` and `className` are independent fields; their consistency on a real element is not modelled. `className` is a plain string (no SVG animated strings).
- `toLowerCase` folds ASCII letters only.
- `console` output, the text of the `#log` element and the observer status it shows: `UpdateLog` records only the counter value written.
- Popup UI: element lookups, slider and preset handlers, `parseInt` of form values, and `showStatus`'s two-second clearing timer.
- ContentScript.Page.OnMessage: the width is an integer; a non-numeric or NaN width in a message is not modelled.
- Strings.RemText: widths and `totalModifications` are taken as integers below 10^21 in magnitude and exactly representable. JavaScript numbers are doubles: exponent notation such as `1e+21rem`, fractional widths and the loss of precision above 2^53 are not modelled.
- Rules.Writable: excludes only names containing `.`. Names that are not CSS identifiers (empty, or holding `:`, `#`, `[` or spaces) make the browser's query throw, which only the initial scan catches; the table has no such names, and the throw is not modelled.
- Popup.LoadedWidthAgreesWithPage: stored widths are integers; non-numeric stored values are not modelled.
- Popup.Popup.SaveSettings: the outcome of `tabs.sendMessage` is not a parameter, because the code swallows its failure and nothing depends on it.
- JavaScript prototype keys (`siteNames['constructor']` and the like) are not modelled: `currentSite` only ever holds one of the four ids.
