/**
 * The target table of the content script (chat-viewflex.js:45-143), the
 * predicate that decides whether an element is a target (matchesCriteria,
 * chat-viewflex.js:146-176) and the style writes the targets' actions make.
 */
module Rules {
  import opened Wrappers
  import opened Strings
  import opened Sites
  import opened Dom

  /** The only kind of custom matcher: `className` is non-empty and includes `needle`. */
  datatype Matcher = ClassNameContains(needle: string)

  /** What an action writes: the current width in rem, or a fixed text. */
  datatype StyleValue = CurrentWidth | Literal(text: string)

  /** An action writes one inline style property and counts one modification. */
  datatype Action = SetStyle(property: string, value: StyleValue)

  /**
   * A target descriptor. An empty `tagName` stands for an absent one and an
   * empty `classes` for absent classes: the source treats both alike.
   */
  datatype Target = Target(
    name: string,
    tagName: string,
    classes: seq<string>,
    enabled: bool,
    customMatcher: Option<Matcher>,
    action: Action)

  function CustomMatches(m: Matcher, n: Node): bool {
    |n.className| > 0 && Contains(n.className, m.needle)
  }

  /** `matchesCriteria(element, target)`. */
  predicate MatchesCriteria(n: Node, t: Target) {
    if !IsElement(n) then false
    else if !t.enabled then false
    else if t.customMatcher.Some? then CustomMatches(t.customMatcher.value, n)
    else if t.tagName != "" && ToLower(n.tagName) != ToLower(t.tagName) then false
    else forall c :: c in t.classes ==> c in n.classList
  }

  /** A target with no tag, no classes and no custom matcher. */
  predicate Unselectable(t: Target) {
    t.tagName == "" && t.classes == [] && t.customMatcher.None?
  }

  /** The selector the scans build for a plain target: `tag.cls1.cls2`. */
  function SelectorOf(t: Target): Selector {
    Compound(t.tagName, t.classes)
  }

  /**
   * No name of the target contains `.`, so the selector text built from them
   * reads back as the same tag and classes. This is weaker than being a CSS
   * identifier: the browser's query would throw on other names too.
   */
  predicate Writable(t: Target) {
    DotFree(t.tagName) && forall c :: c in t.classes ==> DotFree(c)
  }

  // ---------------------------------------------------------------- matching

  /** A disabled target never matches, and a non-element is never matched. */
  lemma MatchRequiresEnabledElement(n: Node, t: Target)
    requires MatchesCriteria(n, t)
    ensures IsElement(n) && t.enabled
  {
  }

  /** An enabled unselectable target matches every element. */
  lemma UnselectableMatchesAll(n: Node, t: Target)
    requires Unselectable(t) && t.enabled && IsElement(n)
    ensures MatchesCriteria(n, t)
  {
  }

  /** With a custom matcher, the tag and classes play no part. */
  lemma CustomMatcherDecides(n: Node, t: Target, tag: string, classes: seq<string>)
    requires t.customMatcher.Some?
    ensures MatchesCriteria(n, t) == MatchesCriteria(n, t.(tagName := tag, classes := classes))
    ensures MatchesCriteria(n, t) ==
      (IsElement(n) && t.enabled && |n.className| > 0 && Contains(n.className, t.customMatcher.value.needle))
  {
  }

  /**
   * For an enabled plain target, the element matches exactly when the selector
   * built from the target, as read by the selector engine, selects it.
   */
  lemma SelectorAgreesWithMatcher(n: Node, t: Target)
    requires t.enabled && t.customMatcher.None? && Writable(t)
    ensures SelectorMatches(Parse(Render(SelectorOf(t))), n) <==> MatchesCriteria(n, t)
  {
    ParseRender(SelectorOf(t));
  }

  // ---------------------------------------------------------------- actions

  function ValueText(v: StyleValue, width: int): string {
    match v
    case CurrentWidth => RemText(width)
    case Literal(text) => text
  }

  /** `action(element)` on the element's style. */
  function ApplyAction(a: Action, width: int, style: Style): Style {
    style[a.property := ValueText(a.value, width)]
  }

  /** Every property the actions write, with the value of the last write. */
  function Writes(acts: seq<Action>, width: int): Style {
    if acts == [] then map[]
    else Writes(acts[..|acts| - 1], width)[acts[|acts| - 1].property := ValueText(acts[|acts| - 1].value, width)]
  }

  /** The actions applied one after another. */
  function ApplyAll(acts: seq<Action>, width: int, style: Style): Style {
    if acts == [] then style
    else ApplyAction(acts[|acts| - 1], width, ApplyAll(acts[..|acts| - 1], width, style))
  }

  /** Applying actions overrides the old style with their writes and nothing else. */
  lemma {:induction false} ApplyAllOverrides(acts: seq<Action>, width: int, style: Style)
    ensures ApplyAll(acts, width, style) == style + Writes(acts, width)
    decreases |acts|
  {
    if acts != [] {
      ApplyAllOverrides(acts[..|acts| - 1], width, style);
    }
  }

  /** Applying the same actions twice leaves the style they leave once. */
  lemma ApplyAllIdempotent(acts: seq<Action>, width: int, style: Style)
    ensures ApplyAll(acts, width, ApplyAll(acts, width, style)) == ApplyAll(acts, width, style)
  {
    ApplyAllOverrides(acts, width, style);
    ApplyAllOverrides(acts, width, ApplyAll(acts, width, style));
    var w := Writes(acts, width);
    assert (style + w) + w == style + w;
  }

  /**
   * The property of action `k` holds action `k`'s value when no later action
   * writes that property; a property no action writes is absent.
   */
  lemma {:induction false} WritesLastWriter(acts: seq<Action>, width: int, k: int)
    requires 0 <= k < |acts|
    requires forall j :: k < j < |acts| ==> acts[j].property != acts[k].property
    ensures acts[k].property in Writes(acts, width)
    ensures Writes(acts, width)[acts[k].property] == ValueText(acts[k].value, width)
    decreases |acts|
  {
    if k < |acts| - 1 {
      WritesLastWriter(acts[..|acts| - 1], width, k);
    }
  }

  lemma {:induction false} WritesOnlyWritten(acts: seq<Action>, width: int, p: string)
    requires forall j :: 0 <= j < |acts| ==> acts[j].property != p
    ensures p !in Writes(acts, width)
    decreases |acts|
  {
    if acts != [] {
      WritesOnlyWritten(acts[..|acts| - 1], width, p);
    }
  }

  /** The actions of the targets whose `pick` entry is set, in table order. */
  function Picked(targets: seq<Target>, pick: seq<bool>): (acts: seq<Action>)
    requires |pick| == |targets|
    ensures |acts| <= |targets|
  {
    if targets == [] then []
    else
      var last := targets[|targets| - 1];
      Picked(targets[..|targets| - 1], pick[..|pick| - 1]) + (if pick[|pick| - 1] then [last.action] else [])
  }

  /** One more target: when picked, its action runs after the earlier ones and counts once more. */
  lemma PickedStep(targets: seq<Target>, pick: seq<bool>, width: int, style: Style, k: int)
    requires |pick| == |targets| && 0 <= k < |targets|
    ensures |Picked(targets[..k + 1], pick[..k + 1])| == |Picked(targets[..k], pick[..k])| + (if pick[k] then 1 else 0)
    ensures ApplyAll(Picked(targets[..k + 1], pick[..k + 1]), width, style) ==
      if pick[k] then ApplyAction(targets[k].action, width, ApplyAll(Picked(targets[..k], pick[..k]), width, style))
      else ApplyAll(Picked(targets[..k], pick[..k]), width, style)
  {
    assert targets[..k + 1][..k] == targets[..k] && pick[..k + 1][..k] == pick[..k];
    var acts := Picked(targets[..k], pick[..k]);
    if pick[k] {
      var more := acts + [targets[k].action];
      assert more[..|more| - 1] == acts;
    } else {
      assert acts + [] == acts;
    }
  }

  /** Each picked action is the action of a picked target. */
  lemma {:induction false} PickedFrom(targets: seq<Target>, pick: seq<bool>, i: int)
    requires |pick| == |targets| && 0 <= i < |Picked(targets, pick)|
    ensures exists k :: 0 <= k < |targets| && pick[k] && targets[k].action == Picked(targets, pick)[i]
    decreases |targets|
  {
    var init, initPick := targets[..|targets| - 1], pick[..|pick| - 1];
    if i < |Picked(init, initPick)| {
      PickedFrom(init, initPick, i);
      var k :| 0 <= k < |init| && initPick[k] && init[k].action == Picked(init, initPick)[i];
      assert targets[k] == init[k] && pick[k] == initPick[k];
    } else {
      assert pick[|pick| - 1];
    }
  }

  /** Nothing picked, no actions. */
  lemma {:induction false} PickedNothing(targets: seq<Target>, pick: seq<bool>)
    requires |pick| == |targets|
    requires forall k :: 0 <= k < |pick| ==> !pick[k]
    ensures Picked(targets, pick) == []
    decreases |targets|
  {
    if targets != [] {
      PickedNothing(targets[..|targets| - 1], pick[..|pick| - 1]);
    }
  }

  /**
   * Where picked target `k`'s action sits among the picked actions, when no
   * later picked target writes the same property.
   */
  lemma {:induction false} PickedIndex(targets: seq<Target>, pick: seq<bool>, k: int) returns (idx: int)
    requires |pick| == |targets| && 0 <= k < |targets| && pick[k]
    requires forall j :: k < j < |targets| && pick[j] ==> targets[j].action.property != targets[k].action.property
    ensures 0 <= idx < |Picked(targets, pick)|
    ensures Picked(targets, pick)[idx] == targets[k].action
    ensures forall j :: idx < j < |Picked(targets, pick)| ==>
      Picked(targets, pick)[j].property != targets[k].action.property
    decreases |targets|
  {
    var init, initPick := targets[..|targets| - 1], pick[..|pick| - 1];
    if k == |targets| - 1 {
      idx := |Picked(init, initPick)|;
    } else {
      assert init[k] == targets[k];
      forall j | k < j < |init| && initPick[j]
        ensures init[j].action.property != init[k].action.property
      {
        assert init[j] == targets[j] && initPick[j] == pick[j];
      }
      idx := PickedIndex(init, initPick, k);
      assert Picked(init, initPick)[idx] == Picked(targets, pick)[idx];
    }
  }

  /** The last picked writer of a property decides its value. */
  lemma PickedLastWriter(targets: seq<Target>, pick: seq<bool>, width: int, style: Style, k: int)
    requires |pick| == |targets| && 0 <= k < |targets| && pick[k]
    requires forall j :: k < j < |targets| && pick[j] ==> targets[j].action.property != targets[k].action.property
    ensures targets[k].action.property in ApplyAll(Picked(targets, pick), width, style)
    ensures ApplyAll(Picked(targets, pick), width, style)[targets[k].action.property] ==
      ValueText(targets[k].action.value, width)
  {
    var idx := PickedIndex(targets, pick, k);
    WritesLastWriter(Picked(targets, pick), width, idx);
    ApplyAllOverrides(Picked(targets, pick), width, style);
  }

  /** A property no picked target writes keeps its old value, or stays absent. */
  lemma PickedLeavesOthers(targets: seq<Target>, pick: seq<bool>, width: int, style: Style, p: string)
    requires |pick| == |targets|
    requires forall k :: 0 <= k < |targets| && pick[k] ==> targets[k].action.property != p
    ensures (p in ApplyAll(Picked(targets, pick), width, style)) == (p in style)
    ensures p in style ==> ApplyAll(Picked(targets, pick), width, style)[p] == style[p]
  {
    var acts := Picked(targets, pick);
    forall j | 0 <= j < |acts|
      ensures acts[j].property != p
    {
      PickedFrom(targets, pick, j);
    }
    WritesOnlyWritten(acts, width, p);
    ApplyAllOverrides(acts, width, style);
  }

  // ---------------------------------------------------------------- per element

  /** Which targets match `n`. */
  function MatchMask(targets: seq<Target>, n: Node): (mask: seq<bool>)
    ensures |mask| == |targets|
  {
    seq(|targets|, k requires 0 <= k < |targets| => MatchesCriteria(n, targets[k]))
  }

  /** The actions of the targets that match `n`, in table order. */
  function MatchingActions(targets: seq<Target>, n: Node): seq<Action> {
    Picked(targets, MatchMask(targets, n))
  }

  /** The style of `n` after every matching target's action, in table order. */
  function Styled(targets: seq<Target>, width: int, n: Node, style: Style): Style {
    ApplyAll(MatchingActions(targets, n), width, style)
  }

  /** Each matching action comes from an enabled target that matches. */
  lemma MatchingActionsFromEnabled(targets: seq<Target>, n: Node, i: int)
    requires 0 <= i < |MatchingActions(targets, n)|
    ensures exists k ::
              0 <= k < |targets| && targets[k].enabled && MatchesCriteria(n, targets[k]) &&
              targets[k].action == MatchingActions(targets, n)[i]
  {
    PickedFrom(targets, MatchMask(targets, n), i);
  }

  /** A non-element, or an element no target matches, receives no action. */
  lemma NoMatchNoActions(targets: seq<Target>, n: Node)
    requires forall k :: 0 <= k < |targets| ==> !MatchesCriteria(n, targets[k])
    ensures MatchingActions(targets, n) == []
  {
    PickedNothing(targets, MatchMask(targets, n));
  }

  /** Applying every matching target twice leaves the element as applying them once. */
  lemma StyledIdempotent(targets: seq<Target>, width: int, n: Node, style: Style)
    ensures Styled(targets, width, n, Styled(targets, width, n, style)) == Styled(targets, width, n, style)
  {
    ApplyAllIdempotent(MatchingActions(targets, n), width, style);
  }

  /**
   * Target `k` matches and no later matching target writes its property: the
   * styled element carries target `k`'s value, whatever the style was before.
   */
  lemma StyledByLastMatch(targets: seq<Target>, width: int, n: Node, style: Style, k: int)
    requires 0 <= k < |targets| && MatchesCriteria(n, targets[k])
    requires forall j :: k < j < |targets| && MatchesCriteria(n, targets[j]) ==>
      targets[j].action.property != targets[k].action.property
    ensures targets[k].action.property in Styled(targets, width, n, style)
    ensures Styled(targets, width, n, style)[targets[k].action.property] == ValueText(targets[k].action.value, width)
  {
    PickedLastWriter(targets, MatchMask(targets, n), width, style, k);
  }

  /**
   * Enablement isolation: a property that no enabled, matching target writes
   * keeps its old value, or stays absent.
   */
  lemma StyledKeepsOthers(targets: seq<Target>, width: int, n: Node, style: Style, p: string)
    requires forall k :: 0 <= k < |targets| && targets[k].enabled && MatchesCriteria(n, targets[k]) ==>
      targets[k].action.property != p
    ensures (p in Styled(targets, width, n, style)) == (p in style)
    ensures p in style ==> Styled(targets, width, n, style)[p] == style[p]
  {
    PickedLeavesOthers(targets, MatchMask(targets, n), width, style, p);
  }

  // ---------------------------------------------------------------- the table

  const MAX_WIDTH := "max-width"
  const THREAD_WIDTH := "--thread-content-max-width"

  /** `targetsToModify`: enablement follows each site's own flag on the host name. */
  function Registry(hostname: string): (table: seq<Target>)
    ensures |table| == |Owners|
  {
    var isGemini := Mentions(hostname, Gemini);
    var isChatGPT := Mentions(hostname, ChatGPT);
    var isClaude := Mentions(hostname, Claude);
    [ Target("inputAreaContainer", "", ["input-area-container", "ng-star-inserted"], isGemini,
             None, SetStyle(MAX_WIDTH, CurrentWidth)),
      Target("conversationContainer", "", ["conversation-container", "ng-star-inserted"], isGemini,
             None, SetStyle(MAX_WIDTH, CurrentWidth)),
      Target("userQueryTag", "user-query", ["ng-star-inserted"], isGemini,
             None, SetStyle(MAX_WIDTH, CurrentWidth)),
      Target("userQueryBubble", "", ["user-query-bubble-with-background", "ng-star-inserted"], isGemini,
             None, SetStyle(MAX_WIDTH, Literal("50rem"))),
      Target("chatGPTConversation", "", [], isChatGPT,
             Some(ClassNameContains(THREAD_WIDTH)), SetStyle(THREAD_WIDTH, CurrentWidth)),
      Target("claudeConversation", "", ["max-w-3xl"], isClaude,
             None, SetStyle(MAX_WIDTH, CurrentWidth)) ]
  }

  /** The site each entry of the table belongs to. */
  const Owners: seq<Site> := [Gemini, Gemini, Gemini, Gemini, ChatGPT, Claude]

  /**
   * Enablement isolation: an entry is enabled exactly when its own site is
   * mentioned in the host name; when only one site is mentioned, exactly that
   * site's entries are enabled, and that site is the detected one.
   */
  lemma RegistryEnablement(hostname: string)
    ensures forall k :: 0 <= k < |Owners| ==> Registry(hostname)[k].enabled == Mentions(hostname, Owners[k])
    ensures forall k ::
              (0 <= k < |Owners| && Registry(hostname)[k].enabled &&
               forall s :: s != Owners[k] ==> !Mentions(hostname, s)) ==>
              HostSite(hostname) == Owners[k]
  {
    ClassifyUnfolded(hostname);
  }

  /**
   * What each entry writes: the ChatGPT entry sets the thread-width custom
   * property to the current width, the user-query bubble a fixed `50rem`
   * max-width, every other entry the current width as max-width.
   */
  lemma RegistryActions(hostname: string, k: int)
    requires 0 <= k < |Owners|
    ensures Registry(hostname)[k].action ==
      if Registry(hostname)[k].customMatcher.Some? then SetStyle(THREAD_WIDTH, CurrentWidth)
      else if Registry(hostname)[k].name == "userQueryBubble" then SetStyle(MAX_WIDTH, Literal("50rem"))
      else SetStyle(MAX_WIDTH, CurrentWidth)
    ensures Registry(hostname)[k].customMatcher.Some? <==> Owners[k] == ChatGPT
  {
  }

  /** The Gemini container class names contain no dot. */
  lemma ContainerNamesDotFree()
    ensures DotFree("input-area-container") && DotFree("conversation-container") && DotFree("ng-star-inserted")
  {
  }

  /** The remaining class names and the tag name of the table contain no dot. */
  lemma OtherNamesDotFree()
    ensures DotFree("user-query") && DotFree("user-query-bubble-with-background") && DotFree("max-w-3xl")
  {
  }

  /** Every entry of the table can be written as a selector, and none is unselectable. */
  lemma RegistryWellFormed(hostname: string)
    ensures forall k :: 0 <= k < |Registry(hostname)| ==>
      Writable(Registry(hostname)[k]) && !Unselectable(Registry(hostname)[k])
  {
    ContainerNamesDotFree();
    OtherNamesDotFree();
  }
}
