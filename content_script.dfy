/**
 * The content script's running state and handlers (chat-viewflex.js): the
 * page's nodes and their inline styles, the current width, the modification
 * counter and the on-page log; the per-node dispatcher, the scans, the
 * mutation-batch handler and the two places the width changes.
 */
module ContentScript {
  import opened Wrappers
  import opened Strings
  import opened Sites
  import opened Dom
  import opened Rules
  import opened Scan
  import opened Protocol

  class Page {
    /** `currentSite`, decided once from the host name. */
    const site: Site
    /** `targetsToModify`. */
    const targets: seq<Target>
    /** The page's nodes in document order; the page, not the extension, changes them. */
    var doc: seq<Node>
    /** The inline style of each node. */
    var styles: seq<Style>
    /** `conversationWidth`, in rem. */
    var conversationWidth: int
    /** `totalModifications`. */
    var totalModifications: nat
    /** The counter values `updateLog` has written to the on-page log, oldest first. */
    var logWrites: seq<nat>

    ghost predicate Valid()
      reads this
    {
      WellFormed(doc) && |styles| == |doc|
    }

    /** Start-up: site detection, the target table, the default width. */
    constructor (hostname: string, page: seq<Node>, inline: seq<Style>)
      requires WellFormed(page) && |inline| == |page|
      ensures Valid()
      ensures site == Classify(hostname) && targets == Registry(hostname)
      ensures doc == page && styles == inline
      ensures conversationWidth == DEFAULT_WIDTH && totalModifications == 0 && logWrites == []
    {
      site := HostSite(hostname);
      targets := Registry(hostname);
      doc := page;
      styles := inline;
      conversationWidth := DEFAULT_WIDTH;
      totalModifications := 0;
      logWrites := [];
    }

    /** `targets[k].action(element)`: one style write and one more modification. */
    method RunAction(k: int, i: int)
      requires Valid() && 0 <= k < |targets| && 0 <= i < |doc|
      modifies this
      ensures Valid() && doc == old(doc) && conversationWidth == old(conversationWidth) && logWrites == old(logWrites)
      ensures styles == old(styles)[i := ApplyAction(targets[k].action, conversationWidth, old(styles)[i])]
      ensures totalModifications == old(totalModifications) + 1
    {
      var action := targets[k].action;
      var text := match action.value
        case CurrentWidth => RemText(conversationWidth)
        case Literal(fixed) => fixed;
      styles := styles[i := styles[i][action.property := text]];
      totalModifications := totalModifications + 1;
    }

    /**
     * `checkAndProcessNode(node)`: runs the action of every matching target, in
     * table order, and reports whether any matched.
     */
    method CheckAndProcessNode(i: int) returns (modified: bool)
      requires Valid() && 0 <= i < |doc|
      modifies this
      ensures Valid() && doc == old(doc) && conversationWidth == old(conversationWidth) && logWrites == old(logWrites)
      ensures styles == old(styles)[i := Styled(targets, conversationWidth, doc[i], old(styles)[i])]
      ensures totalModifications == old(totalModifications) + |MatchingActions(targets, doc[i])|
      ensures modified <==> |MatchingActions(targets, doc[i])| > 0
      ensures !IsElement(doc[i]) ==> !modified && styles == old(styles)
    {
      modified := false;
      if doc[i].nodeType != ELEMENT_NODE {
        NoMatchNoActions(targets, doc[i]);
        return;
      }
      ghost var mask := MatchMask(targets, doc[i]);
      ghost var before := styles[i];
      var k := 0;
      while k < |targets|
        invariant 0 <= k <= |targets|
        invariant Valid() && doc == old(doc) && conversationWidth == old(conversationWidth) && logWrites == old(logWrites)
        invariant styles == old(styles)[i := ApplyAll(Picked(targets[..k], mask[..k]), conversationWidth, before)]
        invariant totalModifications == old(totalModifications) + |Picked(targets[..k], mask[..k])|
        invariant modified <==> |Picked(targets[..k], mask[..k])| > 0
      {
        PickedStep(targets, mask, conversationWidth, before, k);
        if MatchesCriteria(doc[i], targets[k]) {
          RunAction(k, i);
          modified := true;
        }
        k := k + 1;
      }
      assert targets[..k] == targets && mask[..k] == mask;
    }

    /** `elements.forEach((e) => { if (checkAndProcessNode(e)) processed = true; })`. */
    method ProcessEach(elements: seq<int>) returns (processed: bool)
      requires Valid() && InRange(doc, elements)
      modifies this
      ensures Valid() && doc == old(doc) && conversationWidth == old(conversationWidth) && logWrites == old(logWrites)
      ensures styles == Restyled(targets, conversationWidth, doc, old(styles), elements)
      ensures totalModifications == old(totalModifications) + VisitCount(targets, doc, elements)
      ensures processed <==> VisitCount(targets, doc, elements) > 0
    {
      processed := false;
      var j := 0;
      while j < |elements|
        invariant 0 <= j <= |elements|
        invariant Valid() && doc == old(doc) && conversationWidth == old(conversationWidth) && logWrites == old(logWrites)
        invariant styles == Restyled(targets, conversationWidth, doc, old(styles), elements[..j])
        invariant totalModifications == old(totalModifications) + VisitCount(targets, doc, elements[..j])
        invariant processed <==> VisitCount(targets, doc, elements[..j]) > 0
      {
        VisitNext(targets, conversationWidth, doc, old(styles), elements, j);
        var m := CheckAndProcessNode(elements[j]);
        if m {
          processed := true;
        }
        j := j + 1;
      }
      assert elements[..j] == elements;
    }

    /**
     * One target's part of a scan under `root` (the whole document when
     * `None`): skip it when disabled; query every `div` for a custom matcher;
     * otherwise build the `tag.cls1.cls2` selector, skip it when empty (the
     * initial scan warns there), query it, and hand each result to
     * checkAndProcessNode.
     */
    method ScanTarget(k: int, root: Option<int>) returns (processed: bool)
      requires Valid() && 0 <= k < |targets|
      modifies this
      ensures Valid() && doc == old(doc) && conversationWidth == old(conversationWidth) && logWrites == old(logWrites)
      ensures styles == Restyled(targets, conversationWidth, doc, old(styles), Candidates(targets[k], doc, root))
      ensures totalModifications == old(totalModifications) + VisitCount(targets, doc, Candidates(targets[k], doc, root))
      ensures processed <==> VisitCount(targets, doc, Candidates(targets[k], doc, root)) > 0
    {
      var target := targets[k];
      if !target.enabled {
        return false;
      }
      if target.customMatcher.Some? {
        var elements := QuerySelectorAll(doc, root, "div");
        processed := ProcessEach(elements);
        return;
      }
      var selector := "";
      if target.tagName != "" {
        selector := selector + target.tagName;
      }
      if |target.classes| > 0 {
        selector := selector + ClassSuffix(target.classes);
      }
      assert selector == SelectorText(target);
      if selector == "" {
        return false;
      }
      var elements := QuerySelectorAll(doc, root, selector);
      processed := ProcessEach(elements);
    }

    /** Every target's part of a scan under `root`, in table order. */
    method ScanAll(root: Option<int>) returns (processed: bool)
      requires Valid()
      modifies this
      ensures Valid() && doc == old(doc) && conversationWidth == old(conversationWidth) && logWrites == old(logWrites)
      ensures styles == Restyled(targets, conversationWidth, doc, old(styles), ScanVisits(targets, doc, root))
      ensures totalModifications == old(totalModifications) + VisitCount(targets, doc, ScanVisits(targets, doc, root))
      ensures processed <==> VisitCount(targets, doc, ScanVisits(targets, doc, root)) > 0
    {
      processed := false;
      ghost var visited: seq<int> := [];
      var k := 0;
      while k < |targets|
        invariant 0 <= k <= |targets|
        invariant Valid() && doc == old(doc) && conversationWidth == old(conversationWidth) && logWrites == old(logWrites)
        invariant visited == ScanVisits(targets[..k], doc, root)
        invariant InRange(doc, visited)
        invariant styles == Restyled(targets, conversationWidth, doc, old(styles), visited)
        invariant totalModifications == old(totalModifications) + VisitCount(targets, doc, visited)
        invariant processed <==> VisitCount(targets, doc, visited) > 0
      {
        ghost var cands := Candidates(targets[k], doc, root);
        var p := ScanTarget(k, root);
        if p {
          processed := true;
        }
        ScanVisitsStep(targets, doc, root, k);
        assert styles == Restyled(targets, conversationWidth, doc, old(styles), visited + cands) by {
          RestyledConcat(targets, conversationWidth, doc, old(styles), visited, cands);
        }
        VisitCountConcat(targets, doc, visited, cands);
        visited := visited + cands;
        k := k + 1;
      }
      assert targets[..k] == targets;
    }

    /** `updateLog()`: the log shows the counter. */
    method UpdateLog()
      modifies this
      ensures styles == old(styles) && doc == old(doc) && conversationWidth == old(conversationWidth)
      ensures totalModifications == old(totalModifications)
      ensures logWrites == old(logWrites) + [totalModifications]
    {
      logWrites := logWrites + [totalModifications];
    }

    /** `initialScanAndModify()`: scan the whole document, then refresh the log. */
    method InitialScanAndModify()
      requires Valid()
      modifies this
      ensures Valid() && doc == old(doc) && conversationWidth == old(conversationWidth)
      ensures styles == Restyled(targets, conversationWidth, doc, old(styles), ScanVisits(targets, doc, None))
      ensures totalModifications == old(totalModifications) + VisitCount(targets, doc, ScanVisits(targets, doc, None))
      ensures logWrites == old(logWrites) + [totalModifications]
    {
      var _ := ScanAll(None);
      UpdateLog();
    }

    /** One added node: the node itself, then, for an element, a scan of its subtree. */
    method ProcessAddedNode(n: int) returns (processed: bool)
      requires Valid() && 0 <= n < |doc|
      modifies this
      ensures Valid() && doc == old(doc) && conversationWidth == old(conversationWidth) && logWrites == old(logWrites)
      ensures styles == Restyled(targets, conversationWidth, doc, old(styles), AddedVisits(targets, doc, n))
      ensures totalModifications == old(totalModifications) + VisitCount(targets, doc, AddedVisits(targets, doc, n))
      ensures processed <==> VisitCount(targets, doc, AddedVisits(targets, doc, n)) > 0
    {
      ghost var s0 := styles;
      processed := CheckAndProcessNode(n);
      RestyledOne(targets, conversationWidth, doc, s0, n);
      if doc[n].nodeType == ELEMENT_NODE {
        var below := ScanAll(Some(n));
        if below {
          processed := true;
        }
        ghost var rest := ScanVisits(targets, doc, Some(n));
        assert AddedVisits(targets, doc, n) == [n] + rest;
        assert styles == Restyled(targets, conversationWidth, doc, s0, [n] + rest) by {
          RestyledConcat(targets, conversationWidth, doc, s0, [n], rest);
        }
        VisitCountConcat(targets, doc, [n], rest);
      } else {
        assert AddedVisits(targets, doc, n) == [n];
      }
    }

    /** `mutation.addedNodes.forEach(...)` for one `childList` record. */
    method ProcessAddedNodes(added: seq<int>) returns (processed: bool)
      requires Valid() && InRange(doc, added)
      modifies this
      ensures Valid() && doc == old(doc) && conversationWidth == old(conversationWidth) && logWrites == old(logWrites)
      ensures styles == Restyled(targets, conversationWidth, doc, old(styles), AddedListVisits(targets, doc, added))
      ensures totalModifications == old(totalModifications) + VisitCount(targets, doc, AddedListVisits(targets, doc, added))
      ensures processed <==> VisitCount(targets, doc, AddedListVisits(targets, doc, added)) > 0
    {
      processed := false;
      ghost var visited: seq<int> := [];
      var j := 0;
      while j < |added|
        invariant 0 <= j <= |added|
        invariant Valid() && doc == old(doc) && conversationWidth == old(conversationWidth) && logWrites == old(logWrites)
        invariant visited == AddedListVisits(targets, doc, added[..j])
        invariant InRange(doc, visited)
        invariant styles == Restyled(targets, conversationWidth, doc, old(styles), visited)
        invariant totalModifications == old(totalModifications) + VisitCount(targets, doc, visited)
        invariant processed <==> VisitCount(targets, doc, visited) > 0
      {
        ghost var these := AddedVisits(targets, doc, added[j]);
        var p := ProcessAddedNode(added[j]);
        if p {
          processed := true;
        }
        AddedListVisitsStep(targets, doc, added, j);
        assert styles == Restyled(targets, conversationWidth, doc, old(styles), visited + these) by {
          RestyledConcat(targets, conversationWidth, doc, old(styles), visited, these);
        }
        VisitCountConcat(targets, doc, visited, these);
        visited := visited + these;
        j := j + 1;
      }
      assert added[..j] == added;
    }

    /**
     * `mutationCallback(mutationsList)`: processes every added node of every
     * `childList` record and its subtree, then refreshes the log once, and only
     * if some node matched.
     */
    method MutationCallback(records: seq<MutationRecord>)
      requires Valid() && RecordsInRange(doc, records)
      modifies this
      ensures Valid() && doc == old(doc) && conversationWidth == old(conversationWidth)
      ensures styles == Restyled(targets, conversationWidth, doc, old(styles), BatchVisits(targets, doc, records))
      ensures totalModifications == old(totalModifications) + VisitCount(targets, doc, BatchVisits(targets, doc, records))
      ensures logWrites == old(logWrites) +
        (if AnyMatched(targets, doc, BatchVisits(targets, doc, records)) then [totalModifications] else [])
    {
      var processedInBatch := false;
      var r := 0;
      while r < |records|
        invariant 0 <= r <= |records|
        invariant Valid() && doc == old(doc) && conversationWidth == old(conversationWidth) && logWrites == old(logWrites)
        invariant RecordsInRange(doc, records[..r])
        invariant styles == Restyled(targets, conversationWidth, doc, old(styles), BatchVisits(targets, doc, records[..r]))
        invariant totalModifications == old(totalModifications) + VisitCount(targets, doc, BatchVisits(targets, doc, records[..r]))
        invariant processedInBatch <==> VisitCount(targets, doc, BatchVisits(targets, doc, records[..r])) > 0
      {
        ghost var done := BatchVisits(targets, doc, records[..r]);
        BatchVisitsStep(targets, doc, records, r);
        if records[r].kind == "childList" {
          ghost var these := AddedListVisits(targets, doc, records[r].addedNodes);
          var p := ProcessAddedNodes(records[r].addedNodes);
          if p {
            processedInBatch := true;
          }
          assert styles == Restyled(targets, conversationWidth, doc, old(styles), done + these) by {
            RestyledConcat(targets, conversationWidth, doc, old(styles), done, these);
          }
          VisitCountConcat(targets, doc, done, these);
        } else {
          assert done + [] == done;
        }
        r := r + 1;
      }
      assert records[..r] == records;
      AnyMatchedIffCounted(targets, doc, BatchVisits(targets, doc, records));
      if processedInBatch {
        UpdateLog();
      }
    }

    /**
     * `elements.forEach((e) => { if (matchesCriteria(e, t)) t.action(e); })`
     * for the `k`-th target, as reapplyAllWidths does it.
     */
    method ActOnEach(k: int, elements: seq<int>)
      requires Valid() && 0 <= k < |targets| && InRange(doc, elements) && Increasing(elements)
      modifies this
      ensures Valid() && doc == old(doc) && conversationWidth == old(conversationWidth) && logWrites == old(logWrites)
      ensures styles == ActionOnEach(targets[k], conversationWidth, doc, old(styles), elements)
      ensures totalModifications == old(totalModifications) + CountMatching(targets[k], doc, elements)
    {
      var j := 0;
      while j < |elements|
        invariant 0 <= j <= |elements|
        invariant Valid() && doc == old(doc) && conversationWidth == old(conversationWidth) && logWrites == old(logWrites)
        invariant styles == ActionOnEach(targets[k], conversationWidth, doc, old(styles), elements[..j])
        invariant totalModifications == old(totalModifications) + CountMatching(targets[k], doc, elements[..j])
      {
        var e := elements[j];
        assert e !in elements[..j];
        assert elements[..j + 1][..j] == elements[..j] && elements[..j + 1][j] == e;
        if MatchesCriteria(doc[e], targets[k]) {
          RunAction(k, e);
        }
        j := j + 1;
      }
      assert elements[..j] == elements;
    }

    /**
     * One target's part of reapplyAllWidths: nothing when disabled; every
     * `div` when it has a custom matcher; nothing when its selector is empty;
     * otherwise what its selector selects, each through matchesCriteria.
     */
    method ReapplyTarget(k: int)
      requires Valid() && 0 <= k < |targets|
      modifies this
      ensures Valid() && doc == old(doc) && conversationWidth == old(conversationWidth) && logWrites == old(logWrites)
      ensures styles == ActionOnEach(targets[k], conversationWidth, doc, old(styles), Candidates(targets[k], doc, None))
      ensures totalModifications == old(totalModifications) + CountMatching(targets[k], doc, Candidates(targets[k], doc, None))
    {
      var target := targets[k];
      if !target.enabled {
        assert ActionOnEach(target, conversationWidth, doc, styles, []) == styles;
        return;
      }
      if target.customMatcher.Some? {
        var elements := QuerySelectorAll(doc, None, "div");
        ActOnEach(k, elements);
        return;
      }
      var selector := "";
      if target.tagName != "" {
        selector := selector + target.tagName;
      }
      if |target.classes| > 0 {
        selector := selector + ClassSuffix(target.classes);
      }
      assert selector == SelectorText(target);
      if selector == "" {
        assert ActionOnEach(target, conversationWidth, doc, styles, []) == styles;
        return;
      }
      var elements := QuerySelectorAll(doc, None, selector);
      ActOnEach(k, elements);
    }

    /** `reapplyAllWidths()`: every enabled target's action again, on what its query finds. */
    method ReapplyAllWidths()
      requires Valid()
      modifies this
      ensures Valid() && doc == old(doc) && conversationWidth == old(conversationWidth) && logWrites == old(logWrites)
      ensures styles == Reapplied(targets, conversationWidth, doc, old(styles))
      ensures totalModifications == old(totalModifications) + ReapplyCount(targets, doc)
    {
      ReappliedNone(targets, conversationWidth, doc, styles);
      var k := 0;
      while k < |targets|
        invariant 0 <= k <= |targets|
        invariant Valid() && doc == old(doc) && conversationWidth == old(conversationWidth) && logWrites == old(logWrites)
        invariant styles == Reapplied(targets[..k], conversationWidth, doc, old(styles))
        invariant totalModifications == old(totalModifications) + ReapplyCount(targets[..k], doc)
      {
        ReappliedStep(targets, conversationWidth, doc, old(styles), k);
        ReapplyCountStep(targets, doc, k);
        ReapplyTarget(k);
        k := k + 1;
      }
      assert targets[..k] == targets;
    }

    /** The `runtime.onMessage` listener: an `updateWidth` message sets the width and re-applies it. */
    method OnMessage(message: Message)
      requires Valid()
      modifies this
      ensures Valid() && doc == old(doc) && logWrites == old(logWrites)
      ensures message.action == UPDATE_WIDTH ==>
        conversationWidth == message.width &&
        styles == Reapplied(targets, message.width, doc, old(styles)) &&
        totalModifications == old(totalModifications) + ReapplyCount(targets, doc)
      ensures message.action != UPDATE_WIDTH ==>
        conversationWidth == old(conversationWidth) && styles == old(styles) &&
        totalModifications == old(totalModifications)
    {
      if message.action == UPDATE_WIDTH {
        conversationWidth := message.width;
        ReapplyAllWidths();
      }
    }

    /**
     * The start-up storage read: a truthy entry for the current site becomes
     * the width and is re-applied; anything else, or a failed read, changes
     * nothing.
     */
    method OnStoredSettings(read: StorageRead)
      requires Valid()
      modifies this
      ensures Valid() && doc == old(doc) && logWrites == old(logWrites)
      ensures StoredEntry(read, Id(site)).Some? ==>
        conversationWidth == StoredEntry(read, Id(site)).value &&
        styles == Reapplied(targets, conversationWidth, doc, old(styles)) &&
        totalModifications == old(totalModifications) + ReapplyCount(targets, doc)
      ensures StoredEntry(read, Id(site)).None? ==>
        conversationWidth == old(conversationWidth) && styles == old(styles) &&
        totalModifications == old(totalModifications)
    {
      if read.Loaded? && read.widthSettings.Some? {
        var settings := read.widthSettings.value;
        var key := Id(site);
        if key in settings && Truthy(settings[key]) {
          conversationWidth := settings[key];
          ReapplyAllWidths();
        }
      }
    }
  }
}
