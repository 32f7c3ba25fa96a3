/**
 * What the scans visit, as functions of the page: the candidates a target's
 * query yields (chat-viewflex.js:203-230, 255-296, 328-356), the order in which
 * initialScanAndModify and mutationCallback hand nodes to checkAndProcessNode,
 * and the actions reapplyAllWidths gives each element. The imperative scans
 * in module ContentScript are proved to follow these, and the lemmas here
 * prove that the visits reach every element they should.
 */
module Scan {
  import opened Wrappers
  import opened Strings
  import opened Dom
  import opened Rules

  /** The selector text a scan builds for a plain target. */
  function SelectorText(t: Target): string {
    Render(SelectorOf(t))
  }

  /**
   * The elements a scan hands on for target `t`: none when disabled; every
   * `div` when it has a custom matcher; none when its selector is empty;
   * otherwise what its selector selects. `root` scopes the query.
   */
  function Candidates(t: Target, doc: seq<Node>, root: Option<int>): (r: seq<int>)
    ensures InRange(doc, r)
    ensures Increasing(r)
  {
    if !t.enabled then []
    else if t.customMatcher.Some? then QuerySelectorAll(doc, root, "div")
    else if SelectorText(t) == "" then []
    else QuerySelectorAll(doc, root, SelectorText(t))
  }

  /** The nodes a scan passes to checkAndProcessNode, target by target. */
  function ScanVisits(targets: seq<Target>, doc: seq<Node>, root: Option<int>): (r: seq<int>)
    ensures InRange(doc, r)
  {
    if targets == [] then []
    else ScanVisits(targets[..|targets| - 1], doc, root) + Candidates(targets[|targets| - 1], doc, root)
  }

  /** The scan of one more target appends that target's candidates. */
  lemma ScanVisitsStep(targets: seq<Target>, doc: seq<Node>, root: Option<int>, k: int)
    requires 0 <= k < |targets|
    ensures ScanVisits(targets[..k + 1], doc, root) == ScanVisits(targets[..k], doc, root) + Candidates(targets[k], doc, root)
  {
    assert targets[..k + 1][..k] == targets[..k] && targets[..k + 1][k] == targets[k];
  }

  /** One added node: the node itself, then, for an element, the scan of its subtree. */
  function AddedVisits(targets: seq<Target>, doc: seq<Node>, n: int): (r: seq<int>)
    requires 0 <= n < |doc|
    ensures InRange(doc, r)
  {
    [n] + (if IsElement(doc[n]) then ScanVisits(targets, doc, Some(n)) else [])
  }

  /** A mutation record: its `type` and the indices of its `addedNodes`. */
  datatype MutationRecord = MutationRecord(kind: string, addedNodes: seq<int>)

  /** Every index names a node of the page. */
  predicate InRange(doc: seq<Node>, nodes: seq<int>) {
    forall j :: 0 <= j < |nodes| ==> 0 <= nodes[j] < |doc|
  }

  predicate RecordsInRange(doc: seq<Node>, records: seq<MutationRecord>) {
    forall r :: 0 <= r < |records| ==> InRange(doc, records[r].addedNodes)
  }

  /** The visits for a list of added nodes, in order. */
  function AddedListVisits(targets: seq<Target>, doc: seq<Node>, added: seq<int>): (r: seq<int>)
    requires InRange(doc, added)
    ensures InRange(doc, r)
  {
    if added == [] then []
    else AddedListVisits(targets, doc, added[..|added| - 1]) + AddedVisits(targets, doc, added[|added| - 1])
  }

  /** One more added node appends its own visits. */
  lemma AddedListVisitsStep(targets: seq<Target>, doc: seq<Node>, added: seq<int>, j: int)
    requires InRange(doc, added) && 0 <= j < |added|
    ensures InRange(doc, added[..j]) && InRange(doc, added[..j + 1])
    ensures AddedListVisits(targets, doc, added[..j + 1]) ==
      AddedListVisits(targets, doc, added[..j]) + AddedVisits(targets, doc, added[j])
  {
    assert added[..j + 1][..j] == added[..j] && added[..j + 1][j] == added[j];
  }

  /** The visits of a whole batch: only `childList` records add nodes. */
  function BatchVisits(targets: seq<Target>, doc: seq<Node>, records: seq<MutationRecord>): (r: seq<int>)
    requires RecordsInRange(doc, records)
    ensures InRange(doc, r)
  {
    if records == [] then []
    else
      var last := records[|records| - 1];
      BatchVisits(targets, doc, records[..|records| - 1]) +
        (if last.kind == "childList" then AddedListVisits(targets, doc, last.addedNodes) else [])
  }

  /** One more record of the batch appends its added nodes' visits, when it is a `childList` record. */
  lemma BatchVisitsStep(targets: seq<Target>, doc: seq<Node>, records: seq<MutationRecord>, r: int)
    requires RecordsInRange(doc, records) && 0 <= r < |records|
    ensures RecordsInRange(doc, records[..r]) && RecordsInRange(doc, records[..r + 1])
    ensures InRange(doc, records[r].addedNodes)
    ensures BatchVisits(targets, doc, records[..r + 1]) == BatchVisits(targets, doc, records[..r]) +
      (if records[r].kind == "childList" then AddedListVisits(targets, doc, records[r].addedNodes) else [])
  {
    assert records[..r + 1][..r] == records[..r] && records[..r + 1][r] == records[r];
  }

  /** The styles after checkAndProcessNode has run on each visited node. */
  function Restyled(targets: seq<Target>, width: int, doc: seq<Node>, styles: seq<Style>, visits: seq<int>): (r: seq<Style>)
    requires |styles| == |doc|
    ensures |r| == |doc|
  {
    seq(|doc|, i requires 0 <= i < |doc| => if i in visits then Styled(targets, width, doc[i], styles[i]) else styles[i])
  }

  /** How many actions the visits run: every matching target, at every visit. */
  function VisitCount(targets: seq<Target>, doc: seq<Node>, visits: seq<int>): nat
    requires InRange(doc, visits)
  {
    if visits == [] then 0
    else VisitCount(targets, doc, visits[..|visits| - 1]) + |MatchingActions(targets, doc[visits[|visits| - 1]])|
  }

  /** Some visit found a matching target. */
  predicate AnyMatched(targets: seq<Target>, doc: seq<Node>, visits: seq<int>) {
    exists j :: 0 <= j < |visits| && 0 <= visits[j] < |doc| && |MatchingActions(targets, doc[visits[j]])| > 0
  }

  /** One more visit: the visited node is styled, every other node keeps its style. */
  lemma RestyledStep(targets: seq<Target>, width: int, doc: seq<Node>, styles: seq<Style>, visits: seq<int>, e: int)
    requires |styles| == |doc| && 0 <= e < |doc|
    ensures Restyled(targets, width, doc, styles, visits + [e]) ==
      Restyled(targets, width, doc, styles, visits)[e := Styled(targets, width, doc[e], styles[e])]
  {
  }

  /** Styling a node that was already styled changes nothing further. */
  lemma RestyledAgain(targets: seq<Target>, width: int, doc: seq<Node>, styles: seq<Style>, visits: seq<int>, e: int)
    requires |styles| == |doc| && 0 <= e < |doc|
    ensures Styled(targets, width, doc[e], Restyled(targets, width, doc, styles, visits)[e]) ==
      Styled(targets, width, doc[e], styles[e])
  {
    StyledIdempotent(targets, width, doc[e], styles[e]);
  }

  /** Two rounds of visits style as one round over both lists. */
  lemma RestyledConcat(targets: seq<Target>, width: int, doc: seq<Node>, styles: seq<Style>, a: seq<int>, b: seq<int>)
    requires |styles| == |doc|
    ensures Restyled(targets, width, doc, Restyled(targets, width, doc, styles, a), b) ==
      Restyled(targets, width, doc, styles, a + b)
  {
    forall i | 0 <= i < |doc|
      ensures Restyled(targets, width, doc, Restyled(targets, width, doc, styles, a), b)[i] ==
        Restyled(targets, width, doc, styles, a + b)[i]
    {
      StyledIdempotent(targets, width, doc[i], styles[i]);
    }
  }

  lemma {:induction false} VisitCountConcat(targets: seq<Target>, doc: seq<Node>, a: seq<int>, b: seq<int>)
    requires InRange(doc, a) && InRange(doc, b)
    ensures InRange(doc, a + b)
    ensures VisitCount(targets, doc, a + b) == VisitCount(targets, doc, a) + VisitCount(targets, doc, b)
    decreases |b|
  {
    if b == [] {
      assert a + b == a;
    } else {
      var init := b[..|b| - 1];
      VisitCountConcat(targets, doc, a, init);
      assert (a + b)[..|a + b| - 1] == a + init;
      assert (a + b)[|a + b| - 1] == b[|b| - 1];
    }
  }

  lemma AnyMatchedConcat(targets: seq<Target>, doc: seq<Node>, a: seq<int>, b: seq<int>)
    ensures AnyMatched(targets, doc, a + b) == (AnyMatched(targets, doc, a) || AnyMatched(targets, doc, b))
  {
    if AnyMatched(targets, doc, a + b) {
      var j :| 0 <= j < |a + b| && 0 <= (a + b)[j] < |doc| && |MatchingActions(targets, doc[(a + b)[j]])| > 0;
      if j >= |a| {
        assert b[j - |a|] == (a + b)[j];
      }
    }
    if AnyMatched(targets, doc, a) {
      var j :| 0 <= j < |a| && 0 <= a[j] < |doc| && |MatchingActions(targets, doc[a[j]])| > 0;
      assert (a + b)[j] == a[j];
    }
    if AnyMatched(targets, doc, b) {
      var j :| 0 <= j < |b| && 0 <= b[j] < |doc| && |MatchingActions(targets, doc[b[j]])| > 0;
      assert (a + b)[|a| + j] == b[j];
    }
  }

  /** A node matched during the visits exactly when the visits ran some action. */
  lemma {:induction false} AnyMatchedIffCounted(targets: seq<Target>, doc: seq<Node>, visits: seq<int>)
    requires InRange(doc, visits)
    ensures AnyMatched(targets, doc, visits) <==> VisitCount(targets, doc, visits) > 0
    decreases |visits|
  {
    if visits != [] {
      var init := visits[..|visits| - 1];
      var last := visits[|visits| - 1];
      AnyMatchedIffCounted(targets, doc, init);
      assert visits == init + [last];
      AnyMatchedConcat(targets, doc, init, [last]);
      assert AnyMatched(targets, doc, [last]) == (|MatchingActions(targets, doc[last])| > 0) by {
        assert [last][0] == last;
      }
    }
  }

  /** The visit of `visits[j]`, as checkAndProcessNode makes it on the styles the earlier visits left. */
  lemma VisitNext(targets: seq<Target>, width: int, doc: seq<Node>, styles: seq<Style>, visits: seq<int>, j: int)
    requires |styles| == |doc| && InRange(doc, visits) && 0 <= j < |visits|
    ensures InRange(doc, visits[..j]) && InRange(doc, visits[..j + 1])
    ensures Restyled(targets, width, doc, styles, visits[..j + 1]) ==
      Restyled(targets, width, doc, styles, visits[..j])[visits[j] :=
        Styled(targets, width, doc[visits[j]], Restyled(targets, width, doc, styles, visits[..j])[visits[j]])]
    ensures VisitCount(targets, doc, visits[..j + 1]) ==
      VisitCount(targets, doc, visits[..j]) + |MatchingActions(targets, doc[visits[j]])|
  {
    var e := visits[j];
    assert visits[..j + 1] == visits[..j] + [e];
    RestyledStep(targets, width, doc, styles, visits[..j], e);
    RestyledAgain(targets, width, doc, styles, visits[..j], e);
    assert (visits[..j] + [e])[..j] == visits[..j];
  }

  /** Visiting one node styles just that node. */
  lemma RestyledOne(targets: seq<Target>, width: int, doc: seq<Node>, styles: seq<Style>, e: int)
    requires |styles| == |doc| && 0 <= e < |doc|
    ensures Restyled(targets, width, doc, styles, [e]) == styles[e := Styled(targets, width, doc[e], styles[e])]
    ensures VisitCount(targets, doc, [e]) == |MatchingActions(targets, doc[e])|
    ensures AnyMatched(targets, doc, [e]) == (|MatchingActions(targets, doc[e])| > 0)
  {
    assert [e][..0] == [];
  }

  // ---------------------------------------------------------------- reapplyAllWidths

  /** `elements.forEach(e => { if (matchesCriteria(e, t)) t.action(e); })` on the styles. */
  function ActionOnEach(t: Target, width: int, doc: seq<Node>, styles: seq<Style>, elements: seq<int>): (r: seq<Style>)
    requires |styles| == |doc|
    ensures |r| == |doc|
  {
    seq(|doc|, i requires 0 <= i < |doc| =>
      if i in elements && MatchesCriteria(doc[i], t) then ApplyAction(t.action, width, styles[i]) else styles[i])
  }

  /** Which targets reapplyAllWidths applies to element `i`. */
  function ReapplyMask(targets: seq<Target>, doc: seq<Node>, i: int): (mask: seq<bool>)
    requires 0 <= i < |doc|
    ensures |mask| == |targets|
  {
    seq(|targets|, k requires 0 <= k < |targets| =>
      i in Candidates(targets[k], doc, None) && MatchesCriteria(doc[i], targets[k]))
  }

  /** The styles after reapplyAllWidths: each element receives its reapplied actions in table order. */
  function Reapplied(targets: seq<Target>, width: int, doc: seq<Node>, styles: seq<Style>): (r: seq<Style>)
    requires |styles| == |doc|
    ensures |r| == |doc|
  {
    seq(|doc|, i requires 0 <= i < |doc| =>
      ApplyAll(Picked(targets, ReapplyMask(targets, doc, i)), width, styles[i]))
  }

  /** How many of `elems` match `t`. */
  function CountMatching(t: Target, doc: seq<Node>, elems: seq<int>): nat
    requires InRange(doc, elems)
  {
    if elems == [] then 0
    else
      var last := elems[|elems| - 1];
      CountMatching(t, doc, elems[..|elems| - 1]) + (if MatchesCriteria(doc[last], t) then 1 else 0)
  }

  /** How many actions reapplyAllWidths runs. */
  function ReapplyCount(targets: seq<Target>, doc: seq<Node>): nat {
    if targets == [] then 0
    else
      var last := targets[|targets| - 1];
      ReapplyCount(targets[..|targets| - 1], doc) + CountMatching(last, doc, Candidates(last, doc, None))
  }

  /** What one more target adds for element `i`. */
  lemma ReappliedStepAt(targets: seq<Target>, width: int, doc: seq<Node>, styles: seq<Style>, k: int, i: int)
    requires |styles| == |doc| && 0 <= k < |targets| && 0 <= i < |doc|
    ensures Reapplied(targets[..k + 1], width, doc, styles)[i] ==
      if i in Candidates(targets[k], doc, None) && MatchesCriteria(doc[i], targets[k])
      then ApplyAction(targets[k].action, width, Reapplied(targets[..k], width, doc, styles)[i])
      else Reapplied(targets[..k], width, doc, styles)[i]
  {
    var pre, post := targets[..k], targets[..k + 1];
    assert post[..k] == pre && post[k] == targets[k];
    var mask := ReapplyMask(post, doc, i);
    assert mask[..k] == ReapplyMask(pre, doc, i);
    var acts := Picked(pre, mask[..k]);
    assert Picked(post, mask) == acts + (if mask[k] then [targets[k].action] else []);
    assert mask[k] == (i in Candidates(targets[k], doc, None) && MatchesCriteria(doc[i], targets[k]));
    if mask[k] {
      var more := acts + [targets[k].action];
      assert more[..|more| - 1] == acts;
      assert ApplyAll(more, width, styles[i]) == ApplyAction(targets[k].action, width, ApplyAll(acts, width, styles[i]));
    } else {
      assert acts + [] == acts;
    }
  }

  /** reapplyAllWidths handles one more target. */
  lemma ReappliedStep(targets: seq<Target>, width: int, doc: seq<Node>, styles: seq<Style>, k: int)
    requires |styles| == |doc| && 0 <= k < |targets|
    ensures Reapplied(targets[..k + 1], width, doc, styles) ==
      ActionOnEach(targets[k], width, doc, Reapplied(targets[..k], width, doc, styles), Candidates(targets[k], doc, None))
  {
    forall i | 0 <= i < |doc|
      ensures Reapplied(targets[..k + 1], width, doc, styles)[i] ==
        ActionOnEach(targets[k], width, doc, Reapplied(targets[..k], width, doc, styles), Candidates(targets[k], doc, None))[i]
    {
      ReappliedStepAt(targets, width, doc, styles, k, i);
    }
  }

  /** reapplyAllWidths counts one more target's matching candidates. */
  lemma ReapplyCountStep(targets: seq<Target>, doc: seq<Node>, k: int)
    requires 0 <= k < |targets|
    ensures ReapplyCount(targets[..k + 1], doc) ==
      ReapplyCount(targets[..k], doc) + CountMatching(targets[k], doc, Candidates(targets[k], doc, None))
  {
    assert targets[..k + 1][..k] == targets[..k] && targets[..k + 1][k] == targets[k];
  }

  lemma ReappliedNone(targets: seq<Target>, width: int, doc: seq<Node>, styles: seq<Style>)
    requires |styles| == |doc|
    ensures Reapplied(targets[..0], width, doc, styles) == styles
  {
  }

  // ---------------------------------------------------------------- reach

  /** The scans can reach element `i` through target `t`. */
  predicate Reachable(t: Target, n: Node) {
    Writable(t) && !Unselectable(t) &&
    (t.customMatcher.Some? ==> ToLower(n.tagName) == "div")
  }

  lemma LowerDiv()
    ensures ToLower("div") == "div"
  {
  }

  /**
   * A target's query finds every element in scope that the target matches,
   * provided the target is reachable for it; and for a plain target, every
   * element it finds does match.
   */
  lemma CandidatesExact(t: Target, doc: seq<Node>, root: Option<int>, i: int)
    requires InScope(doc, root, i)
    requires Writable(t)
    ensures MatchesCriteria(doc[i], t) && Reachable(t, doc[i]) ==> i in Candidates(t, doc, root)
    ensures t.customMatcher.None? && i in Candidates(t, doc, root) ==> MatchesCriteria(doc[i], t)
  {
    DivSelector();
    LowerDiv();
    if t.enabled && t.customMatcher.None? {
      SelectorAgreesWithMatcher(doc[i], t);
      RenderEmpty(SelectorOf(t));
    }
  }

  lemma {:induction false} ScanVisitsInclude(targets: seq<Target>, doc: seq<Node>, root: Option<int>, k: int, i: int)
    requires 0 <= k < |targets| && i in Candidates(targets[k], doc, root)
    ensures i in ScanVisits(targets, doc, root)
    decreases |targets|
  {
    if k < |targets| - 1 {
      assert targets[..|targets| - 1][k] == targets[k];
      ScanVisitsInclude(targets[..|targets| - 1], doc, root, k, i);
    }
  }

  /** A target's candidates are elements in the scanned scope. */
  lemma CandidatesInScope(t: Target, doc: seq<Node>, root: Option<int>, i: int)
    requires i in Candidates(t, doc, root)
    ensures InScope(doc, root, i)
  {
  }

  /**
   * Soundness of a scan: every visited node is in scope and was found by the
   * query of some table entry.
   */
  lemma {:induction false} ScanVisitsSound(targets: seq<Target>, doc: seq<Node>, root: Option<int>, i: int)
    requires i in ScanVisits(targets, doc, root)
    ensures InScope(doc, root, i)
    ensures exists k :: 0 <= k < |targets| && i in Candidates(targets[k], doc, root)
    decreases |targets|
  {
    if targets == [] {
      assert false;
    }
    var last := |targets| - 1;
    if i in Candidates(targets[last], doc, root) {
      CandidatesInScope(targets[last], doc, root, i);
    } else {
      var prefix := targets[..last];
      ScanVisitsSound(prefix, doc, root, i);
      var k :| 0 <= k < |prefix| && i in Candidates(prefix[k], doc, root);
      assert prefix[k] == targets[k];
    }
  }

  /**
   * Completeness of a scan: an element in scope that some table entry matches,
   * and can reach, is handed to checkAndProcessNode.
   */
  lemma ScanComplete(targets: seq<Target>, doc: seq<Node>, root: Option<int>, k: int, i: int)
    requires 0 <= k < |targets|
    requires InScope(doc, root, i) && MatchesCriteria(doc[i], targets[k]) && Reachable(targets[k], doc[i])
    ensures i in ScanVisits(targets, doc, root)
  {
    CandidatesExact(targets[k], doc, root, i);
    ScanVisitsInclude(targets, doc, root, k, i);
  }

  lemma {:induction false} AddedListIncludes(targets: seq<Target>, doc: seq<Node>, added: seq<int>, j: int, i: int)
    requires InRange(doc, added) && 0 <= j < |added|
    requires i in AddedVisits(targets, doc, added[j])
    ensures i in AddedListVisits(targets, doc, added)
    decreases |added|
  {
    if j < |added| - 1 {
      assert added[..|added| - 1][j] == added[j];
      AddedListIncludes(targets, doc, added[..|added| - 1], j, i);
    }
  }

  lemma {:induction false} BatchIncludes(targets: seq<Target>, doc: seq<Node>, records: seq<MutationRecord>, r: int, i: int)
    requires RecordsInRange(doc, records) && 0 <= r < |records| && records[r].kind == "childList"
    requires i in AddedListVisits(targets, doc, records[r].addedNodes)
    ensures i in BatchVisits(targets, doc, records)
    decreases |records|
  {
    if r < |records| - 1 {
      assert records[..|records| - 1][r] == records[r];
      BatchIncludes(targets, doc, records[..|records| - 1], r, i);
    }
  }

  /**
   * Completeness of a mutation batch: every added node is visited, and so is
   * every element below an added element that some table entry matches and
   * can reach, however deep it lies.
   */
  lemma BatchComplete(targets: seq<Target>, doc: seq<Node>, records: seq<MutationRecord>, r: int, j: int, i: int, k: int)
    requires RecordsInRange(doc, records) && 0 <= r < |records| && records[r].kind == "childList"
    requires 0 <= j < |records[r].addedNodes|
    requires 0 <= k < |targets|
    requires
      var n := records[r].addedNodes[j];
      i == n || (IsElement(doc[n]) && IsDescendant(doc, i, n) &&
                 MatchesCriteria(doc[i], targets[k]) && Reachable(targets[k], doc[i]))
    ensures i in BatchVisits(targets, doc, records)
  {
    var n := records[r].addedNodes[j];
    if i != n {
      ScanComplete(targets, doc, Some(n), k, i);
    }
    AddedListIncludes(targets, doc, records[r].addedNodes, j, i);
    BatchIncludes(targets, doc, records, r, i);
  }

  /** A disabled target contributes nothing to any scan. */
  lemma DisabledNotScanned(t: Target, doc: seq<Node>, root: Option<int>)
    requires !t.enabled
    ensures Candidates(t, doc, root) == []
  {
  }

  /** An unselectable target is skipped by every scan, although it would match everything. */
  lemma UnselectableNotScanned(t: Target, doc: seq<Node>, root: Option<int>)
    requires Unselectable(t)
    ensures Candidates(t, doc, root) == []
  {
    RenderEmpty(SelectorOf(t));
  }

  /**
   * Re-scan convergence: after reapplyAllWidths with width `w`, an element
   * that a reachable, plain, current-width target matches carries `w` in rem
   * in that target's property, unless a later matching target writes the
   * same property; the earlier style does not matter.
   */
  lemma ReapplyConverges(targets: seq<Target>, width: int, doc: seq<Node>, styles: seq<Style>, i: int, k: int)
    requires |styles| == |doc| && 0 <= i < |doc| && 0 <= k < |targets|
    requires Reachable(targets[k], doc[i]) && MatchesCriteria(doc[i], targets[k])
    requires targets[k].action.value == CurrentWidth
    requires forall j :: k < j < |targets| && MatchesCriteria(doc[i], targets[j]) ==>
      targets[j].action.property != targets[k].action.property
    ensures targets[k].action.property in Reapplied(targets, width, doc, styles)[i]
    ensures Reapplied(targets, width, doc, styles)[i][targets[k].action.property] == RemText(width)
  {
    CandidatesExact(targets[k], doc, None, i);
    PickedLastWriter(targets, ReapplyMask(targets, doc, i), width, styles[i], k);
  }

  /** Re-applying reaches only matching elements: nothing else is written. */
  lemma ReapplyLeavesOthers(targets: seq<Target>, width: int, doc: seq<Node>, styles: seq<Style>, i: int, p: string)
    requires |styles| == |doc| && 0 <= i < |doc|
    requires forall k :: 0 <= k < |targets| && MatchesCriteria(doc[i], targets[k]) ==> targets[k].action.property != p
    ensures (p in Reapplied(targets, width, doc, styles)[i]) == (p in styles[i])
    ensures p in styles[i] ==> Reapplied(targets, width, doc, styles)[i][p] == styles[i][p]
  {
    PickedLeavesOthers(targets, ReapplyMask(targets, doc, i), width, styles[i], p);
  }

  /**
   * On a table with no custom matcher and only writable, selectable entries,
   * reapplyAllWidths gives each element exactly what checkAndProcessNode would.
   */
  lemma ReapplyIsStyled(targets: seq<Target>, width: int, doc: seq<Node>, styles: seq<Style>)
    requires |styles| == |doc|
    requires forall k :: 0 <= k < |targets| ==>
      Writable(targets[k]) && !Unselectable(targets[k]) && targets[k].customMatcher.None?
    ensures Reapplied(targets, width, doc, styles) == Restyled(targets, width, doc, styles, seq(|doc|, i => i))
  {
    var all := seq(|doc|, i => i);
    forall i | 0 <= i < |doc|
      ensures Reapplied(targets, width, doc, styles)[i] == Restyled(targets, width, doc, styles, all)[i]
    {
      forall k | 0 <= k < |targets|
        ensures ReapplyMask(targets, doc, i)[k] == MatchMask(targets, doc[i])[k]
      {
        CandidatesExact(targets[k], doc, None, i);
      }
      assert ReapplyMask(targets, doc, i) == MatchMask(targets, doc[i]);
      assert all[i] == i;
    }
  }
}
