/**
 * The second revision of the per-unit insertion protocol: an existing
 * wrapper is always removed and, unless the call toggles, the target is
 * translated afresh. It adds grouped translation of a run of inline nodes,
 * per-document style injection and an error box in place of a failed
 * translation.
 */
module NodeManipulation {
  import opened Wrappers
  import opened Dom
  import opened Traversal
  import opened Overlay

  /** A document, named by a number; the page's own document is `MainDocument`. */
  type DocId = nat

  const MainDocument: DocId := 0

  /**
   * `findExistedTranslatedWrapper`: for a text node, or an element marked as
   * the end of a run (CONSECUTIVE_INLINE_END_ATTRIBUTE), its next sibling when
   * that is an element carrying NOTRANSLATE_CLASS; for any other element, its
   * first light child carrying that class.
   */
  function FindExistedWrapper(n: Node, tp: seq<Step>): (r: Option<Slot>)
    requires ValidPath(n, tp)
    ensures r.Some? ==> Occupied(n, r.value) && HasClass(KidAt(n, r.value), NoTranslate)
    ensures (At(n, tp).Text? || (At(n, tp).Element? && At(n, tp).attrs.inlineEnd)) ==>
      (r.Some? <==> NextSibling(n, tp).Some? && HasClass(KidAt(n, NextSibling(n, tp).value), NoTranslate))
      && (r.Some? ==> r == NextSibling(n, tp))
    ensures At(n, tp).Element? && !At(n, tp).attrs.inlineEnd ==> r == FirstChildWith(n, tp, NoTranslate)
    ensures At(n, tp).Other? ==> r.None?
  {
    var t := At(n, tp);
    if t.Text? || (t.Element? && t.attrs.inlineEnd) then
      match NextSibling(n, tp)
      case Some(s) => if HasClass(KidAt(n, s), NoTranslate) then Some(s) else None
      case None => None
    else if t.Element? then FirstChildWith(n, tp, NoTranslate)
    else None
  }

  /** What the synchronous part of a translation leaves for the part after the await. */
  datatype Pending = Pending(nodes: seq<NodeId>, target: Node, wrapper: NodeId, spinner: NodeId, text: string)

  /** The ids of a run's nodes, in order. */
  function Ids(nodes: seq<Node>): (r: seq<NodeId>)
    ensures |r| == |nodes| && forall i | 0 <= i < |nodes| :: r[i] == nodes[i].id
  {
    seq(|nodes|, i requires 0 <= i < |nodes| => nodes[i].id)
  }

  /** Every node of the run is already being translated. */
  predicate AllInFlight(nodes: seq<Node>, translating: set<NodeId>) {
    forall i | 0 <= i < |nodes| :: nodes[i].id in translating
  }

  /** The ids among the first `k`. */
  function SetOf(ids: seq<NodeId>, k: nat): (r: set<NodeId>)
    requires k <= |ids|
    ensures forall x :: x in r <==> exists j | 0 <= j < k :: ids[j] == x
  {
    if k == 0 then {} else SetOf(ids, k - 1) + {ids[k - 1]}
  }

  /** `nodes.map(extractTextContent).join(' ')`. */
  function JoinedText(texts: seq<string>): string {
    if texts == [] then ""
    else if |texts| == 1 then texts[0]
    else JoinedText(texts[..|texts| - 1]) + " " + texts[|texts| - 1]
  }

  /** The joined text is empty only for no node, or for a single node with no text. */
  lemma {:induction false} JoinedTextEmpty(texts: seq<string>)
    ensures JoinedText(texts) == "" <==> texts == [] || (|texts| == 1 && texts[0] == "")
  {
    if |texts| > 1 {
      assert |JoinedText(texts)| >= 1;
    }
  }

  /** The extraction of each node of a run, as each now stands. */
  function RunTexts(n: Node, nodes: seq<Node>, pol: Policy): (r: seq<string>)
    ensures |r| == |nodes|
  {
    seq(|nodes|, i requires 0 <= i < |nodes| => ExtractTextContent(Current(n, nodes[i].id, nodes[i]), pol))
  }

  /** The state of this revision: the page, the in-flight registry, the styled documents and the id allocator. */
  class Translator {
    var root: Node
    /** `translatingNodes`. */
    var translating: set<NodeId>
    /** `documentsWithStyles`. */
    var documentsWithStyles: set<DocId>
    /** The documents that received the style element, in order. */
    var injected: seq<DocId>
    var nextId: nat

    ghost predicate Valid()
      reads this
    {
      && root.Element? && Unique(root) && IdsBelow(root, nextId)
      && (forall i | 0 <= i < |injected| :: injected[i] != MainDocument && injected[i] in documentsWithStyles)
      && (forall i, j | 0 <= i < j < |injected| :: injected[i] != injected[j])
    }

    constructor(page: Node, bound: nat)
      requires page.Element? && Unique(page) && IdsBelow(page, bound)
      ensures Valid() && root == page && translating == {} && documentsWithStyles == {} && injected == [] && nextId == bound
    {
      root, translating, documentsWithStyles, injected, nextId := page, {}, {}, [], bound;
    }

    /**
     * `ensureStylesInjected` for a node owned by `doc`: nothing for the main
     * document or a document already styled; otherwise the document is
     * marked, and the style element goes into its head (or root element)
     * when it has one.
     */
    method EnsureStylesInjected(doc: DocId, hasHead: bool)
      requires Valid()
      modifies this`documentsWithStyles, this`injected
      ensures Valid()
      ensures Styled(old(documentsWithStyles), old(injected), doc, hasHead, documentsWithStyles, injected)
    {
      if doc == MainDocument || doc in documentsWithStyles {
        return;
      }
      documentsWithStyles := documentsWithStyles + {doc};
      if hasHead {
        injected := injected + [doc];
      }
    }

    /**
     * `translateNode` up to its await: the registry guard, style injection,
     * the target, the removal of an existing wrapper, and the placeholder.
     * The guard's early return still runs the `finally` block, so a call
     * turned away takes the node out of the registry.
     */
    method TranslateNodeStart(node: Node, toggle: bool, doc: DocId, hasHead: bool, pol: Policy)
      returns (pending: Option<Pending>)
      requires Valid()
      modifies this
      ensures Valid()
      ensures node.id in old(translating) ==>
        && root == old(root) && translating == old(translating) - {node.id} && nextId == old(nextId)
        && documentsWithStyles == old(documentsWithStyles) && injected == old(injected) && pending.None?
      ensures node.id !in old(translating) ==> Admitted(node.id, toggle, doc, hasHead, pol, pending)
    {
      if node.id in translating {
        translating := translating - {node.id};
        return None;
      }
      pending := Admit(node.id, toggle, doc, hasHead, pol);
    }

    /** `translateNode` with a guard that leaves the registry as it is when it turns a call away. */
    method TranslateNodeStartGuarded(node: Node, toggle: bool, doc: DocId, hasHead: bool, pol: Policy)
      returns (pending: Option<Pending>)
      requires Valid()
      modifies this
      ensures Valid()
      ensures node.id in old(translating) ==>
        && root == old(root) && translating == old(translating) && nextId == old(nextId)
        && documentsWithStyles == old(documentsWithStyles) && injected == old(injected) && pending.None?
      ensures node.id !in old(translating) ==> Admitted(node.id, toggle, doc, hasHead, pol, pending)
    {
      if node.id in translating {
        return None;
      }
      pending := Admit(node.id, toggle, doc, hasHead, pol);
    }

    /**
     * What a call past the guard does: the node is registered for as long as
     * the call is pending, the styles are injected, and the target is
     * refreshed (nothing when the node has left the page).
     */
    twostate predicate Admitted(id: NodeId, toggle: bool, doc: DocId, hasHead: bool, pol: Policy, new pending: Option<Pending>)
      reads this
    {
      && translating == old(translating) + (if pending.Some? then {id} else {})
      && Styled(old(documentsWithStyles), old(injected), doc, hasHead, documentsWithStyles, injected)
      && (TargetOf(old(root), id).None? ==> root == old(root) && nextId == old(nextId) && pending.None?)
      && (TargetOf(old(root), id).Some? ==>
            Refreshed(old(root), old(nextId), TargetOf(old(root), id).value, [id], toggle, pol, root, nextId, pending))
    }

    /** The part of `translateNode` after the guard, for a node not in flight. */
    method Admit(id: NodeId, toggle: bool, doc: DocId, hasHead: bool, pol: Policy) returns (pending: Option<Pending>)
      requires Valid() && id !in translating
      modifies this
      ensures Valid()
      ensures Admitted(id, toggle, doc, hasHead, pol, pending)
    {
      translating := translating + {id};
      EnsureStylesInjected(doc, hasHead);
      pending := NodeOnPage(id, toggle, pol);
    }

    /**
     * Three calls for one node while the first is pending, with the guard as
     * written: the second is turned away but takes the node out of the
     * registry, so the third goes past the guard, removes the first call's
     * placeholder and puts up its own. Two translations of the node are then
     * in flight, and the first one's wrapper is no longer on the page.
     */
    method RepeatWhilePending(node: Node, doc: DocId, hasHead: bool, pol: Policy)
      returns (first: Option<Pending>, second: Option<Pending>, third: Option<Pending>)
      requires Valid() && node.id !in translating && ReadyToPlace(root, node.id, pol)
      modifies this
      ensures Valid()
      ensures first.Some? && second.None? && third.Some? && first.value.nodes == third.value.nodes == [node.id]
      ensures first.value.wrapper != third.value.wrapper && Count(root, first.value.wrapper) == 0
      ensures Count(root, third.value.wrapper) == 1 && node.id in translating
    {
      ghost var r0, n0 := root, nextId;
      first := TranslateNodeStart(node, false, doc, hasHead, pol);
      FirstPlacement(r0, n0, node.id, pol, root, nextId, first);
      second := TranslateNodeStart(node, false, doc, hasHead, pol);
      PlacementFoundAgain(r0, n0, node.id, pol);
      third := TranslateNodeStart(node, false, doc, hasHead, pol);
      SecondPlacement(r0, n0, node.id, pol, root, nextId, third);
    }

    /**
     * The same three calls with a guard that leaves the registry alone: the
     * second and third are turned away, the node stays registered, and the
     * first call's placeholder stays on the page.
     */
    method RepeatWhilePendingGuarded(node: Node, doc: DocId, hasHead: bool, pol: Policy)
      returns (first: Option<Pending>, second: Option<Pending>, third: Option<Pending>)
      requires Valid() && node.id !in translating && ReadyToPlace(root, node.id, pol)
      modifies this
      ensures Valid()
      ensures first.Some? && second.None? && third.None? && first.value.nodes == [node.id]
      ensures Count(root, first.value.wrapper) == 1 && node.id in translating
    {
      ghost var r0, n0 := root, nextId;
      first := TranslateNodeStartGuarded(node, false, doc, hasHead, pol);
      FirstPlacement(r0, n0, node.id, pol, root, nextId, first);
      second := TranslateNodeStartGuarded(node, false, doc, hasHead, pol);
      third := TranslateNodeStartGuarded(node, false, doc, hasHead, pol);
    }

    /** The rest of the synchronous part, for a registered node. */
    method NodeOnPage(id: NodeId, toggle: bool, pol: Policy) returns (pending: Option<Pending>)
      requires Valid()
      modifies this`root, this`nextId, this`translating
      ensures Valid()
      ensures translating == old(translating) - (if pending.Some? then {} else {id})
      ensures TargetOf(old(root), id).None? ==> root == old(root) && nextId == old(nextId) && pending.None?
      ensures TargetOf(old(root), id).Some? ==>
        Refreshed(old(root), old(nextId), TargetOf(old(root), id).value, [id], toggle, pol, root, nextId, pending)
    {
      var target := LocateTarget(root, id);
      if target.None? {
        translating := translating - {id};
        return None;
      }
      pending := Refresh(target.value, [id], toggle, pol);
      if pending.None? {
        translating := translating - {id};
      }
    }

    /** From the target on: remove an existing wrapper, stop if toggling, else put a placeholder in place. */
    method Refresh(tp: seq<Step>, nodes: seq<NodeId>, toggle: bool, pol: Policy) returns (pending: Option<Pending>)
      requires Valid() && ValidPath(root, tp)
      modifies this`root, this`nextId
      ensures Valid()
      ensures Refreshed(old(root), old(nextId), tp, nodes, toggle, pol, root, nextId, pending)
    {
      var existed := FindExistedWrapper(root, tp);
      if existed.Some? {
        RemoveKeepsTarget(root, tp, existed.value);
        RemoveAtKeeps(root, existed.value, nextId);
        root := RemoveAt(root, existed.value);
        if toggle {
          return None;
        }
      }
      var target := At(root, tp);
      pending := Place(WrapperSlot(root, tp), ExtractTextContent(target, pol), nodes, target);
    }

    /** `ids.forEach(id => translatingNodes.add(id))`. */
    method Register(ids: seq<NodeId>)
      modifies this`translating
      ensures translating == old(translating) + SetOf(ids, |ids|)
    {
      for i := 0 to |ids|
        invariant translating == old(translating) + SetOf(ids, i)
      {
        translating := translating + {ids[i]};
      }
    }

    /** `ids.forEach(id => translatingNodes.delete(id))`. */
    method Deregister(ids: seq<NodeId>)
      modifies this`translating
      ensures translating == old(translating) - SetOf(ids, |ids|)
    {
      for i := 0 to |ids|
        invariant translating == old(translating) - SetOf(ids, i)
      {
        translating := translating - {ids[i]};
      }
    }

    /**
     * `translateConsecutiveInlineNodes` up to its await: when every node of
     * the run is in flight the call is turned away, and its `finally` block
     * takes all of them out of the registry; otherwise all are registered,
     * the last node is the target, an existing wrapper is removed, and a
     * placeholder goes right after the last node.
     */
    method TranslateRunStart(nodes: seq<Node>, toggle: bool, doc: DocId, hasHead: bool, pol: Policy)
      returns (pending: Option<Pending>)
      requires Valid()
      modifies this
      ensures Valid()
      ensures AllInFlight(nodes, old(translating)) ==>
        && root == old(root) && translating == old(translating) - SetOf(Ids(nodes), |nodes|) && nextId == old(nextId)
        && documentsWithStyles == old(documentsWithStyles) && injected == old(injected) && pending.None?
      ensures !AllInFlight(nodes, old(translating)) ==> RunAdmitted(nodes, toggle, doc, hasHead, pol, pending)
    {
      if AllInFlight(nodes, translating) {
        Deregister(Ids(nodes));
        return None;
      }
      pending := AdmitRun(nodes, toggle, doc, hasHead, pol);
    }

    /** `translateConsecutiveInlineNodes` with a guard that leaves the registry as it is when it turns a call away. */
    method TranslateRunStartGuarded(nodes: seq<Node>, toggle: bool, doc: DocId, hasHead: bool, pol: Policy)
      returns (pending: Option<Pending>)
      requires Valid()
      modifies this
      ensures Valid()
      ensures AllInFlight(nodes, old(translating)) ==>
        && root == old(root) && translating == old(translating) && nextId == old(nextId)
        && documentsWithStyles == old(documentsWithStyles) && injected == old(injected) && pending.None?
      ensures !AllInFlight(nodes, old(translating)) ==> RunAdmitted(nodes, toggle, doc, hasHead, pol, pending)
    {
      if AllInFlight(nodes, translating) {
        return None;
      }
      pending := AdmitRun(nodes, toggle, doc, hasHead, pol);
    }

    /**
     * What a run's call past the guard does: the run is not empty, all its
     * nodes are registered while the call is pending and taken out when it
     * is not, the styles are injected, and the last node's target is
     * refreshed (nothing when that node has left the page).
     */
    twostate predicate RunAdmitted(nodes: seq<Node>, toggle: bool, doc: DocId, hasHead: bool, pol: Policy,
                                   new pending: Option<Pending>)
      reads this
    {
      && |nodes| > 0
      && translating == (if pending.Some? then old(translating) + SetOf(Ids(nodes), |nodes|)
                         else old(translating) - SetOf(Ids(nodes), |nodes|))
      && Styled(old(documentsWithStyles), old(injected), doc, hasHead, documentsWithStyles, injected)
      && (Find(old(root), nodes[|nodes| - 1].id).None? ==> root == old(root) && nextId == old(nextId) && pending.None?)
      && (Find(old(root), nodes[|nodes| - 1].id).Some? ==>
            RunRefreshed(old(root), old(nextId), Find(old(root), nodes[|nodes| - 1].id).value, nodes, toggle, pol,
                         root, nextId, pending))
    }

    /** The part of `translateConsecutiveInlineNodes` after the guard, for a run not wholly in flight. */
    method AdmitRun(nodes: seq<Node>, toggle: bool, doc: DocId, hasHead: bool, pol: Policy)
      returns (pending: Option<Pending>)
      requires Valid() && !AllInFlight(nodes, translating)
      modifies this
      ensures Valid()
      ensures RunAdmitted(nodes, toggle, doc, hasHead, pol, pending)
    {
      ghost var r0, n0, t0 := root, nextId, translating;
      ghost var registered := SetOf(Ids(nodes), |nodes|);
      Register(Ids(nodes));
      EnsureStylesInjected(doc, hasHead);
      assert root == r0 && nextId == n0 && translating == t0 + registered;
      pending := RunOnPage(nodes, toggle, pol);
      assert pending.None? ==> translating == t0 - registered;
    }

    /** The rest of the synchronous part, for a registered run. */
    method RunOnPage(nodes: seq<Node>, toggle: bool, pol: Policy) returns (pending: Option<Pending>)
      requires Valid() && |nodes| > 0
      modifies this`root, this`nextId, this`translating
      ensures Valid()
      ensures translating == old(translating) - (if pending.Some? then {} else SetOf(Ids(nodes), |nodes|))
      ensures Find(old(root), nodes[|nodes| - 1].id).None? ==> root == old(root) && nextId == old(nextId) && pending.None?
      ensures Find(old(root), nodes[|nodes| - 1].id).Some? ==>
        RunRefreshed(old(root), old(nextId), Find(old(root), nodes[|nodes| - 1].id).value, nodes, toggle, pol, root, nextId, pending)
    {
      var found := Find(root, nodes[|nodes| - 1].id);
      if found.None? {
        Deregister(Ids(nodes));
        return None;
      }
      pending := RunRefresh(found.value, nodes, toggle, pol);
      if pending.None? {
        Deregister(Ids(nodes));
      }
    }

    /**
     * The part after the await, for a node or a run
     * (`getTranslatedTextAndRemoveSpinner`, then the fill): on failure the
     * spinner goes and one error box is appended to the wrapper; on success
     * the spinner goes and a non-empty translation fills the wrapper; every
     * node of the unit leaves the registry.
     */
    method TranslateFinish(p: Pending, outcome: Outcome, pol: Policy)
      requires Valid() && p.spinner < nextId
      modifies this`root, this`nextId, this`translating
      ensures Valid()
      ensures translating == old(translating) - SetOf(p.nodes, |p.nodes|)
      ensures p.spinner != old(root).id ==> Count(root, p.spinner) == 0
      ensures outcome.Failed? ==>
        root == AppendTo(Detach(old(root), p.spinner), p.wrapper, [ErrorBox(old(nextId))]) && nextId == old(nextId) + 1
      ensures outcome.Translated? && outcome.text == "" ==>
        root == Detach(old(root), p.spinner) && nextId == old(nextId)
      ensures outcome.Translated? && outcome.text != "" ==>
        var r1 := Detach(old(root), p.spinner);
        var target := Current(r1, p.target.id, p.target);
        && root == AppendTo(r1, p.wrapper, Fill(target, outcome.text, old(nextId), pol, false))
        && nextId == old(nextId) + 4
    {
      DetachKeeps(root, p.spinner, nextId);
      root := Detach(root, p.spinner);
      assert Valid();
      match outcome {
        case Failed =>
          AppendToWrapper(p.wrapper, [ErrorBox(nextId)], 1, p.spinner);
        case Translated(text) =>
          if text != "" {
            var target := Current(root, p.target.id, p.target);
            AppendToWrapper(p.wrapper, Fill(target, text, nextId, pol, false), 4, p.spinner);
          }
      }
      Deregister(p.nodes);
    }

    /** Appends `xs`, made of the next `used` ids, to the wrapper; a node already gone stays gone. */
    method AppendToWrapper(wrapper: NodeId, xs: seq<Node>, used: nat, gone: NodeId)
      requires Valid() && FreshSeq(xs, nextId, nextId + used)
      modifies this`root, this`nextId
      ensures Valid() && root == AppendTo(old(root), wrapper, xs) && nextId == old(nextId) + used
      ensures Count(old(root), gone) == 0 && gone < old(nextId) ==> Count(root, gone) == 0
    {
      AppendFresh(root, wrapper, xs, nextId, nextId + used);
      if Count(root, gone) == 0 && gone < nextId {
        AppendKeepsGone(root, wrapper, xs, gone, nextId, nextId + used);
      }
      root := AppendTo(root, wrapper, xs);
      nextId := nextId + used;
    }

    /** `removeAllTranslatedWrapperNodes` on the whole page (the error boxes' rendering cleanup is not modelled). */
    method RemoveAllTranslatedWrapperNodes()
      requires Valid()
      modifies this`root
      ensures Valid() && root == Sweep(old(root))
    {
      forall x ensures Count(Sweep(root), x) <= Count(root, x) {
        SweepCounts(root, x);
      }
      root := Sweep(root);
    }

    /** From the run's last node on: remove an existing wrapper, stop if toggling, else put a placeholder after it. */
    method RunRefresh(tp: seq<Step>, nodes: seq<Node>, toggle: bool, pol: Policy) returns (pending: Option<Pending>)
      requires Valid() && ValidPath(root, tp)
      modifies this`root, this`nextId
      ensures Valid()
      ensures RunRefreshed(old(root), old(nextId), tp, nodes, toggle, pol, root, nextId, pending)
    {
      var existed := FindExistedWrapper(root, tp);
      if existed.Some? {
        RemoveKeepsTarget(root, tp, existed.value);
        RemoveAtKeeps(root, existed.value, nextId);
        root := RemoveAt(root, existed.value);
        if toggle {
          return None;
        }
      }
      pending := Place(SlotAfter(root, tp), JoinedText(RunTexts(root, nodes, pol)), Ids(nodes), At(root, tp));
    }

    /** Unless the text is empty: a fresh wrapper with a spinner goes to `slot`, and the call is pending. */
    method Place(slot: Option<Slot>, text: string, nodes: seq<NodeId>, target: Node) returns (pending: Option<Pending>)
      requires Valid() && (slot.Some? ==> Insertable(root, slot.value))
      modifies this`root, this`nextId
      ensures Valid()
      ensures Placeholder(old(root), old(nextId), slot, text, nodes, target, root, nextId, pending)
    {
      if text == "" {
        return None;
      }
      var wrapper := NewWrapper(nextId);
      match slot {
        case Some(s) =>
          InsertFresh(root, s.parent, s.inShadow, s.index, [wrapper], nextId, nextId + 2);
          root := InsertAt(root, s, [wrapper]);
        case None =>
      }
      pending := Some(Pending(nodes, target, nextId, nextId + 1, text));
      nextId := nextId + 2;
    }
  }

  /**
   * The styled documents after `ensureStylesInjected` for a node of `doc`:
   * unchanged for the main document or a document already styled; otherwise
   * `doc` is marked, and the style element goes into it when it has a head
   * or a root element.
   */
  ghost predicate Styled(docs: set<DocId>, injected: seq<DocId>, doc: DocId, hasHead: bool,
                         docs': set<DocId>, injected': seq<DocId>)
  {
    if doc == MainDocument || doc in docs then docs' == docs && injected' == injected
    else docs' == docs + {doc} && injected' == injected + (if hasHead then [doc] else [])
  }

  /**
   * The state after the synchronous part of `translateNode` on the target at
   * `tp`: an existing wrapper is removed; toggling stops there; otherwise,
   * unless the text is empty, a fresh wrapper with a spinner goes to
   * `WrapperSlot` and the call is pending.
   */
  ghost predicate Refreshed(root: Node, next: nat, tp: seq<Step>, nodes: seq<NodeId>, toggle: bool, pol: Policy,
                            root': Node, next': nat, pending: Option<Pending>)
    requires ValidPath(root, tp)
  {
    var existed := FindExistedWrapper(root, tp);
    if existed.Some? && toggle then
      pending.None? && next' == next && root' == RemoveAt(root, existed.value)
    else
      var r1 := if existed.Some? then RemoveAt(root, existed.value) else root;
      RemoveKeepsTargetIfAny(root, tp, existed);
      var target := At(r1, tp);
      Placeholder(r1, next, WrapperSlot(r1, tp), ExtractTextContent(target, pol), nodes, target, root', next', pending)
  }

  /**
   * The same for a run whose last node sits at `tp`: the text is the run's
   * extractions joined by single spaces, and the wrapper goes right after
   * the last node.
   */
  ghost predicate RunRefreshed(root: Node, next: nat, tp: seq<Step>, nodes: seq<Node>, toggle: bool, pol: Policy,
                               root': Node, next': nat, pending: Option<Pending>)
    requires ValidPath(root, tp)
  {
    var existed := FindExistedWrapper(root, tp);
    if existed.Some? && toggle then
      pending.None? && next' == next && root' == RemoveAt(root, existed.value)
    else
      var r1 := if existed.Some? then RemoveAt(root, existed.value) else root;
      RemoveKeepsTargetIfAny(root, tp, existed);
      Placeholder(r1, next, SlotAfter(r1, tp), JoinedText(RunTexts(r1, nodes, pol)), Ids(nodes), At(r1, tp), root', next', pending)
  }

  /**
   * Empty text changes nothing; otherwise a fresh wrapper with a spinner goes
   * to `slot` (nowhere when the target has no parent) and the call is pending.
   */
  ghost predicate Placeholder(root: Node, next: nat, slot: Option<Slot>, text: string, nodes: seq<NodeId>, target: Node,
                              root': Node, next': nat, pending: Option<Pending>)
    requires slot.Some? ==> Insertable(root, slot.value)
  {
    if text == "" then pending.None? && next' == next && root' == root
    else
      && pending == Some(Pending(nodes, target, next, next + 1, text))
      && next' == next + 2
      && root' == match slot
                  case Some(s) => InsertAt(root, s, [NewWrapper(next)])
                  case None => root
  }

  lemma RemoveKeepsTargetIfAny(root: Node, tp: seq<Step>, existed: Option<Slot>)
    requires ValidPath(root, tp) && existed == FindExistedWrapper(root, tp)
    ensures existed.Some? ==> ValidPath(RemoveAt(root, existed.value), tp)
  {
    if existed.Some? {
      RemoveKeepsTarget(root, tp, existed.value);
    }
  }

  /**
   * The node is on the page, its target is text or an element not marked as
   * a run's end, holds no wrapper yet, has somewhere for one and has text:
   * a call for it puts up a placeholder.
   */
  ghost predicate ReadyToPlace(n: Node, id: NodeId, pol: Policy) {
    && TargetOf(n, id).Some?
    && var tp := TargetOf(n, id).value;
      && (At(n, tp).Text? || (At(n, tp).Element? && !At(n, tp).attrs.inlineEnd))
      && FindExistedWrapper(n, tp).None? && WrapperSlot(n, tp).Some?
      && ExtractTextContent(At(n, tp), pol) != ""
  }

  /** A first call for a node ready for a placeholder puts one up, holding the only node with its id. */
  lemma FirstPlacement(r0: Node, n0: nat, id: NodeId, pol: Policy, root: Node, next: nat, pending: Option<Pending>)
    requires Unique(r0) && IdsBelow(r0, n0) && ReadyToPlace(r0, id, pol)
    requires Refreshed(r0, n0, TargetOf(r0, id).value, [id], false, pol, root, next, pending)
    ensures var tp := TargetOf(r0, id).value;
      && pending == Some(Pending([id], At(r0, tp), n0, n0 + 1, ExtractTextContent(At(r0, tp), pol)))
      && root == InsertAt(r0, WrapperSlot(r0, tp).value, [NewWrapper(n0)]) && next == n0 + 2
      && Count(root, n0) == 1
  {
    var tp := TargetOf(r0, id).value;
    var s := WrapperSlot(r0, tp).value;
    WrapperCounted(r0, s, n0, n0);
  }

  /**
   * The wrapper the first call put up is the one a later call for the same
   * node finds, and removing it gives back the page as it was.
   */
  lemma PlacementFoundAgain(r0: Node, n0: nat, id: NodeId, pol: Policy)
    requires Unique(r0) && IdsBelow(r0, n0) && ReadyToPlace(r0, id, pol)
    ensures var tp := TargetOf(r0, id).value;
      var s := WrapperSlot(r0, tp).value;
      var r1 := InsertAt(r0, s, [NewWrapper(n0)]);
      && TargetOf(r1, id) == Some(tp) && FindExistedWrapper(r1, tp) == Some(s) && RemoveAt(r1, s) == r0
  {
    var tp := TargetOf(r0, id).value;
    CountAtLeastOne(r0, Find(r0, id).value, id);
    CountSeqSingle(NewWrapper(n0), id);
    PlacedWrapperIsFound(r0, id, tp, NewWrapper(n0), pol);
  }

  /** A wrapper put up at a slot is the only node with its id, and the ids it does not use stay absent. */
  lemma WrapperCounted(r0: Node, s: Slot, n0: nat, k: nat)
    requires Insertable(r0, s) && IdsBelow(r0, n0) && n0 <= k
    ensures Count(InsertAt(r0, s, [NewWrapper(k)]), k) == 1
    ensures k != n0 ==> Count(InsertAt(r0, s, [NewWrapper(k)]), n0) == 0
  {
    InsertKidsCounts(r0, s.parent, s.inShadow, s.index, [NewWrapper(k)]);
    CountSeqSingle(NewWrapper(k), n0);
    CountSeqSingle(NewWrapper(k), k);
  }

  /**
   * A call for the same node past the guard while the first is pending finds
   * the first call's wrapper, removes it, and puts up a second placeholder
   * in its place.
   */
  lemma SecondPlacement(r0: Node, n0: nat, id: NodeId, pol: Policy, root: Node, next: nat, pending: Option<Pending>)
    requires Unique(r0) && IdsBelow(r0, n0) && ReadyToPlace(r0, id, pol)
    requires var tp := TargetOf(r0, id).value;
      var r1 := InsertAt(r0, WrapperSlot(r0, tp).value, [NewWrapper(n0)]);
      && ValidPath(r1, tp)
      && Refreshed(r1, n0 + 2, tp, [id], false, pol, root, next, pending)
    ensures var tp := TargetOf(r0, id).value;
      && pending == Some(Pending([id], At(r0, tp), n0 + 2, n0 + 3, ExtractTextContent(At(r0, tp), pol)))
      && root == InsertAt(r0, WrapperSlot(r0, tp).value, [NewWrapper(n0 + 2)]) && next == n0 + 4
      && Count(root, n0) == 0 && Count(root, n0 + 2) == 1
  {
    var tp := TargetOf(r0, id).value;
    var s := WrapperSlot(r0, tp).value;
    PlacementFoundAgain(r0, n0, id, pol);
    WrapperCounted(r0, s, n0, n0 + 2);
  }

  /**
   * On a text target, or an element target that is not marked as a run's
   * end, the wrapper placed by one pass is the wrapper the next pass finds:
   * looking the node up again leads to the same target, a refreshing pass
   * replaces the wrapper rather than adding a second one, and a toggling pass
   * removes exactly it, giving back the page as it was.
   */
  lemma PlacedWrapperIsFound(n: Node, id: NodeId, tp: seq<Step>, w: Node, pol: Policy)
    requires Unique(n) && TargetOf(n, id) == Some(tp) && ExtractTextContent(At(n, tp), pol) != ""
    requires HasClass(w, NoTranslate) && Count(w, id) == 0
    requires At(n, tp).Text? || (At(n, tp).Element? && !At(n, tp).attrs.inlineEnd)
    requires FindExistedWrapper(n, tp).None? && WrapperSlot(n, tp).Some?
    ensures var n' := InsertAt(n, WrapperSlot(n, tp).value, [w]);
      && TargetOf(n', id) == Some(tp) && At(n', tp).id == At(n, tp).id
      && FindExistedWrapper(n', tp) == WrapperSlot(n, tp)
      && KidAt(n', WrapperSlot(n, tp).value) == w
      && RemoveAt(n', WrapperSlot(n, tp).value) == n
  {
    var s := WrapperSlot(n, tp).value;
    InsertThenRemove(n, s, w);
    PlacementKeepsTarget(n, id, w);
    if At(n, tp).Element? {
      AppendChildFound(n, tp, w, NoTranslate);
    } else {
      InsertAfterKeepsNode(n, tp, w);
    }
  }

  /**
   * The wrapper placed right after a run's last node is found by the next
   * pass exactly when that node is text or carries the run-end marker; for
   * any other element the next pass looks among its children, misses the
   * wrapper and places a second one.
   */
  lemma RunWrapperFoundIff(n: Node, tp: seq<Step>, w: Node)
    requires ValidPath(n, tp) && tp != [] && !At(n, tp).Other? && HasClass(w, NoTranslate)
    requires FindExistedWrapper(n, tp).None?
    ensures var n' := InsertAt(n, SlotAfter(n, tp).value, [w]);
      && ValidPath(n', tp) && At(n', tp) == At(n, tp)
      && (FindExistedWrapper(n', tp).Some? <==> At(n, tp).Text? || At(n, tp).attrs.inlineEnd)
      && (FindExistedWrapper(n', tp).Some? ==>
            FindExistedWrapper(n', tp) == SlotAfter(n, tp) && RemoveAt(n', SlotAfter(n, tp).value) == n)
  {
    InsertAfterKeepsNode(n, tp, w);
    InsertThenRemove(n, SlotAfter(n, tp).value, w);
  }
}
