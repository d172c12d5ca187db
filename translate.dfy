/**
 * The first revision of the per-unit insertion protocol: a node already
 * carrying a wrapper keeps it, unless the call toggles, in which case the
 * wrapper is removed.
 */
module Translate {
  import opened Wrappers
  import opened Dom
  import opened Traversal
  import opened Overlay

  /**
   * `findExistedTranslatedWrapper`: for a text target, its next sibling when
   * that is an element carrying NOTRANSLATE_CLASS; for an element target, its
   * first light child carrying that class.
   */
  function FindExistedWrapper(n: Node, tp: seq<Step>): (r: Option<Slot>)
    requires ValidPath(n, tp)
    ensures r.Some? ==> Occupied(n, r.value) && HasClass(KidAt(n, r.value), NoTranslate)
    ensures At(n, tp).Text? ==> (r.Some? <==> NextSibling(n, tp).Some? && HasClass(KidAt(n, NextSibling(n, tp).value), NoTranslate))
    ensures At(n, tp).Text? && r.Some? ==> r == NextSibling(n, tp)
    ensures At(n, tp).Element? ==> r == FirstChildWith(n, tp, NoTranslate)
    ensures At(n, tp).Other? ==> r.None?
  {
    match At(n, tp)
    case Text(_, _) =>
      (match NextSibling(n, tp)
       case Some(s) => if HasClass(KidAt(n, s), NoTranslate) then Some(s) else None
       case None => None)
    case Element(_, _, _, _, _, _) => FirstChildWith(n, tp, NoTranslate)
    case Other(_, _, _) => None
  }

  /** What the synchronous part of `translateNode` leaves for the part after the await. */
  datatype Pending = Pending(node: NodeId, target: Node, wrapper: NodeId, spinner: NodeId, text: string)

  /** The engine's state: the page tree, the in-flight registry and the id allocator. */
  class Translator {
    var root: Node
    /** `translatingNodes`: the nodes whose translation is in flight. */
    var translating: set<NodeId>
    /** Ids from here on are unused; it stands for the creation of new DOM objects. */
    var nextId: nat

    ghost predicate Valid()
      reads this
    {
      root.Element? && Unique(root) && IdsBelow(root, nextId)
    }

    constructor(page: Node, bound: nat)
      requires page.Element? && Unique(page) && IdsBelow(page, bound)
      ensures Valid() && root == page && translating == {} && nextId == bound
    {
      root, translating, nextId := page, {}, bound;
    }

    /**
     * `translateNode` up to its await: the registry guard, the target, the
     * keep-or-toggle of an existing wrapper, and the placeholder wrapper.
     * Returns what the rest of the call needs when it reaches the await. The
     * guard's early return still runs the `finally` block, so a call turned
     * away takes the node out of the registry.
     */
    method TranslateNodeStart(node: Node, toggle: bool, pol: Policy) returns (pending: Option<Pending>)
      requires Valid()
      modifies this
      ensures Valid()
      ensures node.id in old(translating) ==>
        root == old(root) && translating == old(translating) - {node.id} && nextId == old(nextId) && pending.None?
      ensures node.id !in old(translating) ==> Admitted(node.id, toggle, pol, pending)
    {
      if node.id in translating {
        translating := translating - {node.id};
        return None;
      }
      pending := Admit(node.id, toggle, pol);
    }

    /** `translateNode` with a guard that leaves the registry as it is when it turns a call away. */
    method TranslateNodeStartGuarded(node: Node, toggle: bool, pol: Policy) returns (pending: Option<Pending>)
      requires Valid()
      modifies this
      ensures Valid()
      ensures node.id in old(translating) ==>
        root == old(root) && translating == old(translating) && nextId == old(nextId) && pending.None?
      ensures node.id !in old(translating) ==> Admitted(node.id, toggle, pol, pending)
    {
      if node.id in translating {
        return None;
      }
      pending := Admit(node.id, toggle, pol);
    }

    /**
     * What a call past the guard does: the node is registered for as long as
     * the call is pending, and the wrapper on its target is kept, toggled or
     * put up (nothing when the node has left the page).
     */
    twostate predicate Admitted(id: NodeId, toggle: bool, pol: Policy, new pending: Option<Pending>)
      reads this
    {
      && translating == old(translating) + (if pending.Some? then {id} else {})
      && (TargetOf(old(root), id).None? ==> root == old(root) && nextId == old(nextId) && pending.None?)
      && (TargetOf(old(root), id).Some? ==>
            Placed(old(root), old(nextId), TargetOf(old(root), id).value, id, toggle, pol, root, nextId, pending))
    }

    /** The part of `translateNode` after the guard, for a node not in flight. */
    method Admit(id: NodeId, toggle: bool, pol: Policy) returns (pending: Option<Pending>)
      requires Valid() && id !in translating
      modifies this
      ensures Valid()
      ensures Admitted(id, toggle, pol, pending)
    {
      translating := translating + {id};
      var target := LocateTarget(root, id);
      if target.None? {
        translating := translating - {id};
        return None;
      }
      pending := PlaceWrapper(target.value, id, toggle, pol);
      if pending.None? {
        translating := translating - {id};
      }
    }

    /**
     * Three calls for one node while the first is pending, with the guard as
     * written, the third toggling: the second is turned away but takes the
     * node out of the registry, so the third goes past the guard and removes
     * the placeholder the first call is still to fill.
     */
    method RepeatWhilePending(node: Node, pol: Policy)
      returns (first: Option<Pending>, second: Option<Pending>, third: Option<Pending>)
      requires Valid() && node.id !in translating && ReadyToPlace(root, node.id, pol)
      modifies this
      ensures Valid()
      ensures first.Some? && second.None? && third.None? && first.value.node == node.id
      ensures Count(root, first.value.wrapper) == 0 && node.id !in translating
    {
      ghost var r0, n0 := root, nextId;
      first := TranslateNodeStart(node, false, pol);
      FirstPlacement(r0, n0, node.id, pol, root, nextId, first);
      second := TranslateNodeStart(node, false, pol);
      PlacementFoundAgain(r0, n0, node.id, pol);
      third := TranslateNodeStart(node, true, pol);
    }

    /**
     * The same three calls with a guard that leaves the registry alone: the
     * second and third are turned away, the node stays registered, and the
     * first call's placeholder stays on the page.
     */
    method RepeatWhilePendingGuarded(node: Node, pol: Policy)
      returns (first: Option<Pending>, second: Option<Pending>, third: Option<Pending>)
      requires Valid() && node.id !in translating && ReadyToPlace(root, node.id, pol)
      modifies this
      ensures Valid()
      ensures first.Some? && second.None? && third.None? && first.value.node == node.id
      ensures Count(root, first.value.wrapper) == 1 && node.id in translating
    {
      ghost var r0, n0 := root, nextId;
      first := TranslateNodeStartGuarded(node, false, pol);
      FirstPlacement(r0, n0, node.id, pol, root, nextId, first);
      second := TranslateNodeStartGuarded(node, false, pol);
      third := TranslateNodeStartGuarded(node, true, pol);
    }

    /** From the target on: keep or toggle an existing wrapper, or put a placeholder wrapper in place. */
    method PlaceWrapper(tp: seq<Step>, nodeId: NodeId, toggle: bool, pol: Policy) returns (pending: Option<Pending>)
      requires Valid() && ValidPath(root, tp)
      modifies this`root, this`nextId
      ensures Valid()
      ensures Placed(old(root), old(nextId), tp, nodeId, toggle, pol, root, nextId, pending)
    {
      var target := At(root, tp);
      var existed := FindExistedWrapper(root, tp);
      if existed.Some? {
        if toggle {
          RemoveAtKeeps(root, existed.value, nextId);
          root := RemoveAt(root, existed.value);
        }
        return None;
      }
      var text := ExtractTextContent(target, pol);
      if text == "" {
        return None;
      }
      ghost var r0, n0 := root, nextId;
      var wrapper := NewWrapper(nextId);
      var slot := WrapperSlot(root, tp);
      if slot.Some? {
        var s := slot.value;
        InsertFresh(root, s.parent, s.inShadow, s.index, [wrapper], nextId, nextId + 2);
        root := InsertAt(root, s, [wrapper]);
      }
      pending := Some(Pending(nodeId, target, nextId, nextId + 1, text));
      nextId := nextId + 2;
      assert root == match slot case Some(s) => InsertAt(r0, s, [NewWrapper(n0)]) case None => r0;
    }

    /**
     * `translateNode` after the await: the spinner goes on every path; a
     * failure takes the wrapper away; a non-empty translation fills it; the
     * registry entry goes in every case.
     */
    method TranslateNodeFinish(p: Pending, outcome: Outcome, pol: Policy)
      requires Valid() && p.spinner < nextId
      modifies this
      ensures Valid()
      ensures translating == old(translating) - {p.node}
      ensures p.spinner != old(root).id ==> Count(root, p.spinner) == 0
      ensures outcome.Failed? ==>
        root == Detach(Detach(old(root), p.wrapper), p.spinner) && nextId == old(nextId)
      ensures outcome.Translated? && outcome.text == "" ==>
        root == Detach(old(root), p.spinner) && nextId == old(nextId)
      ensures outcome.Translated? && outcome.text != "" ==>
        var r1 := Detach(old(root), p.spinner);
        var target := Current(r1, p.target.id, p.target);
        && root == AppendTo(r1, p.wrapper, Fill(target, outcome.text, old(nextId), pol, true))
        && nextId == old(nextId) + 4
    {
      match outcome {
        case Failed =>
          DetachKeeps(root, p.wrapper, nextId);
          root := Detach(root, p.wrapper);
          DetachKeeps(root, p.spinner, nextId);
          root := Detach(root, p.spinner);
        case Translated(text) =>
          DetachKeeps(root, p.spinner, nextId);
          root := Detach(root, p.spinner);
          assert Valid();
          if text != "" {
            var target := Current(root, p.target.id, p.target);
            AppendToWrapper(p.wrapper, Fill(target, text, nextId, pol, true), p.spinner);
          }
      }
      translating := translating - {p.node};
    }

    /** Appends the four fresh nodes of a fill to the wrapper; a node already gone stays gone. */
    method AppendToWrapper(wrapper: NodeId, content: seq<Node>, gone: NodeId)
      requires Valid() && FreshSeq(content, nextId, nextId + 4)
      modifies this`root, this`nextId
      ensures Valid() && root == AppendTo(old(root), wrapper, content) && nextId == old(nextId) + 4
      ensures Count(old(root), gone) == 0 && gone < old(nextId) ==> Count(root, gone) == 0
    {
      AppendFresh(root, wrapper, content, nextId, nextId + 4);
      if Count(root, gone) == 0 && gone < nextId {
        AppendKeepsGone(root, wrapper, content, gone, nextId, nextId + 4);
      }
      root := AppendTo(root, wrapper, content);
      nextId := nextId + 4;
    }

    /** `removeAllTranslatedWrapperNodes` on the whole page. */
    method RemoveAllTranslatedWrapperNodes()
      requires Valid()
      modifies this`root
      ensures Valid() && root == Sweep(old(root))
    {
      forall x ensures Count(Sweep(root), x) <= Count(root, x) {
        SweepCounts(root, x);
      }
      root := Sweep(root);
    }
  }

  /**
   * The state after the synchronous part of `translateNode` on the target at
   * `tp`, from `root` and `next`: an existing wrapper is kept, or removed
   * when toggling; empty text changes nothing; otherwise a fresh wrapper
   * with a spinner goes to `WrapperSlot` and the call is pending.
   */
  ghost predicate Placed(root: Node, next: nat, tp: seq<Step>, nodeId: NodeId, toggle: bool, pol: Policy,
                         root': Node, next': nat, pending: Option<Pending>)
    requires ValidPath(root, tp)
  {
    var target := At(root, tp);
    match FindExistedWrapper(root, tp)
    case Some(w) =>
      pending.None? && next' == next && root' == (if toggle then RemoveAt(root, w) else root)
    case None =>
      var text := ExtractTextContent(target, pol);
      if text == "" then pending.None? && next' == next && root' == root
      else
        && pending == Some(Pending(nodeId, target, next, next + 1, text))
        && next' == next + 2
        && root' == match WrapperSlot(root, tp)
                    case Some(s) => InsertAt(root, s, [NewWrapper(next)])
                    case None => root
  }

  /**
   * The node is on the page, its target holds no wrapper yet, has somewhere
   * for one and has text: a call for it puts up a placeholder.
   */
  ghost predicate ReadyToPlace(n: Node, id: NodeId, pol: Policy) {
    && TargetOf(n, id).Some?
    && var tp := TargetOf(n, id).value;
      && FindExistedWrapper(n, tp).None? && WrapperSlot(n, tp).Some?
      && ExtractTextContent(At(n, tp), pol) != ""
  }

  /** A first call for a node ready for a placeholder puts one up, holding the only node with its id. */
  lemma FirstPlacement(r0: Node, n0: nat, id: NodeId, pol: Policy, root: Node, next: nat, pending: Option<Pending>)
    requires Unique(r0) && IdsBelow(r0, n0) && ReadyToPlace(r0, id, pol)
    requires Placed(r0, n0, TargetOf(r0, id).value, id, false, pol, root, next, pending)
    ensures var tp := TargetOf(r0, id).value;
      && pending == Some(Pending(id, At(r0, tp), n0, n0 + 1, ExtractTextContent(At(r0, tp), pol)))
      && root == InsertAt(r0, WrapperSlot(r0, tp).value, [NewWrapper(n0)]) && next == n0 + 2
      && Count(root, n0) == 1
  {
    var tp := TargetOf(r0, id).value;
    var s := WrapperSlot(r0, tp).value;
    InsertKidsCounts(r0, s.parent, s.inShadow, s.index, [NewWrapper(n0)]);
    CountSeqSingle(NewWrapper(n0), n0);
  }

  /**
   * The wrapper the first call put up is the one a later call for the same
   * node finds, and removing it gives back the page as it was, where the
   * wrapper's id is unused.
   */
  lemma PlacementFoundAgain(r0: Node, n0: nat, id: NodeId, pol: Policy)
    requires Unique(r0) && IdsBelow(r0, n0) && ReadyToPlace(r0, id, pol)
    ensures var tp := TargetOf(r0, id).value;
      var s := WrapperSlot(r0, tp).value;
      var r1 := InsertAt(r0, s, [NewWrapper(n0)]);
      && TargetOf(r1, id) == Some(tp) && FindExistedWrapper(r1, tp) == Some(s) && RemoveAt(r1, s) == r0
      && Count(r0, n0) == 0
  {
    var tp := TargetOf(r0, id).value;
    CountAtLeastOne(r0, Find(r0, id).value, id);
    CountSeqSingle(NewWrapper(n0), id);
    PlacedWrapperIsFound(r0, id, tp, NewWrapper(n0), pol);
  }

  /**
   * A wrapper placed by one pass is the wrapper the next pass finds: looking
   * the node up again leads to the same target, and on it the wrapper is the
   * one found, so a repeated pass keeps it instead of adding a second one;
   * and a toggling pass removes exactly it, giving back the page as it was
   * before the first pass.
   */
  lemma PlacedWrapperIsFound(n: Node, id: NodeId, tp: seq<Step>, w: Node, pol: Policy)
    requires Unique(n) && TargetOf(n, id) == Some(tp) && ExtractTextContent(At(n, tp), pol) != ""
    requires HasClass(w, NoTranslate) && Count(w, id) == 0
    requires FindExistedWrapper(n, tp).None? && WrapperSlot(n, tp).Some?
    ensures var n' := InsertAt(n, WrapperSlot(n, tp).value, [w]);
      && TargetOf(n', id) == Some(tp) && At(n', tp).id == At(n, tp).id
      && FindExistedWrapper(n', tp) == WrapperSlot(n, tp)
      && KidAt(n', FindExistedWrapper(n', tp).value) == w
      && RemoveAt(n', FindExistedWrapper(n', tp).value) == n
  {
    var s := WrapperSlot(n, tp).value;
    InsertThenRemove(n, s, w);
    PlacementKeepsTarget(n, id, w);
    if At(n, tp).Element? {
      AppendChildFound(n, tp, w, NoTranslate);
    } else {
      InsertAfterKeepsNode(n, tp, w);
    }
  }

  // ----- shouldAutoEnable -----

  /** `toLowerCase` on one character (ASCII letters only). */
  function LowerChar(c: char): char {
    if 'A' <= c <= 'Z' then (c as int + 32) as char else c
  }

  function Lower(s: string): (r: string)
    ensures |r| == |s| && forall i | 0 <= i < |s| :: r[i] == LowerChar(s[i])
  {
    seq(|s|, i requires 0 <= i < |s| => LowerChar(s[i]))
  }

  /** `t` occurs in `s` at position `i`. */
  predicate OccursAt(t: string, s: string, i: int) {
    0 <= i <= |s| - |t| && s[i..i + |t|] == t
  }

  /** `t` occurs in `s` at some position. */
  ghost predicate Occurs(t: string, s: string) {
    exists i :: OccursAt(t, s, i)
  }

  /** `s.includes(t)`, scanning `s` from the left. */
  function Includes(s: string, t: string): (r: bool)
    ensures r <==> Occurs(t, s)
    decreases |s|
  {
    if |t| > |s| then false
    else if s[..|t|] == t then
      assert OccursAt(t, s, 0);
      true
    else
      var r := Includes(s[1..], t);
      assert Occurs(t, s) ==> Occurs(t, s[1..]) by {
        if Occurs(t, s) {
          var i :| OccursAt(t, s, i);
          assert i != 0;
          assert s[1..][i - 1..i - 1 + |t|] == t;
          assert OccursAt(t, s[1..], i - 1);
        }
      }
      assert Occurs(t, s[1..]) ==> Occurs(t, s) by {
        if Occurs(t, s[1..]) {
          var i :| OccursAt(t, s[1..], i);
          assert s[i + 1..i + 1 + |t|] == t;
          assert OccursAt(t, s, i + 1);
        }
      }
      r
  }

  /**
   * `shouldAutoEnable`: some auto-translate pattern occurs in the url,
   * ignoring case; never when the configuration has no pattern list.
   */
  function ShouldAutoEnable(url: string, patterns: Option<seq<string>>): (r: bool)
    ensures r <==> patterns.Some? && exists i | 0 <= i < |patterns.value| :: Occurs(Lower(patterns.value[i]), Lower(url))
  {
    patterns.Some? && SomePatternIn(Lower(url), patterns.value, |patterns.value|)
  }

  /** `Array.prototype.some` over the first `k` patterns. */
  function SomePatternIn(url: string, patterns: seq<string>, k: nat): (r: bool)
    requires k <= |patterns|
    ensures r <==> exists i | 0 <= i < k :: Occurs(Lower(patterns[i]), url)
  {
    k > 0 && (SomePatternIn(url, patterns, k - 1) || Includes(url, Lower(patterns[k - 1])))
  }
}

