/**
 * The labelling walk and the unit resolver over the page tree: which
 * elements are blocks, inline leaves and paragraphs, and which pieces of the
 * page are sent to translation as one text.
 */
module Traversal {
  import opened Wrappers
  import opened Dom

  // ----- text extraction -----

  /** The text the engine sends for a node: text nodes in order, nothing from do-not-walk elements. */
  function ExtractTextContent(n: Node, pol: Policy): string {
    match n
    case Text(_, s) => s
    case Other(_, _, _) => ""
    case Element(_, _, _, cs, _, _) => if pol.dontWalkInto(n) then "" else ExtractChildren(cs, pol)
  }

  /** The left fold of the source's `reduce` over the child nodes. */
  function ExtractChildren(cs: seq<Node>, pol: Policy): string {
    if cs == [] then "" else ExtractChildren(cs[..|cs| - 1], pol) + ExtractTextContent(cs[|cs| - 1], pol)
  }

  /** A subtree with no do-not-walk element and no non-HTML element in it. */
  ghost predicate Plain(n: Node, pol: Policy) {
    match n
    case Text(_, _) => true
    case Other(_, isElement, _) => !isElement
    case Element(_, _, _, cs, _, _) => !pol.dontWalkInto(n) && forall c | c in cs :: Plain(c, pol)
  }

  /** On a plain subtree the extracted text is exactly the DOM's textContent (comments aside). */
  lemma {:induction false} ExtractPlainIsTextContent(n: Node, pol: Policy)
    requires Plain(n, pol) && !n.Other?
    ensures ExtractTextContent(n, pol) == TextContent(n)
  {
    if n.Element? {
      ExtractChildrenPlain(n.children, pol);
    }
  }

  lemma {:induction false} ExtractChildrenPlain(cs: seq<Node>, pol: Policy)
    requires forall c | c in cs :: Plain(c, pol)
    ensures ExtractChildren(cs, pol) == ChildrenText(cs)
  {
    if cs != [] {
      var last := cs[|cs| - 1];
      assert forall c | c in cs[..|cs| - 1] :: c in cs;
      ExtractChildrenPlain(cs[..|cs| - 1], pol);
      if !last.Other? {
        ExtractPlainIsTextContent(last, pol);
      }
    }
  }

  /**
   * Extraction distributes over concatenated child lists, so a node added after
   * the others (an overlay wrapper the policy does not walk into, a comment)
   * leaves the extracted text as it was.
   */
  lemma {:induction false} ExtractChildrenAppend(a: seq<Node>, b: seq<Node>, pol: Policy)
    ensures ExtractChildren(a + b, pol) == ExtractChildren(a, pol) + ExtractChildren(b, pol)
    decreases |b|
  {
    if b == [] {
      assert a + b == a;
    } else {
      assert (a + b)[..|a + b| - 1] == a + b[..|b| - 1];
      ExtractChildrenAppend(a, b[..|b| - 1], pol);
    }
  }

  lemma ExtractIgnoresSilentChild(cs: seq<Node>, w: Node, pol: Policy)
    requires (w.Element? && pol.dontWalkInto(w)) || w.Other?
    ensures ExtractChildren(cs + [w], pol) == ExtractChildren(cs, pol)
  {
    assert (cs + [w])[..|cs|] == cs;
  }

  // ----- the labelling walk -----

  /** What `walkAndLabelElement` returns: block, shallow inline, or `false`. */
  datatype WalkResult = IsOrHasBlockNode | IsShallowInlineNode | NoRole

  /** The element with this walk's id stamped on it. */
  function Stamp(e: Node, walkId: string): (r: Node)
    requires e.Element?
    ensures r.Element? && r.attrs.walked == Some(walkId)
  {
    e.(attrs := e.attrs.(walked := Some(walkId)))
  }

  /** The walk stops at an element right after stamping it. */
  predicate StopsAt(e: Node, walkId: string, pol: Policy)
    requires e.Element?
  {
    || pol.dontWalkInto(Stamp(e, walkId))
    || (pol.range.Some? && pol.range.value != All && e.tag in pol.mainContentIgnoreTags)
    || e.tag in pol.invalidTags
    || (e.hasShadow && pol.range != Some(All))
  }

  /** The labelled children of a walked element, with the "has inline child" and "has block child" flags. */
  function LabelKids(cs: seq<Node>, k: nat, walkId: string, pol: Policy): (seq<Node>, bool, bool)
    requires k <= |cs|
    decreases cs, 0, k
  {
    if k == 0 then ([], false, false)
    else
      var (done, hasInline, hasBlock) := LabelKids(cs, k - 1, walkId, pol);
      var c := cs[k - 1];
      match c
      case Text(_, s) => (done + [c], hasInline || HasText(s), hasBlock)
      case Other(_, _, _) => (done + [c], hasInline, hasBlock)
      case Element(_, _, _, _, _, _) =>
        var (c', r) := Label(c, walkId, pol);
        (done + [c'], hasInline || r == IsShallowInlineNode, hasBlock || r == IsOrHasBlockNode)
  }

  /** The shadow root's children after the walk: element children labelled, results discarded. */
  function LabelShadow(cs: seq<Node>, k: nat, walkId: string, pol: Policy): seq<Node>
    requires k <= |cs|
    decreases cs, 0, k
  {
    if k == 0 then []
    else
      var c := cs[k - 1];
      LabelShadow(cs, k - 1, walkId, pol) + [if c.Element? then Label(c, walkId, pol).0 else c]
  }

  /**
   * The element as the shallow-block and shallow-inline filters see it: stamped,
   * shadow children and children labelled, and marked as a paragraph when a
   * child gave inline evidence. Only meaningful when the walk does not stop at `e`.
   */
  function Walked(e: Node, walkId: string, pol: Policy): (r: Node)
    requires e.Element?
    ensures r.Element?
    decreases e, 1, 0
  {
    var e1 := Stamp(e, walkId);
    var e2 := if e.hasShadow then e1.(shadow := LabelShadow(e.shadow, |e.shadow|, walkId, pol)) else e1;
    var (cs, hasInline, _) := LabelKids(e.children, |e.children|, walkId, pol);
    e2.(children := cs, attrs := e2.attrs.(paragraph := e2.attrs.paragraph || hasInline))
  }

  /**
   * `walkAndLabelElement` as a value: the relabelled element and the role it
   * reports to its parent. Each filter is applied to the element as it stands
   * when the source applies it.
   */
  function Label(e: Node, walkId: string, pol: Policy): (Node, WalkResult)
    requires e.Element?
    decreases e, 2, 0
  {
    if StopsAt(e, walkId, pol) then (Stamp(e, walkId), NoRole)
    else
      var hasBlock := LabelKids(e.children, |e.children|, walkId, pol).2;
      var e3 := Walked(e, walkId, pol);
      if hasBlock || pol.shallowBlock(e3) then (e3.(attrs := e3.attrs.(block := true)), IsOrHasBlockNode)
      else if pol.shallowInline(e3) then (e3.(attrs := e3.attrs.(inline := true)), IsShallowInlineNode)
      else (e3, NoRole)
  }

  /** A child after the walk: an element is relabelled, any other node is left alone. */
  function LabelledChild(c: Node, walkId: string, pol: Policy): Node {
    if c.Element? then Label(c, walkId, pol).0 else c
  }

  /** The role a child reports to its parent; only elements report one. */
  function ChildRole(c: Node, walkId: string, pol: Policy): WalkResult {
    if c.Element? then Label(c, walkId, pol).1 else NoRole
  }

  /** A child that makes its parent a paragraph: non-blank text, or a shallow-inline element. */
  predicate GivesInline(c: Node, walkId: string, pol: Policy) {
    (c.Text? && HasText(c.text)) || ChildRole(c, walkId, pol) == IsShallowInlineNode
  }

  lemma LabelKidsMeaning(cs: seq<Node>, k: nat, walkId: string, pol: Policy)
    requires k <= |cs|
    ensures var (done, hasInline, hasBlock) := LabelKids(cs, k, walkId, pol);
      && |done| == k
      && (forall i | 0 <= i < k :: done[i] == LabelledChild(cs[i], walkId, pol))
      && (hasInline <==> exists i | 0 <= i < k :: GivesInline(cs[i], walkId, pol))
      && (hasBlock <==> exists i | 0 <= i < k :: ChildRole(cs[i], walkId, pol) == IsOrHasBlockNode)
  {
    LabelKidsDone(cs, k, walkId, pol);
    LabelKidsInline(cs, k, walkId, pol);
    LabelKidsBlock(cs, k, walkId, pol);
  }

  /** The labelled children are the children, each labelled. */
  lemma {:induction false} LabelKidsDone(cs: seq<Node>, k: nat, walkId: string, pol: Policy)
    requires k <= |cs|
    ensures var done := LabelKids(cs, k, walkId, pol).0;
      |done| == k && forall i | 0 <= i < k :: done[i] == LabelledChild(cs[i], walkId, pol)
  {
    if k > 0 {
      LabelKidsDone(cs, k - 1, walkId, pol);
      LabelKidsStep(cs, k, walkId, pol);
    }
  }

  /** The inline flag is set iff some child gives inline evidence. */
  lemma {:induction false} LabelKidsInline(cs: seq<Node>, k: nat, walkId: string, pol: Policy)
    requires k <= |cs|
    ensures LabelKids(cs, k, walkId, pol).1 <==> exists i | 0 <= i < k :: GivesInline(cs[i], walkId, pol)
  {
    if k > 0 {
      LabelKidsInline(cs, k - 1, walkId, pol);
      LabelKidsStep(cs, k, walkId, pol);
      if LabelKids(cs, k - 1, walkId, pol).1 {
        var i :| 0 <= i < k - 1 && GivesInline(cs[i], walkId, pol);
        assert 0 <= i < k;
      } else if GivesInline(cs[k - 1], walkId, pol) {
        assert 0 <= k - 1 < k;
      }
    }
  }

  /** The block flag is set iff some child reports a block. */
  lemma {:induction false} LabelKidsBlock(cs: seq<Node>, k: nat, walkId: string, pol: Policy)
    requires k <= |cs|
    ensures LabelKids(cs, k, walkId, pol).2 <==> exists i | 0 <= i < k :: ChildRole(cs[i], walkId, pol) == IsOrHasBlockNode
  {
    if k > 0 {
      LabelKidsBlock(cs, k - 1, walkId, pol);
      LabelKidsStep(cs, k, walkId, pol);
      if LabelKids(cs, k - 1, walkId, pol).2 {
        var i :| 0 <= i < k - 1 && ChildRole(cs[i], walkId, pol) == IsOrHasBlockNode;
        assert 0 <= i < k;
      } else if ChildRole(cs[k - 1], walkId, pol) == IsOrHasBlockNode {
        assert 0 <= k - 1 < k;
      }
    }
  }

  /** One more child: its labelled form is appended and its evidence joins the flags. */
  lemma LabelKidsStep(cs: seq<Node>, k: nat, walkId: string, pol: Policy)
    requires 0 < k <= |cs|
    ensures var before, after := LabelKids(cs, k - 1, walkId, pol), LabelKids(cs, k, walkId, pol);
      && after.0 == before.0 + [LabelledChild(cs[k - 1], walkId, pol)]
      && after.1 == (before.1 || GivesInline(cs[k - 1], walkId, pol))
      && after.2 == (before.2 || ChildRole(cs[k - 1], walkId, pol) == IsOrHasBlockNode)
  {
  }

  lemma {:induction false} LabelShadowMeaning(cs: seq<Node>, k: nat, walkId: string, pol: Policy)
    requires k <= |cs|
    ensures var done := LabelShadow(cs, k, walkId, pol);
      |done| == k && forall i | 0 <= i < k :: done[i] == LabelledChild(cs[i], walkId, pol)
  {
    if k > 0 {
      LabelShadowMeaning(cs, k - 1, walkId, pol);
    }
  }

  /**
   * What one call of the walk does to an element. It is always stamped with the
   * walk id. Where the walk stops (do-not-walk, main-content-ignored and invalid
   * tags, a shadow host outside range 'all') nothing else changes and no child
   * is visited. Otherwise every child element is walked in turn; the element is
   * a paragraph iff it already was or some child gave inline evidence; it
   * reports a block iff some child did or it is shallow-block, and shallow
   * inline only when it is not a block. Marks are only ever added: the block
   * mark is set iff it was set or the element reports a block, the inline
   * mark likewise, and every other attribute is left as it was.
   */
  lemma LabelMeaning(e: Node, walkId: string, pol: Policy)
    requires e.Element?
    ensures var (l, r) := Label(e, walkId, pol);
      && l.Element? && l.attrs.walked == Some(walkId)
      && l.id == e.id && l.tag == e.tag && l.attrs.classes == e.attrs.classes && l.hasShadow == e.hasShadow
      && (e.attrs.paragraph ==> l.attrs.paragraph) && (e.attrs.block ==> l.attrs.block)
      && (e.attrs.inline ==> l.attrs.inline)
      && (StopsAt(e, walkId, pol) ==> l == Stamp(e, walkId) && r == NoRole)
      && (!StopsAt(e, walkId, pol) ==>
            && |l.children| == |e.children|
            && (forall i | 0 <= i < |e.children| :: l.children[i] == LabelledChild(e.children[i], walkId, pol))
            && |l.shadow| == |e.shadow|
            && (e.hasShadow ==> forall i | 0 <= i < |e.shadow| :: l.shadow[i] == LabelledChild(e.shadow[i], walkId, pol))
            && (!e.hasShadow ==> l.shadow == e.shadow)
            && l.attrs == e.attrs.(walked := Some(walkId), paragraph := l.attrs.paragraph,
                                   block := e.attrs.block || r == IsOrHasBlockNode,
                                   inline := e.attrs.inline || r == IsShallowInlineNode)
            && (l.attrs.paragraph <==>
                  e.attrs.paragraph || exists i | 0 <= i < |e.children| :: GivesInline(e.children[i], walkId, pol))
            && (r == IsOrHasBlockNode <==>
                  (exists i | 0 <= i < |e.children| :: ChildRole(e.children[i], walkId, pol) == IsOrHasBlockNode)
                  || pol.shallowBlock(Walked(e, walkId, pol)))
            && (r == IsShallowInlineNode <==> r != IsOrHasBlockNode && pol.shallowInline(Walked(e, walkId, pol))))
      && (r == IsOrHasBlockNode ==> l.attrs.block)
      && (r == IsShallowInlineNode ==> l.attrs.inline)
  {
    if !StopsAt(e, walkId, pol) {
      WalkedMeaning(e, walkId, pol);
      LabelKidsMeaning(e.children, |e.children|, walkId, pol);
      var w := Walked(e, walkId, pol);
      var (l, r) := Label(e, walkId, pol);
      if LabelKids(e.children, |e.children|, walkId, pol).2 || pol.shallowBlock(w) {
        assert l == w.(attrs := w.attrs.(block := true)) && r == IsOrHasBlockNode;
      } else if pol.shallowInline(w) {
        assert l == w.(attrs := w.attrs.(inline := true)) && r == IsShallowInlineNode;
      } else {
        assert l == w && r == NoRole;
      }
    }
  }

  /**
   * `l` is `e` after the walk and carries the walk id, and so does every
   * element the walk went on into: the light children and, for a host the
   * walk enters, the shadow children, down to where the walk stops.
   */
  ghost predicate StampedBelow(e: Node, l: Node, walkId: string, pol: Policy)
    requires e.Element?
    decreases e
  {
    && l.Element? && l.attrs.walked == Some(walkId)
    && (!StopsAt(e, walkId, pol) ==>
          && |l.children| == |e.children| && |l.shadow| == |e.shadow|
          && (forall i | 0 <= i < |e.children| && e.children[i].Element? ::
                StampedBelow(e.children[i], l.children[i], walkId, pol))
          && (e.hasShadow ==> forall i | 0 <= i < |e.shadow| && e.shadow[i].Element? ::
                StampedBelow(e.shadow[i], l.shadow[i], walkId, pol)))
  }

  /** The walk stamps its id on the element it starts from and on every element it reaches. */
  lemma {:induction false} LabelStampsWalk(e: Node, walkId: string, pol: Policy)
    requires e.Element?
    ensures StampedBelow(e, Label(e, walkId, pol).0, walkId, pol)
    decreases e
  {
    LabelMeaning(e, walkId, pol);
    var l := Label(e, walkId, pol).0;
    if !StopsAt(e, walkId, pol) {
      forall i | 0 <= i < |e.children| && e.children[i].Element?
        ensures StampedBelow(e.children[i], l.children[i], walkId, pol)
      {
        LabelStampsWalk(e.children[i], walkId, pol);
      }
      if e.hasShadow {
        forall i | 0 <= i < |e.shadow| && e.shadow[i].Element?
          ensures StampedBelow(e.shadow[i], l.shadow[i], walkId, pol)
        {
          LabelStampsWalk(e.shadow[i], walkId, pol);
        }
      }
    }
  }

  /** The element the filters see: stamped, children and shadow children labelled, paragraph mark updated. */
  lemma WalkedMeaning(e: Node, walkId: string, pol: Policy)
    requires e.Element?
    ensures var w := Walked(e, walkId, pol);
      && w.id == e.id && w.tag == e.tag && w.hasShadow == e.hasShadow
      && w.attrs == e.attrs.(walked := Some(walkId), paragraph := w.attrs.paragraph)
      && |w.children| == |e.children|
      && (forall i | 0 <= i < |e.children| :: w.children[i] == LabelledChild(e.children[i], walkId, pol))
      && (w.attrs.paragraph <==> e.attrs.paragraph || LabelKids(e.children, |e.children|, walkId, pol).1)
      && |w.shadow| == |e.shadow|
      && (e.hasShadow ==> forall i | 0 <= i < |e.shadow| :: w.shadow[i] == LabelledChild(e.shadow[i], walkId, pol))
      && (!e.hasShadow ==> w.shadow == e.shadow)
  {
    LabelKidsMeaning(e.children, |e.children|, walkId, pol);
    if e.hasShadow {
      LabelShadowMeaning(e.shadow, |e.shadow|, walkId, pol);
    }
  }

  /** The walk, written as the source's loops over a value tree. */
  method WalkAndLabelElement(e: Node, walkId: string, pol: Policy) returns (labelled: Node, r: WalkResult)
    requires e.Element?
    ensures (labelled, r) == Label(e, walkId, pol)
    decreases e, 1
  {
    labelled := Stamp(e, walkId);
    if pol.dontWalkInto(labelled) {
      return labelled, NoRole;
    }
    if pol.range.Some? && pol.range.value != All && e.tag in pol.mainContentIgnoreTags {
      return labelled, NoRole;
    }
    if e.tag in pol.invalidTags {
      return labelled, NoRole;
    }
    if e.hasShadow {
      if pol.range == Some(All) {
        var shadow := WalkShadowChildren(e.shadow, walkId, pol);
        labelled := labelled.(shadow := shadow);
      } else {
        return labelled, NoRole;
      }
    }
    var kids, hasInlineNodeChild, hasBlockNodeChild := WalkChildren(e.children, walkId, pol);
    labelled := labelled.(children := kids);
    if hasInlineNodeChild {
      labelled := labelled.(attrs := labelled.attrs.(paragraph := true));
    }
    assert labelled == Walked(e, walkId, pol);
    if hasBlockNodeChild || pol.shallowBlock(labelled) {
      labelled := labelled.(attrs := labelled.attrs.(block := true));
      r := IsOrHasBlockNode;
    } else if pol.shallowInline(labelled) {
      labelled := labelled.(attrs := labelled.attrs.(inline := true));
      r := IsShallowInlineNode;
    } else {
      r := NoRole;
    }
  }

  /** The walk's loop over a shadow root's children; the roles they report are dropped. */
  method WalkShadowChildren(cs: seq<Node>, walkId: string, pol: Policy) returns (shadow: seq<Node>)
    ensures shadow == LabelShadow(cs, |cs|, walkId, pol)
    decreases cs, 0
  {
    shadow := [];
    for i := 0 to |cs|
      invariant shadow == LabelShadow(cs, i, walkId, pol)
    {
      var child := cs[i];
      if child.Element? {
        var c', _ := WalkAndLabelElement(child, walkId, pol);
        shadow := shadow + [c'];
      } else {
        shadow := shadow + [child];
      }
    }
  }

  /** The walk's loop over the children, collecting inline and block evidence. */
  method WalkChildren(cs: seq<Node>, walkId: string, pol: Policy)
    returns (kids: seq<Node>, hasInlineNodeChild: bool, hasBlockNodeChild: bool)
    ensures (kids, hasInlineNodeChild, hasBlockNodeChild) == LabelKids(cs, |cs|, walkId, pol)
    decreases cs, 0
  {
    hasInlineNodeChild, hasBlockNodeChild := false, false;
    kids := [];
    for i := 0 to |cs|
      invariant (kids, hasInlineNodeChild, hasBlockNodeChild) == LabelKids(cs, i, walkId, pol)
    {
      var child := cs[i];
      if child.Text? {
        if HasText(child.text) {
          hasInlineNodeChild := true;
        }
        kids := kids + [child];
      } else if child.Element? {
        var c', result := WalkAndLabelElement(child, walkId, pol);
        if result == IsOrHasBlockNode {
          hasBlockNodeChild := true;
        } else if result == IsShallowInlineNode {
          hasInlineNodeChild := true;
        }
        kids := kids + [c'];
      } else {
        kids := kids + [child];
      }
    }
  }

  // ----- the unit resolver -----

  /** One call dispatched by the resolver: `translateNode(node)` or `translateConsecutiveInlineNodes(nodes)`. */
  datatype Unit = Single(node: Node) | Run(nodes: seq<Node>)

  /** A child the grouping loop looks at: non-blank textContent, and a text node or an HTML element. */
  predicate Considered(c: Node) {
    HasText(TextContent(c)) && (c.Text? || c.Element?)
  }

  /** Some child element carries BLOCK_ATTRIBUTE. */
  predicate HasBlockChild(cs: seq<Node>) {
    exists i :: 0 <= i < |cs| && cs[i].Element? && cs[i].attrs.block
  }

  /**
   * How the grouping loop cuts a paragraph's children: a `Group` is one run of
   * consecutive inline children, a `Barrier` a considered child that is not
   * inline (it ends the run before it; when it is an element the resolver
   * recurses into it).
   */
  datatype Piece = Group(nodes: seq<Node>) | Barrier(node: Node)

  /** The closed pieces and the pending run after the first `k` children. */
  function Pieces(cs: seq<Node>, k: nat, pol: Policy): (r: (seq<Piece>, seq<Node>))
    requires k <= |cs|
    ensures forall p | p in r.0 && p.Barrier? :: p.node in cs
  {
    if k == 0 then ([], [])
    else
      var (ps, run) := Pieces(cs, k - 1, pol);
      var c := cs[k - 1];
      if !Considered(c) then (ps, run)
      else if pol.inlineTrans(c) then (ps, run + [c])
      else (Flush(ps, run) + [Barrier(c)], [])
  }

  /** Closing the pending run: it becomes a group when it is not empty. */
  function Flush(ps: seq<Piece>, run: seq<Node>): seq<Piece> {
    if run != [] then ps + [Group(run)] else ps
  }

  /** All pieces of a paragraph's children, the trailing run included. */
  function Resolve(cs: seq<Node>, pol: Policy): (r: seq<Piece>)
    ensures forall p | p in r && p.Barrier? :: p.node in cs
  {
    var (ps, run) := Pieces(cs, |cs|, pol);
    Flush(ps, run)
  }

  /**
   * `translateWalkedElement` as a value: the units it dispatches, in the order
   * it dispatches them.
   */
  function Units(e: Node, walkId: string, pol: Policy): seq<Unit>
    requires e.Element?
    decreases e, 2, 0
  {
    if e.attrs.walked != Some(walkId) then []
    else if e.attrs.paragraph then
      if !HasBlockChild(e.children) then [Single(e)]
      else ExpandPieces(e, Resolve(e.children, pol), walkId, pol)
    else
      KidUnits(e.children, |e.children|, walkId, pol)
      + (if e.hasShadow then KidUnits(e.shadow, |e.shadow|, walkId, pol) else [])
  }

  /** The units of the pieces: one run per group, the recursion's units per element barrier. */
  function ExpandPieces(e: Node, ps: seq<Piece>, walkId: string, pol: Policy): seq<Unit>
    requires e.Element? && forall p | p in ps && p.Barrier? :: p.node in e.children
    decreases e, 1, |ps|
  {
    if ps == [] then []
    else
      var p := ps[|ps| - 1];
      ExpandPieces(e, ps[..|ps| - 1], walkId, pol)
      + (if p.Group? then [Run(p.nodes)] else if p.node.Element? then Units(p.node, walkId, pol) else [])
  }

  /** The units of each element in `cs`, in order. */
  function KidUnits(cs: seq<Node>, k: nat, walkId: string, pol: Policy): seq<Unit>
    requires k <= |cs|
    decreases cs, 0, k
  {
    if k == 0 then []
    else KidUnits(cs, k - 1, walkId, pol) + (if cs[k - 1].Element? then Units(cs[k - 1], walkId, pol) else [])
  }

  /** A barrier adds the units of its element, if it is one. */
  lemma ExpandPiecesBarrier(e: Node, ps: seq<Piece>, c: Node, walkId: string, pol: Policy)
    requires e.Element? && c in e.children && forall p | p in ps && p.Barrier? :: p.node in e.children
    ensures forall p | p in ps + [Barrier(c)] && p.Barrier? :: p.node in e.children
    ensures ExpandPieces(e, ps + [Barrier(c)], walkId, pol)
         == ExpandPieces(e, ps, walkId, pol) + (if c.Element? then Units(c, walkId, pol) else [])
  {
    var f := ps + [Barrier(c)];
    forall p | p in f && p.Barrier? ensures p.node in e.children {
      if p != Barrier(c) {
        assert p in ps;
      }
    }
    assert f[..|f| - 1] == ps && f[|f| - 1] == Barrier(c);
  }

  /** Closing a run adds its run unit, when it is not empty. */
  lemma ExpandPiecesFlush(e: Node, ps: seq<Piece>, run: seq<Node>, walkId: string, pol: Policy)
    requires e.Element? && forall p | p in ps && p.Barrier? :: p.node in e.children
    ensures forall p | p in Flush(ps, run) && p.Barrier? :: p.node in e.children
    ensures ExpandPieces(e, Flush(ps, run), walkId, pol)
         == ExpandPieces(e, ps, walkId, pol) + (if run != [] then [Run(run)] else [])
  {
    if run != [] {
      var f := ps + [Group(run)];
      forall p | p in f && p.Barrier? ensures p.node in e.children {
        assert p in ps;
      }
      assert f[..|f| - 1] == ps;
    }
  }

  /**
   * The unit resolver (`translateWalkedElement`): returns the units it
   * dispatches, in dispatch order.
   */
  method TranslateWalkedElement(e: Node, walkId: string, pol: Policy) returns (units: seq<Unit>)
    requires e.Element?
    ensures units == Units(e, walkId, pol)
    decreases e, 2
  {
    if e.attrs.walked != Some(walkId) {
      return [];
    }
    if e.attrs.paragraph {
      var hasBlockNodeChild := false;
      var j := 0;
      while j < |e.children|
        invariant 0 <= j <= |e.children|
        invariant !hasBlockNodeChild
        invariant forall i | 0 <= i < j :: !(e.children[i].Element? && e.children[i].attrs.block)
      {
        if e.children[j].Element? && e.children[j].attrs.block {
          hasBlockNodeChild := true;
          break;
        }
        j := j + 1;
      }
      if !hasBlockNodeChild {
        return [Single(e)];
      }
      units := TranslateParagraphChildren(e, walkId, pol);
    } else {
      units := TranslateKids(e.children, walkId, pol);
      if e.hasShadow {
        var shadowUnits := TranslateKids(e.shadow, walkId, pol);
        units := units + shadowUnits;
      }
    }
  }

  /** The resolver's grouping loop over a paragraph that has a block child. */
  method TranslateParagraphChildren(e: Node, walkId: string, pol: Policy) returns (units: seq<Unit>)
    requires e.Element?
    ensures units == ExpandPieces(e, Resolve(e.children, pol), walkId, pol)
    decreases e, 1
  {
    var children := e.children;
    var consecutiveInlineNodes: seq<Node> := [];
    units := [];
    for i := 0 to |children|
      invariant consecutiveInlineNodes == Pieces(children, i, pol).1
      invariant units == ExpandPieces(e, Pieces(children, i, pol).0, walkId, pol)
    {
      var child := children[i];
      ghost var ps := Pieces(children, i, pol).0;
      if !HasText(TextContent(child)) {
        continue;
      }
      if !(child.Text? || child.Element?) {
        continue;
      }
      if pol.inlineTrans(child) {
        consecutiveInlineNodes := consecutiveInlineNodes + [child];
        continue;
      }
      ghost var flushed := Flush(ps, consecutiveInlineNodes);
      assert Pieces(children, i + 1, pol) == (flushed + [Barrier(child)], []);
      ExpandPiecesFlush(e, ps, consecutiveInlineNodes, walkId, pol);
      ExpandPiecesBarrier(e, flushed, child, walkId, pol);
      if |consecutiveInlineNodes| > 0 {
        units := units + [Run(consecutiveInlineNodes)];
        consecutiveInlineNodes := [];
      }
      assert units == ExpandPieces(e, flushed, walkId, pol);
      if child.Element? {
        var sub := TranslateWalkedElement(child, walkId, pol);
        units := units + sub;
      }
    }
    ghost var ps := Pieces(children, |children|, pol).0;
    ExpandPiecesFlush(e, ps, consecutiveInlineNodes, walkId, pol);
    if |consecutiveInlineNodes| > 0 {
      units := units + [Run(consecutiveInlineNodes)];
    }
  }

  /** The resolver's recursion into each element of a kid list (children or shadow root). */
  method TranslateKids(cs: seq<Node>, walkId: string, pol: Policy) returns (units: seq<Unit>)
    ensures units == KidUnits(cs, |cs|, walkId, pol)
    decreases cs, 0
  {
    units := [];
    for i := 0 to |cs|
      invariant units == KidUnits(cs, i, walkId, pol)
    {
      if cs[i].Element? {
        var sub := TranslateWalkedElement(cs[i], walkId, pol);
        units := units + sub;
      }
    }
  }

  // ----- what the grouping promises -----

  /** The considered children, in order. */
  function ConsideredOf(cs: seq<Node>): seq<Node> {
    if cs == [] then []
    else ConsideredOf(cs[..|cs| - 1]) + (if Considered(cs[|cs| - 1]) then [cs[|cs| - 1]] else [])
  }

  /** The children the pieces cover, in order. */
  function Flatten(ps: seq<Piece>): seq<Node> {
    if ps == [] then []
    else
      var p := ps[|ps| - 1];
      Flatten(ps[..|ps| - 1]) + (if p.Group? then p.nodes else [p.node])
  }

  /** A group is a non-empty run of considered inline nodes; a barrier a considered node that is not inline. */
  predicate PieceOk(p: Piece, pol: Policy) {
    match p
    case Group(ns) => ns != [] && forall n | n in ns :: Considered(n) && pol.inlineTrans(n)
    case Barrier(n) => Considered(n) && !pol.inlineTrans(n)
  }

  /** Runs are maximal: no two groups are next to each other. */
  predicate NoAdjacentGroups(ps: seq<Piece>) {
    forall i | 0 <= i < |ps| - 1 :: !(ps[i].Group? && ps[i + 1].Group?)
  }

  lemma FlattenAppend(ps: seq<Piece>, p: Piece)
    ensures Flatten(ps + [p]) == Flatten(ps) + (if p.Group? then p.nodes else [p.node])
  {
    assert (ps + [p])[..|ps + [p]| - 1] == ps;
  }

  lemma {:induction false} PiecesMeaning(cs: seq<Node>, k: nat, pol: Policy)
    requires k <= |cs|
    ensures var (ps, run) := Pieces(cs, k, pol);
      && Flatten(ps) + run == ConsideredOf(cs[..k])
      && (forall p | p in ps :: PieceOk(p, pol))
      && (forall n | n in run :: Considered(n) && pol.inlineTrans(n))
      && NoAdjacentGroups(ps)
      && (ps != [] ==> ps[|ps| - 1].Barrier?)
  {
    if k == 0 {
      return;
    }
    PiecesMeaning(cs, k - 1, pol);
    var (ps, run) := Pieces(cs, k - 1, pol);
    var c := cs[k - 1];
    assert cs[..k][..k - 1] == cs[..k - 1];
    var before := ConsideredOf(cs[..k - 1]);
    assert ConsideredOf(cs[..k]) == before + (if Considered(c) then [c] else []);
    if !Considered(c) {
      assert ConsideredOf(cs[..k]) == before;
    } else if pol.inlineTrans(c) {
      assert Pieces(cs, k, pol) == (ps, run + [c]);
      assert Flatten(ps) + (run + [c]) == (Flatten(ps) + run) + [c];
    } else {
      var fs := Flush(ps, run);
      assert Pieces(cs, k, pol) == (fs + [Barrier(c)], []);
      FlattenAppend(fs, Barrier(c));
      assert Flatten(fs) == Flatten(ps) + run by {
        if run != [] {
          FlattenAppend(ps, Group(run));
        }
      }
      FlushOk(ps, run, pol);
      NoAdjacentAppend(fs, Barrier(c));
    }
  }

  lemma FlushOk(ps: seq<Piece>, run: seq<Node>, pol: Policy)
    requires forall p | p in ps :: PieceOk(p, pol)
    requires forall n | n in run :: Considered(n) && pol.inlineTrans(n)
    requires NoAdjacentGroups(ps)
    requires ps != [] ==> ps[|ps| - 1].Barrier?
    ensures forall p | p in Flush(ps, run) :: PieceOk(p, pol)
    ensures NoAdjacentGroups(Flush(ps, run))
  {
  }

  lemma NoAdjacentAppend(ps: seq<Piece>, p: Piece)
    requires NoAdjacentGroups(ps) && p.Barrier?
    ensures NoAdjacentGroups(ps + [p])
  {
  }

  /**
   * The grouping of a paragraph's children: the pieces cover exactly the
   * considered children in order, every group is a non-empty run of inline
   * nodes, every barrier is not inline, and runs are maximal.
   */
  lemma ResolveMeaning(cs: seq<Node>, pol: Policy)
    ensures var ps := Resolve(cs, pol);
      && Flatten(ps) == ConsideredOf(cs)
      && (forall p | p in ps :: PieceOk(p, pol))
      && NoAdjacentGroups(ps)
  {
    PiecesMeaning(cs, |cs|, pol);
    assert cs[..|cs|] == cs;
    var (ps, run) := Pieces(cs, |cs|, pol);
    if run != [] {
      FlattenAppend(ps, Group(run));
    }
  }

  /**
   * What a dispatched unit is: a whole paragraph of this walk with no block
   * child, or a non-empty run of inline nodes with text.
   */
  predicate UnitOk(u: Unit, walkId: string, pol: Policy) {
    match u
    case Single(n) => n.Element? && n.attrs.walked == Some(walkId) && n.attrs.paragraph && !HasBlockChild(n.children)
    case Run(ns) => ns != [] && forall n | n in ns :: Considered(n) && pol.inlineTrans(n)
  }

  /** Every unit the resolver dispatches is well formed. */
  lemma {:induction false} UnitsOk(e: Node, walkId: string, pol: Policy)
    requires e.Element?
    ensures forall u | u in Units(e, walkId, pol) :: UnitOk(u, walkId, pol)
    decreases e, 2, 0
  {
    if e.attrs.walked == Some(walkId) {
      if e.attrs.paragraph {
        if HasBlockChild(e.children) {
          ResolveMeaning(e.children, pol);
          ExpandPiecesOk(e, Resolve(e.children, pol), walkId, pol);
        }
      } else {
        KidUnitsOk(e.children, |e.children|, walkId, pol);
        if e.hasShadow {
          KidUnitsOk(e.shadow, |e.shadow|, walkId, pol);
        }
      }
    }
  }

  lemma {:induction false} ExpandPiecesOk(e: Node, ps: seq<Piece>, walkId: string, pol: Policy)
    requires e.Element? && forall p | p in ps && p.Barrier? :: p.node in e.children
    requires forall p | p in ps :: PieceOk(p, pol)
    ensures forall u | u in ExpandPieces(e, ps, walkId, pol) :: UnitOk(u, walkId, pol)
    decreases e, 1, |ps|
  {
    if ps != [] {
      var p := ps[|ps| - 1];
      ExpandPiecesOk(e, ps[..|ps| - 1], walkId, pol);
      if p.Barrier? && p.node.Element? {
        UnitsOk(p.node, walkId, pol);
      }
    }
  }

  lemma {:induction false} KidUnitsOk(cs: seq<Node>, k: nat, walkId: string, pol: Policy)
    requires k <= |cs|
    ensures forall u | u in KidUnits(cs, k, walkId, pol) :: UnitOk(u, walkId, pol)
    decreases cs, 0, k
  {
    if k > 0 {
      KidUnitsOk(cs, k - 1, walkId, pol);
      if cs[k - 1].Element? {
        UnitsOk(cs[k - 1], walkId, pol);
      }
    }
  }

  // ----- unwrapping and climbing -----

  /** The node has exactly one child node, and it is an HTML element. */
  predicate OnlyHtmlChild(n: Node) {
    n.Element? && |n.children| == 1 && n.children[0].Element?
  }

  /**
   * The path `unwrapDeepestOnlyChild` follows: down through only children
   * while they are HTML elements.
   */
  function UnwrapPath(n: Node): (p: seq<Step>)
    ensures ValidPath(n, p)
    decreases n
  {
    if OnlyHtmlChild(n) then [Step(false, 0)] + UnwrapPath(n.children[0]) else []
  }

  /**
   * The descent follows first-child links only, every node it passes through
   * has an only HTML child, and the node it stops at has not.
   */
  lemma {:induction false} UnwrapPathMeaning(n: Node)
    ensures var p := UnwrapPath(n);
      && (forall i | 0 <= i < |p| :: p[i] == Step(false, 0))
      && (forall k | 0 <= k < |p| :: ValidPath(n, p[..k]) && OnlyHtmlChild(At(n, p[..k])))
      && !OnlyHtmlChild(At(n, p))
    decreases n
  {
    if OnlyHtmlChild(n) {
      var c := n.children[0];
      UnwrapPathMeaning(c);
      var q := UnwrapPath(c);
      var p := [Step(false, 0)] + q;
      assert p == UnwrapPath(n);
      forall k | 0 <= k < |p|
        ensures ValidPath(n, p[..k]) && OnlyHtmlChild(At(n, p[..k]))
      {
        if k > 0 {
          assert p[..k] == [Step(false, 0)] + q[..k - 1];
        } else {
          assert p[..k] == [];
        }
      }
      assert p == [Step(false, 0)] + q;
    }
  }

  /** The node the descent stops at. */
  function Deepest(n: Node): Node
    decreases n
  {
    if OnlyHtmlChild(n) then Deepest(n.children[0]) else n
  }

  /** The descent's path leads to the node it stops at. */
  lemma {:induction false} DeepestAt(n: Node)
    ensures At(n, UnwrapPath(n)) == Deepest(n)
    decreases n
  {
    if OnlyHtmlChild(n) {
      var c := n.children[0];
      DeepestAt(c);
      var q := UnwrapPath(c);
      assert UnwrapPath(n) == [Step(false, 0)] + q;
      assert ([Step(false, 0)] + q)[0] == Step(false, 0) && ([Step(false, 0)] + q)[1..] == q;
    }
  }

  /** Descending from an element ends at an element. */
  lemma {:induction false} DeepestElement(n: Node)
    requires n.Element?
    ensures Deepest(n).Element?
    decreases n
  {
    if OnlyHtmlChild(n) {
      DeepestElement(n.children[0]);
    }
  }

  /**
   * Putting in place of the node the descent stops at an element that has no
   * only HTML child leaves the descent as it was.
   */
  lemma {:induction false} UnwrapReplace(m: Node, sub: Node)
    requires sub.Element? && !OnlyHtmlChild(sub)
    ensures UnwrapPath(ReplaceAt(m, UnwrapPath(m), sub)) == UnwrapPath(m)
    decreases m
  {
    if OnlyHtmlChild(m) {
      var c := m.children[0];
      var q := UnwrapPath(c);
      var p := [Step(false, 0)] + q;
      assert p == UnwrapPath(m);
      assert p[0] == Step(false, 0) && p[1..] == q;
      UnwrapReplace(c, sub);
      var c' := ReplaceAt(c, q, sub);
      assert c'.Element?;
      assert ReplaceAt(m, p, sub) == m.(children := [c']);
    }
  }

  /**
   * `unwrapDeepestOnlyChild`: the deepest node reached by descending through
   * only children, and the path to it.
   */
  method UnwrapDeepestOnlyChild(e: Node) returns (deepest: Node, path: seq<Step>)
    ensures path == UnwrapPath(e) && deepest == At(e, path)
  {
    deepest, path := e, [];
    while OnlyHtmlChild(deepest)
      invariant UnwrapPath(e) == path + UnwrapPath(deepest)
      invariant Deepest(e) == Deepest(deepest)
      decreases deepest
    {
      var child := deepest.children[0];
      ghost var rest := UnwrapPath(child);
      assert UnwrapPath(deepest) == [Step(false, 0)] + rest;
      assert path + ([Step(false, 0)] + rest) == (path + [Step(false, 0)]) + rest;
      path := path + [Step(false, 0)];
      deepest := child;
    }
    assert path + [] == path;
    DeepestAt(e);
  }

  /** An HTML element that the policy calls shallow inline. */
  predicate InlineElement(n: Node, pol: Policy) {
    n.Element? && pol.shallowInline(n)
  }

  /**
   * Climbing from `start` up to its prefix of length `k` passes only through
   * shallow-inline HTML elements, each a light child of its parent.
   */
  predicate ClimbsThrough(root: Node, start: seq<Step>, k: nat, pol: Policy) {
    && k <= |start|
    && (forall j | k < j <= |start| :: ValidPath(root, start[..j]) && InlineElement(At(root, start[..j]), pol))
    && (forall j | k <= j < |start| :: !start[j].inShadow)
  }

  /** Climbing one more level, through a shallow-inline light child. */
  lemma ClimbStep(root: Node, start: seq<Step>, k: nat, pol: Policy)
    requires ClimbsThrough(root, start, k, pol) && 0 < k
    requires ValidPath(root, start[..k]) && InlineElement(At(root, start[..k]), pol)
    requires !start[k - 1].inShadow
    ensures ClimbsThrough(root, start, k - 1, pol)
  {
  }

  /**
   * `findNearestBlockNodeAt`, from the node hit at `start` (hit-testing is
   * not modelled): climbs to the parent element while the current node is a
   * shallow-inline HTML element. There is no parent element above the root
   * or above a node that sits directly in a shadow root.
   */
  method FindNearestBlockNode(root: Node, start: seq<Step>, pol: Policy) returns (r: Option<seq<Step>>)
    requires ValidPath(root, start)
    ensures r.Some? ==> var p := r.value;
      && |p| <= |start| && p == start[..|p|] && ValidPath(root, p)
      && !InlineElement(At(root, p), pol)
      && ClimbsThrough(root, start, |p|, pol)
    ensures r.None? ==> exists k: nat ::
      && ClimbsThrough(root, start, k, pol)
      && ValidPath(root, start[..k]) && InlineElement(At(root, start[..k]), pol)
      && (k == 0 || start[k - 1].inShadow)
  {
    var cur := start;
    assert start[..|start|] == start;
    while InlineElement(At(root, cur), pol)
      invariant |cur| <= |start| && cur == start[..|cur|] && ValidPath(root, cur)
      invariant ClimbsThrough(root, start, |cur|, pol)
      decreases |cur|
    {
      ghost var k := |cur|;
      assert start[..k] == cur;
      if cur == [] || cur[|cur| - 1].inShadow {
        assert ClimbsThrough(root, start, k, pol) && ValidPath(root, start[..k]) && InlineElement(At(root, start[..k]), pol);
        return None;
      }
      var parent := cur[..|cur| - 1];
      PrefixValid(root, cur, |parent|);
      assert start[..|parent|] == parent;
      ClimbStep(root, start, k, pol);
      cur := parent;
    }
    return Some(cur);
  }
}
