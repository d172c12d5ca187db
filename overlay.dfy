/**
 * The pieces both revisions of the insertion protocol share: where a
 * wrapper goes, what a wrapper and its content look like, and the sweep that
 * removes every wrapper.
 */
module Overlay {
  import opened Wrappers
  import opened Dom
  import opened Traversal

  /** What `translateText` settles with: a translation, or a thrown error. */
  datatype Outcome = Translated(text: string) | Failed

  // ----- slots: positions in a kid list -----

  /** Position `index` in the light (or shadow) kid list of the element at `parent`. */
  datatype Slot = Slot(parent: seq<Step>, inShadow: bool, index: nat)

  /** New nodes can be inserted at the slot. */
  predicate Insertable(n: Node, s: Slot) {
    ValidPath(n, s.parent) && At(n, s.parent).Element? && s.index <= |Kids(At(n, s.parent), s.inShadow)|
  }

  /** A node sits at the slot. */
  predicate Occupied(n: Node, s: Slot) {
    Insertable(n, s) && s.index < |Kids(At(n, s.parent), s.inShadow)|
  }

  function KidAt(n: Node, s: Slot): Node
    requires Occupied(n, s)
  {
    Kids(At(n, s.parent), s.inShadow)[s.index]
  }

  function SlotPath(s: Slot): seq<Step> {
    s.parent + [Step(s.inShadow, s.index)]
  }

  lemma KidAtPath(n: Node, s: Slot)
    requires Occupied(n, s)
    ensures ValidPath(n, SlotPath(s)) && At(n, SlotPath(s)) == KidAt(n, s)
  {
    AtConcat(n, s.parent, [Step(s.inShadow, s.index)]);
  }

  /** The slot right after the node at `p`, where `insertBefore(x, p.nextSibling)` puts `x`; none above the root. */
  function SlotAfter(n: Node, p: seq<Step>): (r: Option<Slot>)
    requires ValidPath(n, p)
    ensures r.Some? <==> p != []
    ensures r.Some? ==>
      && Insertable(n, r.value) && r.value.index > 0
      && Kids(At(n, r.value.parent), r.value.inShadow)[r.value.index - 1] == At(n, p)
      && SlotPath(r.value.(index := r.value.index - 1)) == p
  {
    if p == [] then None
    else
      SplitLast(n, p);
      var s := p[|p| - 1];
      assert p[..|p| - 1] + [s] == p;
      Some(Slot(p[..|p| - 1], s.inShadow, s.index + 1))
  }

  /** `node.nextSibling`, when there is one. */
  function NextSibling(n: Node, p: seq<Step>): (r: Option<Slot>)
    requires ValidPath(n, p)
    ensures r.Some? ==> Occupied(n, r.value)
  {
    match SlotAfter(n, p)
    case Some(s) => if Occupied(n, s) then Some(s) else None
    case None => None
  }

  /** The first light child of the element at `p` that carries `c`. */
  function FirstChildWith(n: Node, p: seq<Step>, c: Class): (r: Option<Slot>)
    requires ValidPath(n, p) && At(n, p).Element?
    ensures r.Some? ==>
      && Occupied(n, r.value) && r.value.parent == p && !r.value.inShadow
      && HasClass(KidAt(n, r.value), c)
      && forall i | 0 <= i < r.value.index :: !HasClass(At(n, p).children[i], c)
    ensures r.None? ==> forall i | 0 <= i < |At(n, p).children| :: !HasClass(At(n, p).children[i], c)
  {
    match FirstWith(At(n, p).children, c, |At(n, p).children|)
    case Some(i) => Some(Slot(p, false, i))
    case None => None
  }

  /** The first index below `k` whose node carries `c`. */
  function FirstWith(cs: seq<Node>, c: Class, k: nat): (r: Option<nat>)
    requires k <= |cs|
    ensures r.Some? ==> r.value < k && HasClass(cs[r.value], c) && forall i | 0 <= i < r.value :: !HasClass(cs[i], c)
    ensures r.None? ==> forall i | 0 <= i < k :: !HasClass(cs[i], c)
  {
    if k == 0 then None
    else match FirstWith(cs, c, k - 1)
      case Some(i) => Some(i)
      case None => if HasClass(cs[k - 1], c) then Some(k - 1) else None
  }

  function InsertAt(n: Node, s: Slot, xs: seq<Node>): Node
    requires Insertable(n, s)
  {
    InsertKids(n, s.parent, s.inShadow, s.index, xs)
  }

  function RemoveAt(n: Node, s: Slot): Node
    requires Occupied(n, s)
  {
    RemoveKid(n, s.parent, s.inShadow, s.index)
  }

  // ----- what the engine creates -----

  /** A fresh wrapper (both wrapper classes) holding a fresh spinner; ids `id` and `id + 1`. */
  function NewWrapper(id: NodeId): (r: Node)
    ensures IsWrapper(r) && r.id == id && r.children == [Span(id + 1, "SPAN", {Spinner}, [])]
    ensures FreshSeq([r], id, id + 2)
  {
    var spinner := Span(id + 1, "SPAN", {Spinner}, []);
    var r := Span(id, "SPAN", {NoTranslate, ContentWrapper}, [spinner]);
    forall x: NodeId ensures CountSeq([r], x) <= (if id <= x < id + 2 then 1 else 0) {
      CountSeqSingle(r, x);
      CountSeqSingle(spinner, x);
    }
    r
  }

  /** Where a new wrapper goes: the last child of an element target, right after any other target. */
  function WrapperSlot(n: Node, p: seq<Step>): (r: Option<Slot>)
    requires ValidPath(n, p)
    ensures r.Some? ==> Insertable(n, r.value)
    ensures At(n, p).Element? ==> r == Some(Slot(p, false, |At(n, p).children|))
    ensures !At(n, p).Element? ==> r == SlotAfter(n, p)
  {
    if At(n, p).Element? then Some(Slot(p, false, |At(n, p).children|)) else SlotAfter(n, p)
  }

  /** The target takes the inline layout: a forced-inline tag or an inline node. */
  predicate InlineLayout(target: Node, pol: Policy) {
    (target.Element? && target.tag in pol.forceInlineTags) || pol.inlineTrans(target)
  }

  /** A span of the given classes whose only child is the text `s`. */
  function TextSpan(id: NodeId, classes: set<Class>, s: string, underline: bool): (r: Node)
    ensures r.Element? && r.id == id && r.attrs.classes == classes && r.attrs.underline == underline
    ensures TextContent(r) == s
    ensures FreshSeq([r], id, id + 2)
  {
    var t := Text(id + 1, s);
    var r := Element(id, "SPAN", Attrs(classes, None, false, false, false, false, underline), [t], false, []);
    assert [t][..0] == [];
    assert ChildrenText([t]) == ChildrenText([]) + s;
    forall x: NodeId ensures CountSeq([r], x) <= (if id <= x < id + 2 then 1 else 0) {
      CountSeqSingle(r, x);
      CountSeqSingle(t, x);
    }
    r
  }

  /**
   * The nodes `insertTranslatedNodeIntoWrapper` appends to the wrapper, with
   * ids from `base` on: a two-space span and an inline content span, or a
   * line break and a block content span, or nothing. With `underlineLinks`,
   * the content of an `A` target is underlined.
   */
  function Fill(target: Node, s: string, base: NodeId, pol: Policy, underlineLinks: bool): (r: seq<Node>)
    ensures FreshSeq(r, base, base + 4)
    ensures InlineLayout(target, pol) ==>
      && |r| == 2 && TextContent(r[0]) == "  "
      && HasClass(r[1], NoTranslate) && HasClass(r[1], InlineContent) && TextContent(r[1]) == s
    ensures !InlineLayout(target, pol) && pol.blockTrans(target) ==>
      && |r| == 2 && r[0].Element? && r[0].tag == "BR" && r[0].children == []
      && HasClass(r[1], NoTranslate) && HasClass(r[1], BlockContent) && TextContent(r[1]) == s
    ensures !InlineLayout(target, pol) && !pol.blockTrans(target) ==> r == []
    ensures |r| == 2 ==> r[1].Element? && (r[1].attrs.underline <==> underlineLinks && target.Element? && target.tag == "A")
  {
    var underline := underlineLinks && target.Element? && target.tag == "A";
    if InlineLayout(target, pol) then
      FillPair(TextSpan(base, {}, "  ", false), TextSpan(base + 2, {NoTranslate, InlineContent}, s, underline), base)
    else if pol.blockTrans(target) then
      FillPair(Span(base, "BR", {}, []), TextSpan(base + 2, {NoTranslate, BlockContent}, s, underline), base)
    else []
  }

  function FillPair(a: Node, b: Node, base: NodeId): (r: seq<Node>)
    requires FreshSeq([a], base, base + 2) && FreshSeq([b], base + 2, base + 4)
    ensures r == [a, b] && FreshSeq(r, base, base + 4)
  {
    assert [a, b][..1] == [a];
    forall x: NodeId ensures CountSeq([a, b], x) == CountSeq([a], x) + CountSeq([b], x) {
      CountSeqSingle(b, x);
    }
    [a, b]
  }

  /** The error container appended to a wrapper when translation fails (its rendered content is not modelled). */
  function ErrorBox(id: NodeId): (r: Node)
    ensures HasClass(r, ErrorWrapper) && r.id == id && FreshSeq([r], id, id + 1)
  {
    var r := Span(id, "SPAN", {ErrorWrapper}, []);
    forall x: NodeId ensures CountSeq([r], x) <= (if id <= x < id + 1 then 1 else 0) {
      CountSeqSingle(r, x);
    }
    r
  }

  // ----- removeAllTranslatedWrapperNodes -----

  /**
   * The tree after removing every wrapper from the light tree below `n`, and
   * then, for each remaining element hosting a shadow root, from that shadow
   * root's tree in the same way. `n` itself is the root searched from and is
   * never removed.
   */
  function Sweep(n: Node): Node
    decreases n, 1
  {
    if !n.Element? then n
    else n.(children := SweepKids(n.children),
            shadow := if n.hasShadow then SweepKids(n.shadow) else n.shadow)
  }

  function SweepKids(cs: seq<Node>): seq<Node>
    decreases cs, 0
  {
    if cs == [] then []
    else
      var last := cs[|cs| - 1];
      SweepKids(cs[..|cs| - 1]) + (if IsWrapper(last) then [] else [Sweep(last)])
  }

  /** No wrapper below `n`, in its light tree or in any open shadow tree reached from it. */
  predicate WrapperFree(n: Node) {
    n.Element? ==>
      && (forall c | c in n.children :: !IsWrapper(c) && WrapperFree(c))
      && (n.hasShadow ==> forall c | c in n.shadow :: !IsWrapper(c) && WrapperFree(c))
  }

  /** After the sweep no wrapper is left. */
  lemma {:induction false} SweepLeavesNoWrapper(n: Node)
    ensures WrapperFree(Sweep(n))
    decreases n, 1
  {
    if n.Element? {
      SweepKidsLeaveNoWrapper(n.children);
      if n.hasShadow {
        SweepKidsLeaveNoWrapper(n.shadow);
      }
    }
  }

  lemma {:induction false} SweepKidsLeaveNoWrapper(cs: seq<Node>)
    ensures forall c | c in SweepKids(cs) :: !IsWrapper(c) && WrapperFree(c)
    decreases cs, 0
  {
    if cs != [] {
      var last := cs[|cs| - 1];
      SweepKidsLeaveNoWrapper(cs[..|cs| - 1]);
      if !IsWrapper(last) {
        SweepLeavesNoWrapper(last);
        assert !IsWrapper(Sweep(last)) by {
          assert last.Element? ==> Sweep(last).attrs == last.attrs;
        }
      }
    }
  }

  /** The sweep changes nothing in a tree that holds no wrapper. */
  lemma {:induction false} SweepKeepsWrapperFree(n: Node)
    requires WrapperFree(n)
    ensures Sweep(n) == n
    decreases n, 1
  {
    if n.Element? {
      SweepKidsKeep(n.children);
      if n.hasShadow {
        SweepKidsKeep(n.shadow);
      }
    }
  }

  lemma {:induction false} SweepKidsKeep(cs: seq<Node>)
    requires forall c | c in cs :: !IsWrapper(c) && WrapperFree(c)
    ensures SweepKids(cs) == cs
    decreases cs, 0
  {
    if cs != [] {
      var init, last := cs[..|cs| - 1], cs[|cs| - 1];
      assert init + [last] == cs;
      forall c | c in init
        ensures c in cs
      {
      }
      SweepKidsKeep(init);
      assert last in cs;
      SweepKeepsWrapperFree(last);
      assert SweepKids(cs) == SweepKids(init) + [Sweep(last)];
    }
  }

  /** Sweeping twice is sweeping once. */
  lemma SweepIdempotent(n: Node)
    ensures Sweep(Sweep(n)) == Sweep(n)
  {
    SweepLeavesNoWrapper(n);
    SweepKeepsWrapperFree(Sweep(n));
  }

  /**
   * How many nodes with id `x` the sweep takes away: every node of a removed
   * wrapper's subtree, the wrapper included.
   */
  function Swept(n: Node, x: NodeId): nat
    decreases n, 1
  {
    if !n.Element? then 0
    else SweptKids(n.children, x) + (if n.hasShadow then SweptKids(n.shadow, x) else 0)
  }

  function SweptKids(cs: seq<Node>, x: NodeId): nat
    decreases cs, 0
  {
    if cs == [] then 0
    else
      var last := cs[|cs| - 1];
      SweptKids(cs[..|cs| - 1], x) + (if IsWrapper(last) then Count(last, x) else Swept(last, x))
  }

  /**
   * The sweep only takes nodes away, and exactly those inside the wrappers it
   * removes: a node outside every wrapper is still there afterwards.
   */
  lemma {:induction false} SweepCounts(n: Node, x: NodeId)
    ensures Count(Sweep(n), x) + Swept(n, x) == Count(n, x)
    ensures Count(Sweep(n), x) <= Count(n, x)
    ensures Count(Sweep(n), x) == Count(n, x) <==> Swept(n, x) == 0
    decreases n, 1
  {
    if n.Element? {
      SweepKidsCounts(n.children, x);
      if n.hasShadow {
        SweepKidsCounts(n.shadow, x);
      }
    }
  }

  lemma {:induction false} SweepKidsCounts(cs: seq<Node>, x: NodeId)
    ensures CountSeq(SweepKids(cs), x) + SweptKids(cs, x) == CountSeq(cs, x)
    decreases cs, 0
  {
    if cs != [] {
      var last := cs[|cs| - 1];
      SweepKidsCounts(cs[..|cs| - 1], x);
      var tail := if IsWrapper(last) then [] else [Sweep(last)];
      CountSeqAppend(SweepKids(cs[..|cs| - 1]), tail, x);
      if !IsWrapper(last) {
        SweepCounts(last, x);
        CountSeqSingle(Sweep(last), x);
      }
    }
  }

  // ----- locating a node's target and wrapper -----

  /**
   * The path of the target `translateNode` works on for the node `id`: an
   * element is unwrapped down its chain of only children, any other node is
   * its own target. None when the node is not in the page tree.
   */
  function TargetOf(n: Node, id: NodeId): (r: Option<seq<Step>>)
    ensures r.Some? ==> ValidPath(n, r.value)
    ensures r.None? <==> Find(n, id).None?
    ensures r.Some? ==> var p := Find(n, id).value;
      if At(n, p).Element? then r.value == p + UnwrapPath(At(n, p)) && At(n, r.value) == At(At(n, p), UnwrapPath(At(n, p)))
      else r.value == p
  {
    match Find(n, id)
    case None => None
    case Some(p) =>
      if At(n, p).Element? then
        AtConcat(n, p, UnwrapPath(At(n, p)));
        Some(p + UnwrapPath(At(n, p)))
      else Some(p)
  }

  /** Finds the node `id` and, for an element, walks down its chain of only children to the target. */
  method LocateTarget(n: Node, id: NodeId) returns (r: Option<seq<Step>>)
    ensures r == TargetOf(n, id)
  {
    var found := Find(n, id);
    if found.None? {
      return None;
    }
    var tp := found.value;
    if At(n, tp).Element? {
      var _, down := UnwrapDeepestOnlyChild(At(n, tp));
      tp := tp + down;
    }
    return Some(tp);
  }

  /** The node `id` as it stands in the page now, or as it was last seen when it has left the page. */
  function Current(n: Node, id: NodeId, lastSeen: Node): Node {
    match Find(n, id)
    case Some(p) => At(n, p)
    case None => lastSeen
  }

  /**
   * `appendChild` of `xs` to the element `id`. When that element has left
   * the page, the append happens off the page and the page is unchanged.
   */
  function AppendTo(n: Node, id: NodeId, xs: seq<Node>): (r: Node)
    ensures r.id == n.id
    ensures Find(n, id).Some? && At(n, Find(n, id).value).Element? ==>
      var q := Find(n, id).value;
      r == InsertAt(n, Slot(q, false, |At(n, q).children|), xs)
    ensures !(Find(n, id).Some? && At(n, Find(n, id).value).Element?) ==> r == n
  {
    match Find(n, id)
    case Some(q) =>
      if At(n, q).Element? then InsertAt(n, Slot(q, false, |At(n, q).children|), xs) else n
    case None => n
  }

  lemma AppendFresh(n: Node, id: NodeId, xs: seq<Node>, lo: nat, hi: nat)
    requires Unique(n) && IdsBelow(n, lo) && FreshSeq(xs, lo, hi) && lo <= hi
    ensures Unique(AppendTo(n, id, xs)) && IdsBelow(AppendTo(n, id, xs), hi)
  {
    match Find(n, id)
    case Some(q) =>
      if At(n, q).Element? {
        InsertFresh(n, q, false, |At(n, q).children|, xs, lo, hi);
      }
    case None =>
  }

  lemma DetachKeeps(n: Node, id: NodeId, bound: nat)
    requires Unique(n) && IdsBelow(n, bound)
    ensures Unique(Detach(n, id)) && IdsBelow(Detach(n, id), bound)
  {
  }

  lemma RemoveAtKeeps(n: Node, s: Slot, bound: nat)
    requires Occupied(n, s) && Unique(n) && IdsBelow(n, bound)
    ensures Unique(RemoveAt(n, s)) && IdsBelow(RemoveAt(n, s), bound)
  {
    RemoveKidCounts(n, s.parent, s.inShadow, s.index);
  }

  /**
   * Taking away a light child of the target, or the node right after it,
   * leaves the target where it was; in the first case the target loses that
   * child.
   */
  lemma RemoveKeepsTarget(n: Node, tp: seq<Step>, w: Slot)
    requires ValidPath(n, tp) && Occupied(n, w)
    requires (w.parent == tp && !w.inShadow) || SlotAfter(n, tp) == Some(w)
    ensures ValidPath(RemoveAt(n, w), tp)
    ensures w.parent == tp && !w.inShadow ==>
      var cs := At(n, tp).children;
      At(RemoveAt(n, w), tp) == At(n, tp).(children := cs[..w.index] + cs[w.index + 1..])
    ensures SlotAfter(n, tp) == Some(w) ==> At(RemoveAt(n, w), tp) == At(n, tp)
  {
    if SlotAfter(n, tp) == Some(w) {
      var before := w.(index := w.index - 1);
      assert Occupied(RemoveAt(n, w), before);
      KidAtPath(RemoveAt(n, w), before);
    }
  }

  /** Appending fresh nodes does not bring back a node that is gone. */
  lemma AppendKeepsGone(n: Node, id: NodeId, xs: seq<Node>, gone: NodeId, lo: nat, hi: nat)
    requires FreshSeq(xs, lo, hi) && Count(n, gone) == 0 && gone < lo
    ensures Count(AppendTo(n, id, xs), gone) == 0
  {
    match Find(n, id)
    case Some(q) =>
      if At(n, q).Element? {
        InsertKidsCounts(n, q, false, |At(n, q).children|, xs);
      }
    case None =>
  }

  /** Removing the node just inserted at a slot gives back the tree. */
  lemma InsertThenRemove(n: Node, s: Slot, w: Node)
    requires Insertable(n, s)
    ensures Occupied(InsertAt(n, s, [w]), s) && KidAt(InsertAt(n, s, [w]), s) == w
    ensures RemoveAt(InsertAt(n, s, [w]), s) == n
  {
    InsertThenRemoveKid(n, s.parent, s.inShadow, s.index, w);
  }

  /** Inserting right after the node at `p` leaves that node in place and makes the new node its next sibling. */
  lemma InsertAfterKeepsNode(n: Node, p: seq<Step>, w: Node)
    requires ValidPath(n, p) && p != []
    ensures var n' := InsertAt(n, SlotAfter(n, p).value, [w]);
      && ValidPath(n', p) && At(n', p) == At(n, p)
      && NextSibling(n', p) == SlotAfter(n, p) && KidAt(n', SlotAfter(n, p).value) == w
  {
    var s := SlotAfter(n, p).value;
    var j := s.index;
    var ks := Kids(At(n, s.parent), s.inShadow);
    var n' := InsertAt(n, s, [w]);
    var ks' := Kids(At(n', s.parent), s.inShadow);
    assert ks' == ks[..j] + [w] + ks[j..];
    assert ks'[j - 1] == ks[j - 1] == At(n, p) && ks'[j] == w;
    var before := s.(index := j - 1);
    assert SlotPath(before) == p;
    KidAtPath(n', before);
    assert p[..|p| - 1] == s.parent && p[|p| - 1] == Step(s.inShadow, j - 1);
  }

  /**
   * Placing a wrapper does not move the target: looked up again in the new
   * page, the node's target is the same path. An element target must keep a
   * child besides the wrapper, or the descent would go on into the wrapper.
   */
  lemma PlacementKeepsTarget(n: Node, id: NodeId, w: Node)
    requires Count(n, id) <= 1 && Count(w, id) == 0
    requires TargetOf(n, id).Some? && WrapperSlot(n, TargetOf(n, id).value).Some?
    requires At(n, TargetOf(n, id).value).Element? ==> At(n, TargetOf(n, id).value).children != []
    ensures var tp := TargetOf(n, id).value;
      TargetOf(InsertAt(n, WrapperSlot(n, tp).value, [w]), id) == Some(tp)
  {
    var p := Find(n, id).value;
    var tp := TargetOf(n, id).value;
    var s := WrapperSlot(n, tp).value;
    var n' := InsertAt(n, s, [w]);
    InsertKidsCounts(n, s.parent, s.inShadow, s.index, [w]);
    CountSeqSingle(w, id);
    if At(n, p).Element? {
      DeepestAt(At(n, p));
      DeepestElement(At(n, p));
      AppendKeepsDescent(n, p, w);
      FindOnly(n', p, id);
    } else {
      InsertAfterKeepsNode(n, tp, w);
      FindOnly(n', tp, id);
    }
  }

  /**
   * Appending to the element the descent from `p` stops at, when it already
   * has a child, leaves the node at `p` and its descent as they were.
   */
  lemma AppendKeepsDescent(n: Node, p: seq<Step>, w: Node)
    requires ValidPath(n, p) && At(n, p).Element? && ValidPath(n, p + UnwrapPath(At(n, p)))
    requires var t := At(n, p + UnwrapPath(At(n, p))); t.Element? && t.children != []
    ensures var tp := p + UnwrapPath(At(n, p));
      var n' := InsertAt(n, Slot(tp, false, |At(n, tp).children|), [w]);
      && ValidPath(n', p) && At(n', p).Element? && At(n', p).id == At(n, p).id
      && UnwrapPath(At(n', p)) == UnwrapPath(At(n, p))
  {
    var m := At(n, p);
    var q := UnwrapPath(m);
    var tp := p + q;
    var ks := At(n, tp).children;
    var t' := WithKids(At(n, tp), false, ks + [w]);
    assert ks[..|ks|] + [w] + ks[|ks|..] == ks + [w];
    ReplaceAtPrefix(n, p, q, t');
    AtConcat(n, p, q);
    UnwrapReplace(m, t');
    ReplaceAtSelf(m, q, t');
    assert ReplaceAt(m, q, t').Element?;
  }

  /** Appending a child with class `c` to an element that had none makes it the first such child. */
  lemma AppendChildFound(n: Node, p: seq<Step>, w: Node, c: Class)
    requires ValidPath(n, p) && At(n, p).Element? && HasClass(w, c)
    requires FirstChildWith(n, p, c).None?
    ensures var n' := InsertAt(n, Slot(p, false, |At(n, p).children|), [w]);
      && ValidPath(n', p) && At(n', p).Element?
      && At(n', p).id == At(n, p).id && At(n', p).attrs == At(n, p).attrs
      && FirstChildWith(n', p, c) == Some(Slot(p, false, |At(n, p).children|))
  {
    var ks := At(n, p).children;
    var n' := InsertAt(n, Slot(p, false, |ks|), [w]);
    assert ks[..|ks|] + [w] + ks[|ks|..] == ks + [w];
    var cs' := At(n', p).children;
    assert cs' == ks + [w];
    assert FirstWith(ks, c, |ks|).None?;
    FirstWithAppend(ks, w, c);
    assert FirstWith(cs', c, |cs'|) == Some(|ks|);
  }

  lemma FirstWithAppend(ks: seq<Node>, w: Node, c: Class)
    requires FirstWith(ks, c, |ks|).None? && HasClass(w, c)
    ensures FirstWith(ks + [w], c, |ks| + 1) == Some(|ks|)
  {
  }
}
