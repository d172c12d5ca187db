/**
 * The page tree the overlay engine reads and edits.
 *
 * A node is a value; its `id` stands for the identity of the DOM object, so that
 * the in-flight registry and "remove this wrapper later" can name a node
 * after the tree around it has changed. An element keeps its light children
 * and, when it hosts a shadow root, the shadow root's children.
 */
module Dom {
  import opened Wrappers

  type NodeId = nat

  /** The class names the engine reads or writes; `PageClass` is any class of the page itself. */
  datatype Class =
    | NoTranslate        // NOTRANSLATE_CLASS
    | ContentWrapper     // CONTENT_WRAPPER_CLASS
    | InlineContent      // INLINE_CONTENT_CLASS
    | BlockContent       // BLOCK_CONTENT_CLASS
    | Spinner            // 'read-frog-spinner'
    | ErrorWrapper       // 'read-frog-error-wrapper'
    | PageClass(name: string)

  /** The attributes of an element that the engine reads or writes. */
  datatype Attrs = Attrs(
    classes: set<Class>,
    walked: Option<string>,   // WALKED_ATTRIBUTE, the walk id of the last labelling pass
    paragraph: bool,          // PARAGRAPH_ATTRIBUTE
    block: bool,              // BLOCK_ATTRIBUTE
    inline: bool,             // INLINE_ATTRIBUTE
    inlineEnd: bool,          // CONSECUTIVE_INLINE_END_ATTRIBUTE
    underline: bool)          // style.textDecoration == 'underline'

  /**
   * `Element` is an HTML element. `Other` is any other node: a comment
   * (`isElement` false) or a non-HTML element such as an SVG element
   * (`isElement` true); `content` is its DOM textContent. The engine never
   * looks inside an `Other`.
   */
  datatype Node =
    | Text(id: NodeId, text: string)
    | Element(id: NodeId, tag: string, attrs: Attrs, children: seq<Node>,
              hasShadow: bool, shadow: seq<Node>)
    | Other(id: NodeId, isElement: bool, content: string)

  /** A fresh element with the given classes and no engine attributes. */
  function Span(id: NodeId, tag: string, classes: set<Class>, children: seq<Node>): (r: Node)
    ensures r.Element? && r.id == id && r.tag == tag && r.attrs.classes == classes
    ensures r.children == children && !r.hasShadow && r.shadow == []
  {
    Element(id, tag, Attrs(classes, None, false, false, false, false, false), children, false, [])
  }

  predicate HasClass(n: Node, c: Class) {
    n.Element? && c in n.attrs.classes
  }

  /** An overlay wrapper: an element carrying both NOTRANSLATE_CLASS and CONTENT_WRAPPER_CLASS. */
  predicate IsWrapper(n: Node) {
    HasClass(n, NoTranslate) && HasClass(n, ContentWrapper)
  }

  // ----- whitespace and the DOM's own textContent -----

  /**
   * The characters String.prototype.trim removes: the white space and line
   * terminators of ECMAScript, with every space separator of Unicode 15.
   */
  predicate IsSpace(c: char) {
    || c == ' ' || c == '\t' || c == '\n' || c == '\r' || c == '\U{000B}' || c == '\U{000C}'
    || c == '\U{00A0}' || c == '\U{FEFF}' || c == '\U{2028}' || c == '\U{2029}'
    || c == '\U{1680}' || ('\U{2000}' <= c <= '\U{200A}') || c == '\U{202F}' || c == '\U{205F}'
    || c == '\U{3000}'
  }

  /** `s.trim()` is non-empty. */
  predicate HasText(s: string) {
    exists i :: 0 <= i < |s| && !IsSpace(s[i])
  }

  /** Node.textContent: the text of every descendant text node, in order (comments excluded). */
  function TextContent(n: Node): string {
    match n
    case Text(_, s) => s
    case Other(_, _, c) => c
    case Element(_, _, _, cs, _, _) => ChildrenText(cs)
  }

  function ChildrenText(cs: seq<Node>): string {
    if cs == [] then ""
    else
      var last := cs[|cs| - 1];
      ChildrenText(cs[..|cs| - 1]) + (if last.Other? && !last.isElement then "" else TextContent(last))
  }

  // ----- the classification policy -----

  /** `globalConfig.translate.page.range`. */
  datatype Range = All | MainContent

  /**
   * The filters and tag sets of the classification policy. The filters
   * themselves are not part of this model: they are arbitrary functions of
   * the node they are applied to.
   */
  datatype Policy = Policy(
    dontWalkInto: Node -> bool,      // isDontWalkIntoElement
    shallowBlock: Node -> bool,      // isShallowBlockHTMLElement
    shallowInline: Node -> bool,     // isShallowInlineHTMLElement
    inlineTrans: Node -> bool,       // isInlineTransNode
    blockTrans: Node -> bool,        // isBlockTransNode
    invalidTags: set<string>,        // INVALID_TRANSLATE_TAGS
    mainContentIgnoreTags: set<string>,  // MAIN_CONTENT_IGNORE_TAGS
    forceInlineTags: set<string>,    // FORCE_INLINE_TRANSLATION_TAGS
    range: Option<Range>)            // None when no configuration is loaded

  // ----- paths -----

  /** One step down: into the light children or into the shadow root's children. */
  datatype Step = Step(inShadow: bool, index: nat)

  function Kids(n: Node, inShadow: bool): seq<Node> {
    if !n.Element? then [] else if inShadow then n.shadow else n.children
  }

  function WithKids(n: Node, inShadow: bool, ks: seq<Node>): (r: Node)
    requires n.Element?
    ensures r.Element? && r.id == n.id && r.tag == n.tag && r.attrs == n.attrs && r.hasShadow == n.hasShadow
    ensures Kids(r, inShadow) == ks && Kids(r, !inShadow) == Kids(n, !inShadow)
  {
    if inShadow then n.(shadow := ks) else n.(children := ks)
  }

  predicate ValidPath(n: Node, p: seq<Step>)
    decreases |p|
  {
    p == [] || (p[0].index < |Kids(n, p[0].inShadow)| && ValidPath(Kids(n, p[0].inShadow)[p[0].index], p[1..]))
  }

  function At(n: Node, p: seq<Step>): Node
    requires ValidPath(n, p)
    decreases |p|
  {
    if p == [] then n else At(Kids(n, p[0].inShadow)[p[0].index], p[1..])
  }

  /** The tree with the node at `p` replaced by `sub`. */
  function ReplaceAt(n: Node, p: seq<Step>, sub: Node): Node
    requires ValidPath(n, p)
    decreases |p|
  {
    if p == [] then sub
    else
      var ks := Kids(n, p[0].inShadow);
      WithKids(n, p[0].inShadow, ks[p[0].index := ReplaceAt(ks[p[0].index], p[1..], sub)])
  }

  lemma {:induction false} ReplaceAtSelf(n: Node, p: seq<Step>, sub: Node)
    requires ValidPath(n, p)
    ensures ValidPath(ReplaceAt(n, p, sub), p) && At(ReplaceAt(n, p, sub), p) == sub
    ensures p != [] ==> ReplaceAt(n, p, sub).id == n.id
    decreases |p|
  {
    if p != [] {
      var ks := Kids(n, p[0].inShadow);
      ReplaceAtSelf(ks[p[0].index], p[1..], sub);
    }
  }

  lemma {:induction false} AtConcat(n: Node, p: seq<Step>, q: seq<Step>)
    requires ValidPath(n, p)
    ensures ValidPath(n, p + q) <==> ValidPath(At(n, p), q)
    ensures ValidPath(n, p + q) ==> At(n, p + q) == At(At(n, p), q)
    decreases |p|
  {
    if p != [] {
      assert (p + q)[0] == p[0] && (p + q)[1..] == p[1..] + q;
      AtConcat(Kids(n, p[0].inShadow)[p[0].index], p[1..], q);
    } else {
      assert p + q == q;
    }
  }

  lemma {:induction false} PrefixValid(n: Node, p: seq<Step>, k: nat)
    requires ValidPath(n, p) && k <= |p|
    ensures ValidPath(n, p[..k])
    decreases |p|
  {
    if k > 0 {
      assert p[..k][1..] == p[1..][..k - 1];
      PrefixValid(Kids(n, p[0].inShadow)[p[0].index], p[1..], k - 1);
    }
  }

  // ----- node identities -----

  /** The number of nodes of `n`'s tree (shadow trees included) whose id is `id`. */
  function Count(n: Node, id: NodeId): nat {
    (if n.id == id then 1 else 0)
    + (if n.Element? then CountSeq(n.children, id) + CountSeq(n.shadow, id) else 0)
  }

  function CountSeq(cs: seq<Node>, id: NodeId): nat {
    if cs == [] then 0 else CountSeq(cs[..|cs| - 1], id) + Count(cs[|cs| - 1], id)
  }

  /** No two nodes of the tree share an id. */
  ghost predicate Unique(n: Node) {
    forall id :: Count(n, id) <= 1
  }

  /** Every id used in the tree is below `bound`, so ids from `bound` on are fresh. */
  ghost predicate IdsBelow(n: Node, bound: nat) {
    forall id :: id >= bound ==> Count(n, id) == 0
  }

  lemma {:induction false} CountSeqAppend(a: seq<Node>, b: seq<Node>, id: NodeId)
    ensures CountSeq(a + b, id) == CountSeq(a, id) + CountSeq(b, id)
    decreases |b|
  {
    if b == [] {
      assert a + b == a;
    } else {
      assert (a + b)[..|a + b| - 1] == a + b[..|b| - 1];
      CountSeqAppend(a, b[..|b| - 1], id);
    }
  }

  lemma CountSeqSingle(x: Node, id: NodeId)
    ensures CountSeq([x], id) == Count(x, id)
  {
    assert [x][..0] == [];
  }

  /** Counting over a sequence splits at any element. */
  lemma CountSeqSplit(cs: seq<Node>, j: nat, id: NodeId)
    requires j < |cs|
    ensures CountSeq(cs, id) == CountSeq(cs[..j], id) + Count(cs[j], id) + CountSeq(cs[j + 1..], id)
  {
    assert cs == cs[..j] + [cs[j]] + cs[j + 1..];
    CountSeqAppend(cs[..j] + [cs[j]], cs[j + 1..], id);
    CountSeqAppend(cs[..j], [cs[j]], id);
    CountSeqSingle(cs[j], id);
  }

  lemma CountSeqUpdate(cs: seq<Node>, j: nat, x: Node, id: NodeId)
    requires j < |cs|
    ensures CountSeq(cs[j := x], id) == CountSeq(cs, id) - Count(cs[j], id) + Count(x, id)
  {
    CountSeqSplit(cs, j, id);
    CountSeqSplit(cs[j := x], j, id);
    assert cs[j := x][..j] == cs[..j] && cs[j := x][j + 1..] == cs[j + 1..];
  }

  lemma CountSeqInsert(cs: seq<Node>, j: nat, x: Node, id: NodeId)
    requires j <= |cs|
    ensures CountSeq(cs[..j] + [x] + cs[j..], id) == CountSeq(cs, id) + Count(x, id)
  {
    var a, b := cs[..j], cs[j..];
    var ys := a + [x] + b;
    assert ys[..j] == a && ys[j] == x && ys[j + 1..] == b;
    CountSeqSplit(ys, j, id);
    assert a + b == cs;
    CountSeqAppend(a, b, id);
  }

  lemma CountSeqRemove(cs: seq<Node>, j: nat, id: NodeId)
    requires j < |cs|
    ensures CountSeq(cs[..j] + cs[j + 1..], id) == CountSeq(cs, id) - Count(cs[j], id)
  {
    CountSeqSplit(cs, j, id);
    CountSeqAppend(cs[..j], cs[j + 1..], id);
  }

  lemma CountUnfold(n: Node, id: NodeId)
    ensures Count(n, id) == (if n.id == id then 1 else 0) + CountSeq(Kids(n, false), id) + CountSeq(Kids(n, true), id)
  {
  }

  /** A node occurs in its parent's count. */
  lemma CountKid(n: Node, s: Step, id: NodeId)
    requires s.index < |Kids(n, s.inShadow)|
    ensures Count(Kids(n, s.inShadow)[s.index], id) <= Count(n, id)
  {
    CountUnfold(n, id);
    CountSeqSplit(Kids(n, s.inShadow), s.index, id);
  }

  /** Replacing a subtree changes the counts by exactly what was taken out and put in. */
  lemma {:induction false} CountReplaceAt(n: Node, p: seq<Step>, sub: Node, id: NodeId)
    requires ValidPath(n, p)
    ensures Count(At(n, p), id) <= Count(n, id)
    ensures Count(ReplaceAt(n, p, sub), id) == Count(n, id) - Count(At(n, p), id) + Count(sub, id)
    decreases |p|
  {
    if p != [] {
      var ks := Kids(n, p[0].inShadow);
      var j := p[0].index;
      CountReplaceAt(ks[j], p[1..], sub, id);
      CountSeqUpdate(ks, j, ReplaceAt(ks[j], p[1..], sub), id);
      CountKid(n, p[0], id);
      CountUnfold(n, id);
      CountUnfold(ReplaceAt(n, p, sub), id);
    }
  }

  /** The same, for every id at once: uniqueness and freshness survive a replacement. */
  lemma ReplaceAtKeepsIds(n: Node, p: seq<Step>, sub: Node, bound: nat)
    requires ValidPath(n, p) && Unique(n) && IdsBelow(n, bound) && IdsBelow(sub, bound)
    requires forall id :: Count(sub, id) <= Count(At(n, p), id)
    ensures Unique(ReplaceAt(n, p, sub)) && IdsBelow(ReplaceAt(n, p, sub), bound)
  {
    forall id ensures Count(ReplaceAt(n, p, sub), id) <= Count(n, id) {
      CountReplaceAt(n, p, sub, id);
    }
  }

  lemma IdsBelowMono(n: Node, b: nat, b': nat)
    requires IdsBelow(n, b) && b <= b'
    ensures IdsBelow(n, b')
  {
  }

  lemma IdsBelowAt(n: Node, p: seq<Step>, bound: nat)
    requires ValidPath(n, p) && IdsBelow(n, bound)
    ensures IdsBelow(At(n, p), bound)
    ensures Unique(n) ==> Unique(At(n, p))
  {
    forall id ensures Count(At(n, p), id) <= Count(n, id) {
      CountReplaceAt(n, p, At(n, p), id);
    }
  }

  // ----- locating and editing -----

  /** The path of the node with id `id`, in document order, light children before shadow children. */
  function Find(n: Node, id: NodeId): (r: Option<seq<Step>>)
    ensures r.Some? ==> ValidPath(n, r.value) && At(n, r.value).id == id
    ensures r.None? ==> Count(n, id) == 0
    decreases n, 1
  {
    if n.id == id then Some([])
    else if !n.Element? then None
    else
      match FindIn(n.children, id, |n.children|)
      case Some((i, q)) =>
        var p := [Step(false, i)] + q;
        assert p[1..] == q;
        Some(p)
      case None =>
        assert n.children[..|n.children|] == n.children;
        match FindIn(n.shadow, id, |n.shadow|)
        case Some((i, q)) =>
          var p := [Step(true, i)] + q;
          assert p[1..] == q;
          Some(p)
        case None =>
          assert n.shadow[..|n.shadow|] == n.shadow;
          None
  }

  /** The first of `cs[..k]` holding `id`: its index and the path inside it. */
  function FindIn(cs: seq<Node>, id: NodeId, k: nat): (r: Option<(nat, seq<Step>)>)
    requires k <= |cs|
    ensures r.Some? ==> r.value.0 < k && ValidPath(cs[r.value.0], r.value.1) && At(cs[r.value.0], r.value.1).id == id
    ensures r.None? ==> CountSeq(cs[..k], id) == 0
    decreases cs, 0, k
  {
    if k == 0 then None
    else
      assert cs[..k][..k - 1] == cs[..k - 1];
      match FindIn(cs, id, k - 1)
      case Some(v) => Some(v)
      case None =>
        match Find(cs[k - 1], id)
        case Some(q) => Some((k - 1, q))
        case None => None
  }

  /** The tree with `xs` inserted at position `j` of the kids of the element at `parent`. */
  function InsertKids(n: Node, parent: seq<Step>, inShadow: bool, j: nat, xs: seq<Node>): (r: Node)
    requires ValidPath(n, parent) && At(n, parent).Element? && j <= |Kids(At(n, parent), inShadow)|
    ensures ValidPath(r, parent) && At(r, parent).Element? && r.id == n.id
    ensures var ks := Kids(At(n, parent), inShadow);
      && Kids(At(r, parent), inShadow) == ks[..j] + xs + ks[j..]
      && At(r, parent) == WithKids(At(n, parent), inShadow, ks[..j] + xs + ks[j..])
  {
    var e := At(n, parent);
    var ks := Kids(e, inShadow);
    ReplaceAtSelf(n, parent, WithKids(e, inShadow, ks[..j] + xs + ks[j..]));
    ReplaceAt(n, parent, WithKids(e, inShadow, ks[..j] + xs + ks[j..]))
  }

  /** The tree with kid `j` of the element at `parent` taken out. */
  function RemoveKid(n: Node, parent: seq<Step>, inShadow: bool, j: nat): (r: Node)
    requires ValidPath(n, parent) && At(n, parent).Element? && j < |Kids(At(n, parent), inShadow)|
    ensures ValidPath(r, parent) && At(r, parent).Element? && r.id == n.id
    ensures var ks := Kids(At(n, parent), inShadow);
      && Kids(At(r, parent), inShadow) == ks[..j] + ks[j + 1..]
      && At(r, parent) == WithKids(At(n, parent), inShadow, ks[..j] + ks[j + 1..])
  {
    var e := At(n, parent);
    var ks := Kids(e, inShadow);
    ReplaceAtSelf(n, parent, WithKids(e, inShadow, ks[..j] + ks[j + 1..]));
    ReplaceAt(n, parent, WithKids(e, inShadow, ks[..j] + ks[j + 1..]))
  }

  /** The last step of a path names a kid of the node at the rest of the path. */
  lemma SplitLast(n: Node, p: seq<Step>)
    requires ValidPath(n, p) && p != []
    ensures var parent, s := p[..|p| - 1], p[|p| - 1];
      && ValidPath(n, parent) && At(n, parent).Element?
      && s.index < |Kids(At(n, parent), s.inShadow)|
      && Kids(At(n, parent), s.inShadow)[s.index] == At(n, p)
  {
    var parent, s := p[..|p| - 1], p[|p| - 1];
    PrefixValid(n, p, |p| - 1);
    assert parent + [s] == p;
    AtConcat(n, parent, [s]);
  }

  /** `node.remove()` on the node with id `id`: the page loses that subtree, and nothing else. */
  function Detach(n: Node, id: NodeId): (r: Node)
    ensures forall x :: Count(r, x) <= Count(n, x)
    ensures Unique(n) && n.id != id ==> Count(r, id) == 0
    ensures r.id == n.id
  {
    match Find(n, id)
    case None => n
    case Some(p) =>
      if p == [] then n
      else
        SplitLast(n, p);
        var parent, s := p[..|p| - 1], p[|p| - 1];
        RemoveKidCounts(n, parent, s.inShadow, s.index);
        RemoveKid(n, parent, s.inShadow, s.index)
  }

  lemma RemoveKidCounts(n: Node, parent: seq<Step>, inShadow: bool, j: nat)
    requires ValidPath(n, parent) && At(n, parent).Element? && j < |Kids(At(n, parent), inShadow)|
    ensures forall x ::
      Count(RemoveKid(n, parent, inShadow, j), x) == Count(n, x) - Count(Kids(At(n, parent), inShadow)[j], x)
  {
    var e := At(n, parent);
    var ks := Kids(e, inShadow);
    var e' := WithKids(e, inShadow, ks[..j] + ks[j + 1..]);
    forall x ensures Count(RemoveKid(n, parent, inShadow, j), x) == Count(n, x) - Count(ks[j], x) {
      CountReplaceAt(n, parent, e', x);
      CountUnfold(e, x);
      CountUnfold(e', x);
      CountSeqRemove(ks, j, x);
    }
  }

  lemma InsertKidsCounts(n: Node, parent: seq<Step>, inShadow: bool, j: nat, xs: seq<Node>)
    requires ValidPath(n, parent) && At(n, parent).Element? && j <= |Kids(At(n, parent), inShadow)|
    ensures forall x :: Count(InsertKids(n, parent, inShadow, j, xs), x) == Count(n, x) + CountSeq(xs, x)
  {
    var e := At(n, parent);
    var ks := Kids(e, inShadow);
    var e' := WithKids(e, inShadow, ks[..j] + xs + ks[j..]);
    forall x ensures Count(InsertKids(n, parent, inShadow, j, xs), x) == Count(n, x) + CountSeq(xs, x) {
      CountReplaceAt(n, parent, e', x);
      CountUnfold(e, x);
      CountUnfold(e', x);
      var a, b := ks[..j], ks[j..];
      CountSeqAppend(a + xs, b, x);
      CountSeqAppend(a, xs, x);
      CountSeqAppend(a, b, x);
      assert a + b == ks;
    }
  }

  /** Every id of `xs` lies in `[lo, hi)` and occurs once. */
  ghost predicate FreshSeq(xs: seq<Node>, lo: nat, hi: nat) {
    forall x: NodeId :: CountSeq(xs, x) <= (if lo <= x < hi then 1 else 0)
  }

  /** Inserting fresh nodes keeps ids unique and moves the allocation bound. */
  lemma InsertFresh(n: Node, parent: seq<Step>, inShadow: bool, j: nat, xs: seq<Node>, lo: nat, hi: nat)
    requires ValidPath(n, parent) && At(n, parent).Element? && j <= |Kids(At(n, parent), inShadow)|
    requires Unique(n) && IdsBelow(n, lo) && FreshSeq(xs, lo, hi) && lo <= hi
    ensures Unique(InsertKids(n, parent, inShadow, j, xs)) && IdsBelow(InsertKids(n, parent, inShadow, j, xs), hi)
  {
    InsertKidsCounts(n, parent, inShadow, j, xs);
  }

  /** A second replacement at the same path overrides the first. */
  lemma {:induction false} ReplaceTwice(n: Node, p: seq<Step>, a: Node, b: Node)
    requires ValidPath(n, p)
    ensures ValidPath(ReplaceAt(n, p, a), p) && ReplaceAt(ReplaceAt(n, p, a), p, b) == ReplaceAt(n, p, b)
    decreases |p|
  {
    ReplaceAtSelf(n, p, a);
    if p != [] {
      var ks := Kids(n, p[0].inShadow);
      ReplaceTwice(ks[p[0].index], p[1..], a, b);
    }
  }

  /** Putting back the node that is already there changes nothing. */
  lemma {:induction false} ReplaceSame(n: Node, p: seq<Step>)
    requires ValidPath(n, p)
    ensures ReplaceAt(n, p, At(n, p)) == n
    decreases |p|
  {
    if p != [] {
      var ks := Kids(n, p[0].inShadow);
      ReplaceSame(ks[p[0].index], p[1..]);
      assert ks[p[0].index := ks[p[0].index]] == ks;
    }
  }

  /** Taking out a node just inserted at position `j` gives back the tree. */
  lemma InsertThenRemoveKid(n: Node, parent: seq<Step>, inShadow: bool, j: nat, x: Node)
    requires ValidPath(n, parent) && At(n, parent).Element? && j <= |Kids(At(n, parent), inShadow)|
    ensures var n' := InsertKids(n, parent, inShadow, j, [x]);
      j < |Kids(At(n', parent), inShadow)| && RemoveKid(n', parent, inShadow, j) == n
  {
    var e := At(n, parent);
    var ks := Kids(e, inShadow);
    var e1 := WithKids(e, inShadow, ks[..j] + [x] + ks[j..]);
    var ks1 := ks[..j] + [x] + ks[j..];
    assert ks1[..j] + ks1[j + 1..] == ks;
    var e2 := WithKids(e1, inShadow, ks);
    assert e2 == e;
    ReplaceTwice(n, parent, e1, e2);
    ReplaceSame(n, parent);
  }

  // ----- finding in a tree without duplicate ids -----

  /** A node reached by a path is counted in the tree. */
  lemma {:induction false} CountAtLeastOne(n: Node, p: seq<Step>, id: NodeId)
    requires ValidPath(n, p) && At(n, p).id == id
    ensures Count(n, id) >= 1
    decreases |p|
  {
    if p != [] {
      CountAtLeastOne(Kids(n, p[0].inShadow)[p[0].index], p[1..], id);
      CountKid(n, p[0], id);
    }
  }

  /** What `FindIn` finds is counted in the kids it searched. */
  lemma FindInCounted(cs: seq<Node>, id: NodeId, k: nat)
    requires k <= |cs|
    ensures FindIn(cs, id, k).Some? ==> CountSeq(cs[..k], id) >= 1
  {
    var r := FindIn(cs, id, k);
    if r.Some? {
      var j, q := r.value.0, r.value.1;
      CountAtLeastOne(cs[j], q, id);
      assert cs[..k][j] == cs[j];
      CountSeqSplit(cs[..k], j, id);
    }
  }

  /** When the id occurs once among `cs[..k]`, `FindIn` answers with the kid that holds it. */
  lemma {:induction false} FindInOnly(cs: seq<Node>, id: NodeId, k: nat, i: nat, q: seq<Step>)
    requires i < k <= |cs| && Find(cs[i], id) == Some(q) && CountSeq(cs[..k], id) <= 1
    ensures FindIn(cs, id, k) == Some((i, q))
    decreases k
  {
    assert cs[..k][..k - 1] == cs[..k - 1];
    CountAtLeastOne(cs[i], q, id);
    if i == k - 1 {
      FindInCounted(cs, id, k - 1);
    } else {
      assert cs[..k - 1][i] == cs[i];
      CountSeqSplit(cs[..k - 1], i, id);
      FindInOnly(cs, id, k - 1, i, q);
    }
  }

  /** When the id occurs once in the tree, `Find` answers with the path of that node, whatever path led there. */
  lemma {:induction false} FindOnly(n: Node, p: seq<Step>, id: NodeId)
    requires ValidPath(n, p) && At(n, p).id == id && Count(n, id) <= 1
    ensures Find(n, id) == Some(p)
    decreases |p|
  {
    if p != [] {
      var s := p[0];
      var ks := Kids(n, s.inShadow);
      var c := ks[s.index];
      CountAtLeastOne(c, p[1..], id);
      CountUnfold(n, id);
      CountSeqSplit(ks, s.index, id);
      FindOnly(c, p[1..], id);
      assert ks[..|ks|] == ks;
      assert p == [Step(s.inShadow, s.index)] + p[1..];
      if s.inShadow {
        FindInCounted(n.children, id, |n.children|);
        assert n.children[..|n.children|] == n.children;
      }
      FindInOnly(ks, id, |ks|, s.index, p[1..]);
    }
  }

  /** In a tree without duplicate ids, a node's path is the one `Find` gives for its id. */
  lemma FindUnique(n: Node, p: seq<Step>)
    requires Unique(n) && ValidPath(n, p)
    ensures Find(n, At(n, p).id) == Some(p)
  {
    FindOnly(n, p, At(n, p).id);
  }

  /** Replacing below `p` is seen at `p` as a replacement inside the node there. */
  lemma {:induction false} ReplaceAtPrefix(n: Node, p: seq<Step>, q: seq<Step>, sub: Node)
    requires ValidPath(n, p + q)
    ensures ValidPath(n, p) && ValidPath(At(n, p), q)
    ensures var r := ReplaceAt(n, p + q, sub);
      ValidPath(r, p) && At(r, p) == ReplaceAt(At(n, p), q, sub)
    decreases |p|
  {
    if p == [] {
      assert p + q == q;
    } else {
      assert (p + q)[0] == p[0] && (p + q)[1..] == p[1..] + q;
      var ks := Kids(n, p[0].inShadow);
      var j := p[0].index;
      ReplaceAtPrefix(ks[j], p[1..], q, sub);
      var r := ReplaceAt(n, p + q, sub);
      assert Kids(r, p[0].inShadow)[j] == ReplaceAt(ks[j], p[1..] + q, sub);
      assert At(n, p) == At(ks[j], p[1..]);
    }
  }
}
