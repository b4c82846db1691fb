/** The tree walk of the autolinker (`traverse` and the end of `addLink`):
    it copies the highlighted code tree and, following the linked spans
    sorted by start, wraps the text of each span in a link to its reference
    page. The document under construction is a zipper: the finished
    children of the output root, and the chain of elements still open
    below it, innermost last. The innermost open element is the one text
    is appended to (`ctx.parent`); with none open, it is the root. */
module Relinker {
  import opened Wrappers
  import opened Strings
  import LinkMatcher

  type LinkEntry = LinkMatcher.LinkEntry

  /** A node of the highlighted tree. */
  datatype DomNode =
    | Text(text: string)
    | Element(name: string, attrs: seq<(string, string)>, children: seq<DomNode>)
    | Other(nodeType: nat)

  /** An output element: a shallow copy of an input element, or a link. */
  datatype Tag = Copy(name: string, attrs: seq<(string, string)>) | Anchor(href: string, target: string)

  datatype OutNode = OText(text: string) | OElem(tag: Tag, children: seq<OutNode>)

  /** An element that is still open, with the children it has so far. */
  datatype Frame = Frame(tag: Tag, children: seq<OutNode>)

  /** The walk's context: `currentIndex`, the links not yet closed, and the
      document so far. */
  datatype State = State(index: int, links: seq<LinkEntry>, done: seq<OutNode>, open: seq<Frame>)

  const LinkPrefix := "https://zh.cppreference.com/w/"
  const LinkTarget := "_blank"
  const RootError := "Unexpected back-traced to root element"
  const AnchorError := "<a> is not allowed"

  function UnrecognizedError(nodeType: nat): string {
    "Unrecognized node type: " + NatToString(nodeType)
  }

  /** The link element for a reference page. */
  function LinkTag(link: string): (r: Tag)
    ensures r.Anchor? && r.href == LinkPrefix + link && r.target == LinkTarget
  {
    Anchor(LinkPrefix + link, LinkTarget)
  }

  /** `tagName.toLowerCase() === "a"`. */
  predicate IsAnchorName(name: string) {
    name == "a" || name == "A"
  }

  predicate IsA(tag: Tag) {
    match tag
    case Anchor(_, _) => true
    case Copy(name, _) => IsAnchorName(name)
  }

  function Min(a: int, b: int): int {
    if a < b then a else b
  }

  // ---------------------------------------------------------------------
  // Text in document order

  function DomText(n: DomNode): string {
    match n
    case Text(t) => t
    case Element(_, _, kids) => DomTexts(kids)
    case Other(_) => ""
  }

  function DomTexts(ns: seq<DomNode>): string {
    if |ns| == 0 then "" else DomText(ns[0]) + DomTexts(ns[1..])
  }

  function TextOf(n: OutNode): string {
    match n
    case OText(t) => t
    case OElem(_, kids) => Texts(kids)
  }

  function Texts(ns: seq<OutNode>): string {
    if |ns| == 0 then "" else TextOf(ns[0]) + Texts(ns[1..])
  }

  lemma {:induction false} TextsAppend(a: seq<OutNode>, b: seq<OutNode>)
    ensures Texts(a + b) == Texts(a) + Texts(b)
  {
    if |a| > 0 {
      assert (a + b)[1..] == a[1..] + b;
      TextsAppend(a[1..], b);
    } else {
      assert a + b == b;
    }
  }

  lemma TextsOne(n: OutNode)
    ensures Texts([n]) == TextOf(n)
  {
    assert [n][1..] == [];
  }

  /** The text of the open elements, outermost first. */
  function FramesText(fs: seq<Frame>): string {
    if |fs| == 0 then "" else FramesText(fs[..|fs| - 1]) + Texts(fs[|fs| - 1].children)
  }

  lemma FramesTextSnoc(init: seq<Frame>, f: Frame)
    ensures FramesText(init + [f]) == FramesText(init) + Texts(f.children)
  {
    assert (init + [f])[..|init|] == init;
  }

  /** The text of the document so far; an open element is the last child of
      the one below it, so its text comes last. */
  function Flat(st: State): string {
    Texts(st.done) + FramesText(st.open)
  }

  /** The tags of the open elements, outermost first. */
  function Tags(fs: seq<Frame>): (r: seq<Tag>)
    ensures |r| == |fs|
  {
    if |fs| == 0 then [] else Tags(fs[..|fs| - 1]) + [fs[|fs| - 1].tag]
  }

  /** The number of tags that are not links. */
  function NonA(tags: seq<Tag>): (r: nat)
    ensures r <= |tags|
  {
    if |tags| == 0 then 0 else NonA(tags[..|tags| - 1]) + (if IsA(tags[|tags| - 1]) then 0 else 1)
  }

  lemma {:induction false} NonAAppend(a: seq<Tag>, b: seq<Tag>)
    ensures NonA(a + b) == NonA(a) + NonA(b)
    decreases |b|
  {
    if |b| == 0 {
      assert a + b == a;
    } else {
      assert (a + b)[..|a + b| - 1] == a + b[..|b| - 1];
      NonAAppend(a, b[..|b| - 1]);
    }
  }

  lemma NonANone(tags: seq<Tag>)
    requires forall k :: 0 <= k < |tags| ==> !IsA(tags[k])
    ensures NonA(tags) == |tags|
  {
    if |tags| > 0 {
      NonANone(tags[..|tags| - 1]);
    }
  }

  // ---------------------------------------------------------------------
  // Operations on the document under construction

  /** `ctx.parent.append(n)`. */
  function Append(st: State, n: OutNode): (r: State)
    ensures r.index == st.index && r.links == st.links && Tags(r.open) == Tags(st.open)
    ensures Flat(r) == Flat(st) + TextOf(n)
  {
    TextsOne(n);
    if |st.open| == 0 then
      TextsAppend(st.done, [n]);
      st.(done := st.done + [n])
    else
      var init, f := st.open[..|st.open| - 1], st.open[|st.open| - 1];
      TextsAppend(f.children, [n]);
      FramesTextSnoc(init, Frame(f.tag, f.children + [n]));
      st.(open := init + [Frame(f.tag, f.children + [n])])
  }

  /** Append a new element holding `kids` and make it the parent. */
  function Push(st: State, tag: Tag, kids: seq<OutNode>): (r: State)
    ensures r.index == st.index && r.links == st.links && r.done == st.done
    ensures r.open == st.open + [Frame(tag, kids)] && Tags(r.open) == Tags(st.open) + [tag]
    ensures Flat(r) == Flat(st) + Texts(kids)
    ensures NonA(Tags(r.open)) == NonA(Tags(st.open)) + (if IsA(tag) then 0 else 1)
  {
    FramesTextSnoc(st.open, Frame(tag, kids));
    NonAAppend(Tags(st.open), [tag]);
    assert [tag][..0] == [];
    st.(open := st.open + [Frame(tag, kids)])
  }

  /** `ctx.parent = ctx.parent.parentElement`: the innermost open element
      is finished, as the last child of the one below it. */
  function Pop(st: State): (r: State)
    requires |st.open| > 0
    ensures r.index == st.index && r.links == st.links
    ensures Tags(r.open) == Tags(st.open)[..|st.open| - 1]
    ensures Flat(r) == Flat(st)
    ensures NonA(Tags(r.open)) + 1 >= NonA(Tags(st.open))
  {
    var init, f := st.open[..|st.open| - 1], st.open[|st.open| - 1];
    Append(st.(open := init), OElem(f.tag, f.children))
  }

  /** The innermost open link, if any. */
  function LastAnchor(tags: seq<Tag>): (r: Option<nat>)
    ensures r.Some? ==> r.value < |tags| && IsA(tags[r.value])
    ensures r.Some? ==> forall k :: r.value < k < |tags| ==> !IsA(tags[k])
    ensures r.None? ==> forall k :: 0 <= k < |tags| ==> !IsA(tags[k])
  {
    if |tags| == 0 then None
    else if IsA(tags[|tags| - 1]) then Some(|tags| - 1)
    else LastAnchor(tags[..|tags| - 1])
  }

  /** Finish open elements until only the first `j` remain. */
  function CloseTo(st: State, j: nat): (r: State)
    requires j <= |st.open|
    ensures r.index == st.index && r.links == st.links && Flat(r) == Flat(st)
    ensures Tags(r.open) == Tags(st.open)[..j]
    decreases |st.open|
  {
    if |st.open| == j then st
    else
      var r := CloseTo(Pop(st), j);
      PrefixPrefix(Tags(st.open), |st.open| - 1, j);
      r
  }

  /** Open an empty copy of each element of `tags`, outermost first. */
  function Reopen(st: State, tags: seq<Tag>): (r: State)
    ensures r.index == st.index && r.links == st.links && Flat(r) == Flat(st)
    ensures Tags(r.open) == Tags(st.open) + tags
    decreases |tags|
  {
    if |tags| == 0 then st
    else
      var r := Reopen(Push(st, tags[0], []), tags[1..]);
      HeadTail(tags);
      Reassociate(Tags(st.open), [tags[0]], tags[1..]);
      r
  }

  /** The end of a link: climb to the innermost open link, finish it and
      everything inside it, and reopen empty copies of the elements it
      interrupted. Without an open link the climb reaches the root. (The
      root copies the code element, which the walk has checked is not a
      link.) */
  function Climb(st: State): (r: Result<State>)
    ensures r.Ok? <==> LastAnchor(Tags(st.open)).Some?
    ensures r.Err? ==> r.error == RootError
    ensures r.Ok? ==> r.value.index == st.index && r.value.links == st.links && Flat(r.value) == Flat(st)
    ensures r.Ok? ==> var j := LastAnchor(Tags(st.open)).value;
                      Tags(r.value.open) == Tags(st.open)[..j] + Tags(st.open)[j + 1..]
  {
    match LastAnchor(Tags(st.open))
    case None => Err(RootError)
    case Some(j) => Ok(Reopen(CloseTo(st, j), Tags(st.open)[j + 1..]))
  }

  /** Climbing neither adds nor removes open elements that are not links. */
  lemma ClimbNonA(st: State)
    requires Climb(st).Ok?
    ensures NonA(Tags(Climb(st).value.open)) == NonA(Tags(st.open))
  {
    var t := Tags(st.open);
    var j := LastAnchor(t).value;
    CutAround(t, j);
    NonADropLink(t[..j], t[j], t[j + 1..]);
  }

  lemma NonADropLink(a: seq<Tag>, x: Tag, c: seq<Tag>)
    requires IsA(x)
    ensures NonA(a + [x] + c) == NonA(a + c)
  {
    NonAAppend(a + [x], c);
    NonAAppend(a, [x]);
    NonAAppend(a, c);
    assert [x][..0] == [];
  }

  // ---------------------------------------------------------------------
  // The walk

  /** Every link starts no later than it ends. */
  predicate LinksOk(links: seq<LinkEntry>) {
    forall i :: 0 <= i < |links| ==> links[i].begin <= links[i].end
  }

  /** The children of a link element set to the escaped text: none for
      empty text, one text node otherwise. */
  function LinkKids(text: string): (r: seq<OutNode>)
    ensures Texts(r) == text
  {
    if text == "" then [] else TextsOne(OText(text)); [OText(text)]
  }

  /** The index moved on by `n`. */
  function MoveIndex(st: State, n: int): (r: State)
    ensures r.index == st.index + n && r.links == st.links && r.done == st.done && r.open == st.open
  {
    st.(index := st.index + n)
  }

  /** `ctx.links.shift()`. */
  function DropLink(st: State): (r: State)
    requires |st.links| > 0
    ensures r.index == st.index && r.links == st.links[1..] && r.done == st.done && r.open == st.open
  {
    st.(links := st.links[1..])
  }

  /** The end of the pending link falls in this text node, `e` characters
      from its start (lines 32-56): the text up to there ends the link, and
      the index moves to the link's end. */
  function EndLink(text: string, st: State, e: int): (r: Result<State>)
    requires |st.links| > 0
    ensures r.Ok? ==> Flat(r.value) == Flat(st) + Substring(text, 0, e)
    ensures r.Ok? ==> r.value.links == st.links[1..] && r.value.index == st.index + e
    ensures r.Ok? ==> NonA(Tags(r.value.open)) == NonA(Tags(st.open))
    ensures r.Err? ==> r.error == RootError
  {
    var ended := Append(st, OText(Substring(text, 0, e)));
    match Climb(ended)
    case Err(m) => Err(m)
    case Ok(climbed) =>
      ClimbNonA(ended);
      Ok(MoveIndex(DropLink(climbed), e))
  }

  /** The text before the start of the link, `b` characters into the node,
      copied when there is any. */
  function CopyBefore(text: string, st: State, b: nat): (r: State)
    ensures Flat(r) == Flat(st) + Substring(text, 0, b)
    ensures r.index == st.index && r.links == st.links && Tags(r.open) == Tags(st.open)
  {
    var before := Substring(text, 0, b);
    if before != "" then Append(st, OText(before))
    else
      assert Flat(st) + before == Flat(st);
      st
  }

  /** The pending link starts in this text node, `b` characters from its
      start, and ends `e` characters from it (lines 57-73): the text before
      it is copied, and the text inside it goes into a new link element,
      which stays open when the link runs past the node. */
  function OpenLink(text: string, st: State, b: nat, e: int): (r: State)
    requires |st.links| > 0 && b <= e && b < |text|
    ensures Flat(r) == Flat(st) + Substring(text, 0, Min(e, |text|))
    ensures r.links == (if e <= |text| then st.links[1..] else st.links) && r.index == st.index
    ensures NonA(Tags(r.open)) == NonA(Tags(st.open))
  {
    var s := CopyBefore(text, st, b);
    var kids := LinkKids(Substring(text, b, e));
    SubstringJoin(text, b, e);
    Reassociate(Flat(st), Substring(text, 0, b), Substring(text, b, e));
    PlaceLink(s, st.links[0].link, kids, e > |text|)
  }

  /** The new link element holding `kids` appended; it becomes the parent
      while the link is still running, and otherwise the link is done. */
  function PlaceLink(st: State, link: string, kids: seq<OutNode>, running: bool): (r: State)
    requires |st.links| > 0
    ensures Flat(r) == Flat(st) + Texts(kids)
    ensures r.links == (if running then st.links else st.links[1..]) && r.index == st.index
    ensures NonA(Tags(r.open)) == NonA(Tags(st.open))
  {
    if running then Push(st, LinkTag(link), kids)
    else DropLink(Append(st, OElem(LinkTag(link), kids)))
  }

  /** `firstBegin` and `firstEnd` (lines 22-24): where the pending link
      starts and ends, counted from the start of the current node. */
  function Begin(st: State): int
    requires |st.links| > 0
  {
    st.links[0].begin - st.index
  }

  function End(st: State): int
    requires |st.links| > 0
  {
    st.links[0].end - st.index
  }

  /** One visit of a text node while a link is pending (lines 30-74): when
      the link starts past the node, or started earlier and ends past it,
      the node is copied whole; a link that started earlier and ends here
      is ended; a link that starts here is opened. */
  function TextStep(text: string, st: State): (r: Result<State>)
    requires |st.links| > 0 && Begin(st) <= End(st)
    ensures r.Ok? ==> Flat(r.value) == Flat(st) + Substring(text, 0, Min(End(st), |text|))
    ensures r.Ok? ==> r.value.links == if Begin(st) < |text| && End(st) <= |text| then st.links[1..] else st.links
    ensures r.Ok? ==> r.value.index == st.index + Min(End(st), |text|)
    ensures r.Ok? ==> NonA(Tags(r.value.open)) == NonA(Tags(st.open))
    ensures r.Err? ==> r.error == RootError
  {
    if Begin(st) >= |text| || (Begin(st) < 0 && End(st) > |text|) then
      assert Substring(text, 0, |text|) == text;
      Ok(MoveIndex(Append(st, OText(text)), |text|))
    else if Begin(st) < 0 then EndLink(text, st, End(st))
    else Ok(MoveIndex(OpenLink(text, st, Begin(st), End(st)), Min(End(st), |text|)))
  }

  lemma LinksOkTail(links: seq<LinkEntry>)
    requires LinksOk(links) && |links| > 0
    ensures LinksOk(links[1..])
  {
  }

  /** A text node (lines 25-78). */
  function TraverseText(text: string, st: State): (r: Result<State>)
    requires LinksOk(st.links)
    ensures r.Ok? ==> Flat(r.value) == Flat(st) + text
    ensures r.Ok? ==> LinksOk(r.value.links) && NonA(Tags(r.value.open)) >= NonA(Tags(st.open))
    decreases |st.links|
  {
    if |st.links| == 0 then
      Ok(MoveIndex(Append(st, OText(text)), |text|))
    else
      LinksOkTail(st.links);
      match TextStep(text, st)
      case Err(m) => Err(m)
      case Ok(next) =>
        if End(st) < |text| then
          SubstringSplit(text, End(st));
          Reassociate(Flat(st), Substring(text, 0, End(st)), Substring(text, End(st), |text|));
          TraverseText(Substring(text, End(st), |text|), next)
        else
          assert Substring(text, 0, |text|) == text;
          Ok(next)
  }

  /** Any node (`traverse`). */
  function TraverseNode(n: DomNode, st: State): (r: Result<State>)
    requires LinksOk(st.links)
    ensures r.Ok? ==> Flat(r.value) == Flat(st) + DomText(n)
    ensures r.Ok? ==> LinksOk(r.value.links) && NonA(Tags(r.value.open)) >= NonA(Tags(st.open))
  {
    match n
    case Text(t) => TraverseText(t, st)
    case Element(name, attrs, kids) =>
      if IsAnchorName(name) then Err(AnchorError)
      else
        var pushed := Push(st, Copy(name, attrs), []);
        assert Flat(pushed) == Flat(st);
        (match TraverseNodes(kids, pushed)
         case Err(m) => Err(m)
         case Ok(inner) => Ok(Pop(inner)))
    case Other(t) => Err(UnrecognizedError(t))
  }

  /** The children of an element, in order. */
  function TraverseNodes(ns: seq<DomNode>, st: State): (r: Result<State>)
    requires LinksOk(st.links)
    ensures r.Ok? ==> Flat(r.value) == Flat(st) + DomTexts(ns)
    ensures r.Ok? ==> LinksOk(r.value.links) && NonA(Tags(r.value.open)) >= NonA(Tags(st.open))
  {
    if |ns| == 0 then Ok(st)
    else
      match TraverseNode(ns[0], st)
      case Err(m) => Err(m)
      case Ok(first) =>
        Reassociate(Flat(st), DomText(ns[0]), DomTexts(ns[1..]));
        TraverseNodes(ns[1..], first)
  }

  /** Finish every open element: the children of the output root. */
  function CloseAll(st: State): (r: seq<OutNode>)
    ensures Texts(r) == Flat(st)
    decreases |st.open|
  {
    if |st.open| == 0 then st.done else CloseAll(Pop(st))
  }

  /** The end of `addLink`: a shallow copy of the code element as root, and
      the walk from the code element itself, so that the root holds a
      second copy of it. */
  function Relink(code: DomNode, links: seq<LinkEntry>): (r: Result<OutNode>)
    requires code.Element? && LinksOk(links)
    ensures r.Ok? ==> TextOf(r.value) == DomText(code)
  {
    var st :- TraverseNode(code, State(0, links, [], []));
    Ok(OElem(Copy(code.name, code.attrs), CloseAll(st)))
  }

  /** `addLink`: find the links of the code, then walk the element. */
  function AddLink(ele: DomNode, code: string, index: seq<LinkMatcher.IndexEntry>): (r: Result<OutNode>)
    requires ele.Element?
    ensures r.Ok? ==> TextOf(r.value) == DomText(ele)
  {
    LinkMatcher.FindLinksWidths(code, index);
    Relink(ele, LinkMatcher.FindLinks(code, index))
  }

  // ---------------------------------------------------------------------
  // Without links the walk copies the tree

  /** A tree the walk accepts: no `<a>` element and nothing but elements
      and text. */
  predicate Plain(n: DomNode) {
    match n
    case Text(_) => true
    case Element(name, _, kids) => !IsAnchorName(name) && PlainAll(kids)
    case Other(_) => false
  }

  predicate PlainAll(ns: seq<DomNode>) {
    |ns| == 0 || (Plain(ns[0]) && PlainAll(ns[1..]))
  }

  /** The deep copy of an accepted tree: every element shallow-cloned with
      its children copied in order, every text node copied. */
  function CopyOf(n: DomNode): (r: OutNode)
    requires Plain(n)
  {
    match n
    case Text(t) => OText(t)
    case Element(name, attrs, kids) => OElem(Copy(name, attrs), CopiesOf(kids))
  }

  function CopiesOf(ns: seq<DomNode>): (r: seq<OutNode>)
    requires PlainAll(ns)
  {
    if |ns| == 0 then [] else [CopyOf(ns[0])] + CopiesOf(ns[1..])
  }

  /** `outs` appended one after the other. */
  function AppendAll(st: State, outs: seq<OutNode>): (r: State)
    ensures r.index == st.index && r.links == st.links
    decreases |outs|
  {
    if |outs| == 0 then st else AppendAll(Append(st, outs[0]), outs[1..])
  }

  lemma {:induction false} AppendAllMoved(st: State, outs: seq<OutNode>, k: int)
    ensures AppendAll(MoveIndex(st, k), outs) == MoveIndex(AppendAll(st, outs), k)
    decreases |outs|
  {
    if |outs| > 0 {
      assert Append(MoveIndex(st, k), outs[0]) == MoveIndex(Append(st, outs[0]), k);
      AppendAllMoved(Append(st, outs[0]), outs[1..], k);
    }
  }

  /** Appending below a freshly pushed element extends its children. */
  lemma {:induction false} AppendAllPushed(st: State, tag: Tag, kids: seq<OutNode>, outs: seq<OutNode>)
    ensures AppendAll(Push(st, tag, kids), outs) == Push(st, tag, kids + outs)
    decreases |outs|
  {
    if |outs| == 0 {
      assert kids + outs == kids;
    } else {
      var o := st.open + [Frame(tag, kids)];
      assert o[..|o| - 1] == st.open;
      assert Append(Push(st, tag, kids), outs[0]) == Push(st, tag, kids + [outs[0]]);
      AppendAllPushed(st, tag, kids + [outs[0]], outs[1..]);
      Reassociate(kids, [outs[0]], outs[1..]);
      HeadTail(outs);
    }
  }

  /** Closing a pushed element appends it whole. */
  lemma PopPushed(st: State, tag: Tag, kids: seq<OutNode>, k: int)
    ensures Pop(MoveIndex(Push(st, tag, kids), k)) == MoveIndex(Append(st, OElem(tag, kids)), k)
  {
    var o := st.open + [Frame(tag, kids)];
    assert o[..|o| - 1] == st.open;
  }

  /** With no links, a node is accepted exactly when it is plain, and then
      its deep copy is appended and the index moves past its text (lines
      22-31, 79-94). */
  lemma {:induction false} NoLinksNode(n: DomNode, st: State)
    requires st.links == []
    ensures TraverseNode(n, st).Ok? <==> Plain(n)
    ensures Plain(n) ==> TraverseNode(n, st) == Ok(MoveIndex(Append(st, CopyOf(n)), |DomText(n)|))
    decreases n, 1
  {
    match n
    case Text(_) =>
    case Element(name, attrs, kids) =>
      if !IsAnchorName(name) {
        var pushed := Push(st, Copy(name, attrs), []);
        NoLinksNodes(kids, pushed);
        if PlainAll(kids) {
          AppendAllMoved(pushed, CopiesOf(kids), 0);
          AppendAllPushed(st, Copy(name, attrs), [], CopiesOf(kids));
          assert [] + CopiesOf(kids) == CopiesOf(kids);
          PopPushed(st, Copy(name, attrs), CopiesOf(kids), |DomTexts(kids)|);
        }
      }
    case Other(_) =>
  }

  lemma {:induction false} NoLinksNodes(ns: seq<DomNode>, st: State)
    requires st.links == []
    ensures TraverseNodes(ns, st).Ok? <==> PlainAll(ns)
    ensures PlainAll(ns) ==> TraverseNodes(ns, st) == Ok(MoveIndex(AppendAll(st, CopiesOf(ns)), |DomTexts(ns)|))
    decreases ns, 0
  {
    if |ns| > 0 {
      NoLinksNode(ns[0], st);
      if Plain(ns[0]) {
        var first := MoveIndex(Append(st, CopyOf(ns[0])), |DomText(ns[0])|);
        TraverseNodesCons(ns, st);
        NoLinksNodes(ns[1..], first);
        if PlainAll(ns[1..]) {
          NoLinksNodesJoin(ns, st);
        }
      }
    }
  }

  lemma TraverseNodesCons(ns: seq<DomNode>, st: State)
    requires LinksOk(st.links) && |ns| > 0 && TraverseNode(ns[0], st).Ok?
    ensures TraverseNodes(ns, st) == TraverseNodes(ns[1..], TraverseNode(ns[0], st).value)
  {
  }

  /** The copies of the first node and of the rest, appended in turn, are
      the copies of all of them. */
  lemma NoLinksNodesJoin(ns: seq<DomNode>, st: State)
    requires |ns| > 0 && PlainAll(ns)
    ensures var first := MoveIndex(Append(st, CopyOf(ns[0])), |DomText(ns[0])|);
            MoveIndex(AppendAll(first, CopiesOf(ns[1..])), |DomTexts(ns[1..])|)
            == MoveIndex(AppendAll(st, CopiesOf(ns)), |DomTexts(ns)|)
  {
    var c := CopiesOf(ns[1..]);
    ConsTail(CopyOf(ns[0]), c);
    AppendAllMoved(Append(st, CopyOf(ns[0])), c, |DomText(ns[0])|);
  }

  /** With no links, `addLink` gives the root holding a deep copy of the
      code element, and fails exactly on an `<a>` element or a node that is
      neither element nor text. */
  lemma RelinkNoLinks(code: DomNode)
    requires code.Element?
    ensures Relink(code, []).Ok? <==> Plain(code)
    ensures Plain(code) ==> Relink(code, []) == Ok(OElem(Copy(code.name, code.attrs), [CopyOf(code)]))
  {
    var st0 := State(0, [], [], []);
    NoLinksNode(code, st0);
    RelinkUnfold(code, []);
    if Plain(code) {
      SoleCopy(st0, CopyOf(code), |DomText(code)|);
    }
  }

  lemma RelinkUnfold(code: DomNode, links: seq<LinkEntry>)
    requires code.Element? && LinksOk(links)
    ensures var w := TraverseNode(code, State(0, links, [], []));
            Relink(code, links) == if w.Ok? then Ok(OElem(Copy(code.name, code.attrs), CloseAll(w.value))) else Err(w.error)
  {
  }

  lemma SoleCopy(st0: State, c: OutNode, k: int)
    requires st0.done == [] && st0.open == []
    ensures CloseAll(MoveIndex(Append(st0, c), k)) == [c]
  {
    assert [] + [c] == [c];
  }

  // ---------------------------------------------------------------------
  // The index follows the text

  /** The links a walk can follow from `index`: each starts no later than
      it ends, each ends no later than the next starts, and the first has
      not ended before the index. */
  predicate Sched(index: int, links: seq<LinkEntry>) {
    LinksOk(links) && LinkMatcher.Ordered(links) && (|links| > 0 ==> index <= links[0].end)
  }

  lemma OrderedTail(links: seq<LinkEntry>)
    requires LinkMatcher.Ordered(links) && |links| > 0
    ensures LinkMatcher.Ordered(links[1..])
  {
    forall i | 0 < i < |links| - 1
      ensures links[1..][i - 1].end <= links[1..][i].begin
    {
      assert links[1..][i - 1] == links[i] && links[1..][i] == links[i + 1];
    }
  }

  /** One step moves the index by the part of the node it consumed, never
      backwards, and leaves a schedule the walk can follow. */
  lemma TextStepSched(text: string, st: State)
    requires Sched(st.index, st.links) && |st.links| > 0 && TextStep(text, st).Ok?
    ensures End(st) >= 0 && TextStep(text, st).value.index == st.index + Min(End(st), |text|)
    ensures var r := TextStep(text, st).value; Sched(r.index, r.links)
  {
    var links := st.links;
    var r := TextStep(text, st).value;
    LinksOkTail(links);
    OrderedTail(links);
    if |r.links| > 0 && r.links == links[1..] {
      assert r.links[0] == links[1];
    }
  }

  lemma TraverseTextUnfold(text: string, st: State)
    requires LinksOk(st.links) && |st.links| > 0 && TextStep(text, st).Ok?
    requires End(st) < |text|
    ensures TraverseText(text, st) == TraverseText(Substring(text, End(st), |text|), TextStep(text, st).value)
  {
  }

  lemma TraverseTextLast(text: string, st: State)
    requires LinksOk(st.links) && |st.links| > 0 && End(st) >= |text|
    ensures TraverseText(text, st) == TextStep(text, st)
  {
  }

  /** Over a schedule it can follow, a completed walk of a text node moves
      the index by exactly the node's length (lines 74-78). */
  lemma {:induction false} IndexText(text: string, st: State)
    requires Sched(st.index, st.links) && TraverseText(text, st).Ok?
    ensures var r := TraverseText(text, st).value;
            r.index == st.index + |text| && Sched(r.index, r.links)
    decreases |st.links|
  {
    if |st.links| > 0 {
      if End(st) < |text| {
        TraverseTextUnfold(text, st);
        TextStepSched(text, st);
        var next := TextStep(text, st).value;
        var rest := Substring(text, End(st), |text|);
        assert |rest| == |text| - End(st);
        IndexText(rest, next);
      } else {
        TraverseTextLast(text, st);
        TextStepSched(text, st);
      }
    }
  }

  lemma {:induction false} IndexNode(n: DomNode, st: State)
    requires Sched(st.index, st.links) && TraverseNode(n, st).Ok?
    ensures var r := TraverseNode(n, st).value;
            r.index == st.index + |DomText(n)| && Sched(r.index, r.links)
    decreases n, 1
  {
    match n
    case Text(t) => IndexText(t, st);
    case Element(name, attrs, kids) =>
      var pushed := Push(st, Copy(name, attrs), []);
      IndexNodes(kids, pushed);
    case Other(_) =>
  }

  lemma {:induction false} IndexNodes(ns: seq<DomNode>, st: State)
    requires Sched(st.index, st.links) && TraverseNodes(ns, st).Ok?
    ensures var r := TraverseNodes(ns, st).value;
            r.index == st.index + |DomTexts(ns)| && Sched(r.index, r.links)
    decreases ns, 0
  {
    if |ns| > 0 {
      IndexNode(ns[0], st);
      TraverseNodesCons(ns, st);
      IndexNodes(ns[1..], TraverseNode(ns[0], st).value);
    }
  }

  /** The spans the matcher finds form a schedule the walk can follow from
      the start of the code, so a completed walk of the code element ends
      with the index at the end of its text. */
  lemma AddLinkIndex(ele: DomNode, code: string, index: seq<LinkMatcher.IndexEntry>)
    requires ele.Element?
    requires forall i :: 0 <= i < |index| ==> LinkMatcher.GoodName(LinkMatcher.Rewrite(code, index[i]).name)
    ensures var links := LinkMatcher.FindLinks(code, index);
            var w := (LinkMatcher.FindLinksWidths(code, index); TraverseNode(ele, State(0, links, [], [])));
            w.Ok? ==> w.value.index == |DomText(ele)|
  {
    var links := LinkMatcher.FindLinks(code, index);
    LinkMatcher.FindLinksSound(code, index);
    LinkMatcher.FindLinksWidths(code, index);
    if TraverseNode(ele, State(0, links, [], [])).Ok? {
      IndexNode(ele, State(0, links, [], []));
    }
  }

  // ---------------------------------------------------------------------
  // A link inside one text node

  /** What a text node holding the whole of a link becomes: the text
      before the link if any, the link element holding exactly the linked
      text, and the text after it if any. */
  function LinkPieces(text: string, b: nat, e: nat, link: string): seq<OutNode>
    requires b <= e <= |text|
  {
    Before(text, b) + [LinkElem(link, text[b..e])] + After(text, e)
  }

  function Before(text: string, b: nat): seq<OutNode>
    requires b <= |text|
  {
    if b > 0 then [OText(text[..b])] else []
  }

  function After(text: string, e: nat): seq<OutNode>
    requires e <= |text|
  {
    if e < |text| then [OText(text[e..])] else []
  }

  function LinkElem(link: string, t: string): OutNode {
    OElem(LinkTag(link), LinkKids(t))
  }

  lemma {:induction false} AppendAllConcat(st: State, a: seq<OutNode>, b: seq<OutNode>)
    ensures AppendAll(st, a + b) == AppendAll(AppendAll(st, a), b)
    decreases |a|
  {
    if |a| == 0 {
      assert a + b == b;
    } else {
      assert (a + b)[0] == a[0] && (a + b)[1..] == a[1..] + b;
      AppendAllConcat(Append(st, a[0]), a[1..], b);
    }
  }

  lemma AppendAllOne(st: State, x: OutNode)
    ensures AppendAll(st, [x]) == Append(st, x)
  {
    assert AppendAll(Append(st, x), []) == Append(st, x);
  }

  /** The text before the link is what `CopyBefore` appends. */
  lemma CopyBeforePieces(text: string, st: State, b: nat)
    requires b < |text|
    ensures CopyBefore(text, st, b) == AppendAll(st, Before(text, b))
  {
    if b > 0 {
      AppendAllOne(st, OText(text[..b]));
    }
  }

  lemma TextStepOpen(text: string, st: State)
    requires |st.links| > 0 && 0 <= Begin(st) <= End(st) && Begin(st) < |text|
    ensures TextStep(text, st) == Ok(MoveIndex(OpenLink(text, st, Begin(st), End(st)), Min(End(st), |text|)))
  {
  }

  lemma OpenLinkWithin(text: string, st: State, b: nat, e: int)
    requires |st.links| > 0 && b <= e <= |text| && b < |text|
    ensures OpenLink(text, st, b, e) == DropLink(Append(CopyBefore(text, st, b), LinkElem(st.links[0].link, text[b..e])))
  {
    assert Substring(text, b, e) == text[b..e];
  }

  /** The step at a link that starts and ends in this node. */
  lemma TextStepWithin(text: string, st: State)
    requires |st.links| > 0 && 0 <= Begin(st) <= End(st) <= |text| && Begin(st) < |text|
    ensures TextStep(text, st)
         == Ok(MoveIndex(DropLink(AppendAll(st, Before(text, Begin(st)) + [LinkElem(st.links[0].link, text[Begin(st)..End(st)])])), End(st)))
  {
    var pre := Before(text, Begin(st));
    var elem := LinkElem(st.links[0].link, text[Begin(st)..End(st)]);
    TextStepOpen(text, st);
    OpenLinkWithin(text, st, Begin(st), End(st));
    CopyBeforePieces(text, st, Begin(st));
    AppendAllConcat(st, pre, [elem]);
    AppendAllOne(AppendAll(st, pre), elem);
  }

  /** Text that ends before the next link starts is copied as it is. */
  lemma TextBeforeLinks(text: string, st: State)
    requires LinksOk(st.links)
    requires |st.links| > 0 ==> Begin(st) >= |text|
    ensures TraverseText(text, st) == Ok(MoveIndex(Append(st, OText(text)), |text|))
  {
    if |st.links| > 0 {
      TraverseTextLast(text, st);
    }
  }

  /** A link that lies inside one text node, with the next link starting
      past the node, becomes one link element holding exactly the linked
      text, between the unchanged text before and after it (lines 57-78). */
  lemma LinkInText(text: string, st: State)
    requires LinksOk(st.links) && |st.links| > 0
    requires 0 <= Begin(st) < |text| && End(st) <= |text|
    requires |st.links| > 1 ==> st.links[1].begin - st.index >= |text|
    ensures TraverseText(text, st)
         == Ok(MoveIndex(DropLink(AppendAll(st, LinkPieces(text, Begin(st), End(st), st.links[0].link))), |text|))
  {
    var x := AppendAll(st, Before(text, Begin(st)) + [LinkElem(st.links[0].link, text[Begin(st)..End(st)])]);
    TextStepWithin(text, st);
    AppendAllConcat(st, Before(text, Begin(st)) + [LinkElem(st.links[0].link, text[Begin(st)..End(st)])], After(text, End(st)));
    if End(st) == |text| {
      TraverseTextLast(text, st);
    } else {
      LinkBeforeEnd(text, st, x);
    }
  }

  /** After the link, the rest of the node is copied as one text node. */
  lemma LinkBeforeEnd(text: string, st: State, x: State)
    requires LinksOk(st.links) && |st.links| > 0
    requires 0 <= End(st) < |text|
    requires |st.links| > 1 ==> st.links[1].begin - st.index >= |text|
    requires x.index == st.index && x.links == st.links
    requires TextStep(text, st) == Ok(MoveIndex(DropLink(x), End(st)))
    ensures TraverseText(text, st) == Ok(MoveIndex(DropLink(AppendAll(x, After(text, End(st)))), |text|))
  {
    var rest := Substring(text, End(st), |text|);
    var next := MoveIndex(DropLink(x), End(st));
    LinksOkTail(st.links);
    TraverseTextUnfold(text, st);
    assert TraverseText(text, st) == TraverseText(rest, next);
    TextBeforeLinks(rest, next);
    RestCopied(text, End(st), x);
  }

  lemma RestCopied(text: string, e: nat, x: State)
    requires e < |text| && |x.links| > 0
    ensures var rest := Substring(text, e, |text|);
            MoveIndex(Append(MoveIndex(DropLink(x), e), OText(rest)), |rest|)
            == MoveIndex(DropLink(AppendAll(x, After(text, e))), |text|)
  {
    var rest := Substring(text, e, |text|);
    SubstringFrom(text, e);
    assert After(text, e) == [OText(rest)];
    AppendAllOne(x, OText(rest));
    AppendMovedDropped(x, OText(rest), e, |rest|);
  }

  lemma AppendMovedDropped(x: State, n: OutNode, e: int, k: int)
    requires |x.links| > 0
    ensures MoveIndex(Append(MoveIndex(DropLink(x), e), n), k) == MoveIndex(DropLink(Append(x, n)), e + k)
  {
  }

  // ---------------------------------------------------------------------
  // Two walks worked through

  const CoutLink := [LinkMatcher.LinkEntry(0, 9, "io/cout")]
  const CodeTag := Copy("code", [])
  const SpanTag := Copy("span", [])

  /** A link that starts inside an element and ends after it: the link
      element stays inside the element, the climb at its end finds no open
      link, and the walk fails on reaching the root (lines 39-45, 91). */
  lemma RootErrorExample()
    ensures Relink(Element("code", [], [Element("span", [], [Text("std::")]), Text("cout")]), CoutLink)
         == Err(RootError)
  {
    var code := Element("code", [], [Element("span", [], [Text("std::")]), Text("cout")]);
    var s0 := State(0, CoutLink, [], []);
    var s1 := State(0, CoutLink, [], [Frame(CodeTag, [])]);
    assert Push(s0, CodeTag, []) == s1 by {
      assert [] + [Frame(CodeTag, [])] == [Frame(CodeTag, [])];
    }
    RootErrorKids(s1);
    assert TraverseNode(code, s0) == Err(RootError);
    RelinkUnfold(code, CoutLink);
  }

  lemma RootErrorKids(s1: State)
    requires s1 == State(0, CoutLink, [], [Frame(CodeTag, [])])
    ensures TraverseNodes([Element("span", [], [Text("std::")]), Text("cout")], s1) == Err(RootError)
  {
    var s4 := State(5, CoutLink, [], [Frame(CodeTag, []), Frame(SpanTag, [OElem(LinkTag("io/cout"), [OText("std::")])])]);
    RootErrorSpan();
    RootErrorCout(s4);
    TraverseNodesCons([Element("span", [], [Text("std::")]), Text("cout")], s1);
    assert [Element("span", [], [Text("std::")]), Text("cout")][1..] == [Text("cout")];
    assert TraverseNodes([Text("cout")], s4) == Err(RootError);
  }

  /** The span: the link opens inside it and is finished with it. */
  lemma RootErrorSpan()
    ensures TraverseNode(Element("span", [], [Text("std::")]), State(0, CoutLink, [], [Frame(CodeTag, [])]))
         == Ok(State(5, CoutLink, [], [Frame(CodeTag, []), Frame(SpanTag, [OElem(LinkTag("io/cout"), [OText("std::")])])]))
  {
    var s1 := State(0, CoutLink, [], [Frame(CodeTag, [])]);
    var s2 := State(0, CoutLink, [], [Frame(CodeTag, []), Frame(SpanTag, [])]);
    var s3 := State(5, CoutLink, [], [Frame(CodeTag, []), Frame(SpanTag, []), Frame(LinkTag("io/cout"), [OText("std::")])]);
    PushSpan(s1, s2);
    SpanChildren(s2, s3);
    PopStd(s3);
  }

  lemma PushSpan(s1: State, s2: State)
    requires s1 == State(0, CoutLink, [], [Frame(CodeTag, [])])
    requires s2 == State(0, CoutLink, [], [Frame(CodeTag, []), Frame(SpanTag, [])])
    ensures Push(s1, SpanTag, []) == s2
  {
    assert s1.open + [Frame(SpanTag, [])] == s2.open;
  }

  lemma SpanChildren(s2: State, s3: State)
    requires s2 == State(0, CoutLink, [], [Frame(CodeTag, []), Frame(SpanTag, [])])
    requires s3 == State(5, CoutLink, [], [Frame(CodeTag, []), Frame(SpanTag, []), Frame(LinkTag("io/cout"), [OText("std::")])])
    ensures TraverseNodes([Text("std::")], s2) == Ok(s3)
  {
    OpensStd(s2);
    TraverseNodesCons([Text("std::")], s2);
    assert [Text("std::")][1..] == [];
  }

  /** "std::" opens the link, which runs past it. */
  lemma OpensStd(s2: State)
    requires s2 == State(0, CoutLink, [], [Frame(CodeTag, []), Frame(SpanTag, [])])
    ensures TraverseText("std::", s2)
         == Ok(State(5, CoutLink, [], [Frame(CodeTag, []), Frame(SpanTag, []), Frame(LinkTag("io/cout"), [OText("std::")])]))
  {
    var text := "std::";
    assert Begin(s2) == 0 && End(s2) == 9;
    assert Substring(text, 0, 0) == "" && Substring(text, 0, 9) == text;
    assert OpenLink(text, s2, 0, 9) == Push(s2, LinkTag("io/cout"), [OText(text)]);
    TextStepOpen(text, s2);
    TraverseTextLast(text, s2);
    assert s2.open + [Frame(LinkTag("io/cout"), [OText(text)])]
        == [Frame(CodeTag, []), Frame(SpanTag, []), Frame(LinkTag("io/cout"), [OText(text)])];
  }

  /** The end of the span finishes the innermost open element, the link. */
  lemma PopStd(s3: State)
    requires s3 == State(5, CoutLink, [], [Frame(CodeTag, []), Frame(SpanTag, []), Frame(LinkTag("io/cout"), [OText("std::")])])
    ensures Pop(s3) == State(5, CoutLink, [], [Frame(CodeTag, []), Frame(SpanTag, [OElem(LinkTag("io/cout"), [OText("std::")])])])
  {
    var init := [Frame(CodeTag, []), Frame(SpanTag, [])];
    assert s3.open[..2] == init;
    assert init[..1] == [Frame(CodeTag, [])];
    assert [] + [OElem(LinkTag("io/cout"), [OText("std::")])] == [OElem(LinkTag("io/cout"), [OText("std::")])];
  }

  lemma TextStepEnd(text: string, st: State)
    requires |st.links| > 0 && Begin(st) < 0 && Begin(st) <= End(st) <= |text|
    ensures TextStep(text, st) == EndLink(text, st, End(st))
  {
  }

  lemma TraverseTextErr(text: string, st: State)
    requires LinksOk(st.links) && |st.links| > 0 && TextStep(text, st).Err?
    ensures TraverseText(text, st) == Err(TextStep(text, st).error)
  {
  }

  /** "cout" ends the link, but no link element is open. */
  lemma RootErrorCout(s4: State)
    requires s4 == State(5, CoutLink, [], [Frame(CodeTag, []), Frame(SpanTag, [OElem(LinkTag("io/cout"), [OText("std::")])])])
    ensures TraverseText("cout", s4) == Err(RootError)
  {
    assert Begin(s4) == -5 && End(s4) == 4;
    TextStepEnd("cout", s4);
    CoutClimbFails(s4);
    TraverseTextErr("cout", s4);
  }

  lemma CoutClimbFails(s4: State)
    requires s4 == State(5, CoutLink, [], [Frame(CodeTag, []), Frame(SpanTag, [OElem(LinkTag("io/cout"), [OText("std::")])])])
    ensures EndLink("cout", s4, 4) == Err(RootError)
  {
    var ended := Append(s4, OText(Substring("cout", 0, 4)));
    TagsTwo(s4.open);
    assert !IsA(CodeTag) && !IsA(SpanTag);
    LastAnchorNoLink(Tags(ended.open));
  }

  lemma LastAnchorNoLink(tags: seq<Tag>)
    requires forall k :: 0 <= k < |tags| ==> !IsA(tags[k])
    ensures LastAnchor(tags) == None
  {
  }

  lemma TagsTwo(fs: seq<Frame>)
    requires |fs| == 2
    ensures Tags(fs) == [fs[0].tag, fs[1].tag]
  {
    assert fs[..1][..0] == [];
  }

  const LinkA := LinkTag("io/cout")
  /** The link element of the second example once it is finished. */
  const FinishedA := OElem(LinkA, [OText("std"), OElem(SpanTag, [OText("::cout")])])

  /** A link that starts before an element and ends inside it: at its end
      the walk climbs to the open link, finishes it with the part of the
      element seen so far inside it, and reopens an empty copy of the
      element after it (lines 36-55). */
  lemma ClimbExample(t3: State)
    requires t3 == State(3, CoutLink, [], [Frame(CodeTag, []), Frame(LinkA, [OText("std")]), Frame(SpanTag, [])])
    ensures EndLink("::cout", t3, 6) == Ok(State(9, [], [], [Frame(CodeTag, [FinishedA]), Frame(SpanTag, [])]))
  {
    var e := State(3, CoutLink, [], [Frame(CodeTag, []), Frame(LinkA, [OText("std")]), Frame(SpanTag, [OText("::cout")])]);
    var c := State(3, CoutLink, [], [Frame(CodeTag, [FinishedA])]);
    var r := State(3, CoutLink, [], [Frame(CodeTag, [FinishedA]), Frame(SpanTag, [])]);
    AppendCout(t3, e);
    ClimbCout(e, c, r);
    assert CoutLink[1..] == [];
  }

  lemma AppendCout(t3: State, e: State)
    requires t3 == State(3, CoutLink, [], [Frame(CodeTag, []), Frame(LinkA, [OText("std")]), Frame(SpanTag, [])])
    requires e == State(3, CoutLink, [], [Frame(CodeTag, []), Frame(LinkA, [OText("std")]), Frame(SpanTag, [OText("::cout")])])
    ensures Append(t3, OText(Substring("::cout", 0, 6))) == e
  {
    assert Substring("::cout", 0, 6) == "::cout";
    AppendThird(t3, Frame(CodeTag, []), Frame(LinkA, [OText("std")]), SpanTag, [], OText("::cout"));
    assert [] + [OText("::cout")] == [OText("::cout")];
  }

  lemma ClimbCout(e: State, c: State, r: State)
    requires e == State(3, CoutLink, [], [Frame(CodeTag, []), Frame(LinkA, [OText("std")]), Frame(SpanTag, [OText("::cout")])])
    requires c == State(3, CoutLink, [], [Frame(CodeTag, [FinishedA])])
    requires r == State(3, CoutLink, [], [Frame(CodeTag, [FinishedA]), Frame(SpanTag, [])])
    ensures Climb(e) == Ok(r)
  {
    var t := Tags(e.open);
    TagsThree(e.open);
    LastAnchorCout(t);
    assert t[2..] == [SpanTag];
    assert Climb(e) == Ok(Reopen(CloseTo(e, 1), [SpanTag]));
    CloseCout(e, c);
    ReopenOne(c, SpanTag);
    assert c.open + [Frame(SpanTag, [])] == r.open;
  }

  lemma LastAnchorCout(t: seq<Tag>)
    requires t == [CodeTag, LinkA, SpanTag]
    ensures LastAnchor(t) == Some(1)
  {
    assert !IsA(t[2]) && IsA(t[1]);
    assert t[..2] == [CodeTag, LinkA];
  }

  lemma ReopenOne(st: State, tag: Tag)
    ensures Reopen(st, [tag]) == st.(open := st.open + [Frame(tag, [])])
  {
    assert [tag][1..] == [];
  }

  lemma CloseCout(e: State, c: State)
    requires e == State(3, CoutLink, [], [Frame(CodeTag, []), Frame(LinkA, [OText("std")]), Frame(SpanTag, [OText("::cout")])])
    requires c == State(3, CoutLink, [], [Frame(CodeTag, [FinishedA])])
    ensures CloseTo(e, 1) == c
  {
    PopThird(e, Frame(CodeTag, []), Frame(LinkA, [OText("std")]), SpanTag, [OText("::cout")]);
    var m := Pop(e);
    assert [OText("std")] + [OElem(SpanTag, [OText("::cout")])] == [OText("std"), OElem(SpanTag, [OText("::cout")])];
    assert m.open == [Frame(CodeTag, []), Frame(LinkA, [OText("std"), OElem(SpanTag, [OText("::cout")])])];
    PopSecond(m, Frame(CodeTag, []), LinkA, [OText("std"), OElem(SpanTag, [OText("::cout")])]);
    assert [] + [FinishedA] == [FinishedA];
    assert Pop(m) == c;
    assert CloseTo(e, 1) == CloseTo(m, 1);
    assert CloseTo(m, 1) == CloseTo(Pop(m), 1);
  }

  lemma AppendThird(st: State, a: Frame, b: Frame, tag: Tag, kids: seq<OutNode>, n: OutNode)
    requires st.open == [a, b, Frame(tag, kids)]
    ensures Append(st, n) == st.(open := [a, b, Frame(tag, kids + [n])])
  {
    assert st.open[..2] == [a, b];
  }

  lemma PopThird(st: State, a: Frame, b: Frame, tag: Tag, kids: seq<OutNode>)
    requires st.open == [a, b, Frame(tag, kids)]
    ensures Pop(st) == st.(open := [a, Frame(b.tag, b.children + [OElem(tag, kids)])])
  {
    assert st.open[..2] == [a, b];
    assert [a, b][..1] == [a];
  }

  lemma PopSecond(st: State, a: Frame, tag: Tag, kids: seq<OutNode>)
    requires st.open == [a, Frame(tag, kids)]
    ensures Pop(st) == st.(open := [Frame(a.tag, a.children + [OElem(tag, kids)])])
  {
    assert st.open[..1] == [a];
    assert [a][..0] == [];
  }

  lemma TagsThree(fs: seq<Frame>)
    requires |fs| == 3
    ensures Tags(fs) == [fs[0].tag, fs[1].tag, fs[2].tag]
  {
    TagsTwo(fs[..2]);
  }
}
