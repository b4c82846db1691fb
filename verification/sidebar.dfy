/** The sidebar plugin: the outline read from `sidebar.yml` is resolved into
    titled items, flattened in pre-order to give every page its previous
    and next page, and converted for the default theme. Reading files and
    parsing YAML are outside the model: reading the first `# ` heading of
    a file is a parameter `heading`, which fails when the file cannot be
    read. */
module Sidebar {
  import opened Wrappers
  import opened Strings

  // ---------------------------------------------------------------------
  // The outline

  /** An entry of the outline as the YAML parser produces it. */
  datatype RawItem =
      /** A bare link, `- /ch01/`. */
    | Str(link: string)
      /** An object with a `link` key; missing or null `children` are the
          empty list, and a missing or null `text` is `None`. */
    | Linked(link: string, text: Option<string>, children: seq<RawItem>)
      /** Any other object, such as `- /ch01/: [...]`; only its first entry
          is read. */
    | Keyed(entries: seq<Entry>)
      /** `null` (an empty list entry), of type "object" in JavaScript. */
    | Null
      /** A number or a boolean. */
    | Scalar

  /** A key of an object without `link`, with its value: a list, or null
      when `isList` is false (and `children` is then empty). */
  datatype Entry = Entry(key: string, isList: bool, children: seq<RawItem>)

  /** A resolved item; a bare link has no `children` key at all, which
      `hasChildren` records. */
  datatype Item = Item(link: string, text: string, hasChildren: bool, children: seq<Item>)

  /** JavaScript's TypeError, for `"link" in null`, for destructuring the
      first entry of an empty object and for iterating over `null`. */
  const TypeError := "TypeError"

  /** Reading a file: its first `# ` heading, `None` when it has none, or
      the error the read raises (a missing file, say). */
  type Reader = string -> Result<Option<string>>

  function InvalidLink(link: string): string {
    "Invalid link: " + link
  }

  // ---------------------------------------------------------------------
  // Titles

  /** The file a link names: a `.md` link is the file itself, a link ending
      in `/` names the `README.md` of that directory. */
  function FilePath(link: string): (r: Option<string>)
    ensures r.Some? <==> EndsWith(link, ".md") || EndsWith(link, "/")
    ensures EndsWith(link, ".md") ==> r == Some(link)
    ensures !EndsWith(link, ".md") && EndsWith(link, "/") ==> r == Some(link + "README.md")
  {
    if EndsWith(link, ".md") then Some(link)
    else if EndsWith(link, "/") then Some(link + "README.md")
    else None
  }

  predicate ValidLink(link: string) {
    EndsWith(link, ".md") || EndsWith(link, "/")
  }

  /** The link names a file and that file can be read. */
  predicate Readable(link: string, heading: Reader) {
    ValidLink(link) && heading(FilePath(link).value).Ok?
  }

  /** `#getTitle`: the heading of the file the link names, or the link
      itself when the file has no heading; a link naming no file, or a
      file that cannot be read, is an error. */
  function Title(link: string, heading: Reader): (r: Result<string>)
    ensures r.Ok? <==> Readable(link, heading)
    ensures !ValidLink(link) ==> r == Err(InvalidLink(link))
    ensures ValidLink(link) && heading(FilePath(link).value).Err? ==> r == Err(heading(FilePath(link).value).error)
    ensures r.Ok? && heading(FilePath(link).value).value.None? ==> r.value == link
  {
    match FilePath(link)
    case None => Err(InvalidLink(link))
    case Some(path) =>
      var h :- heading(path);
      Ok(h.GetOr(link))
  }

  // ---------------------------------------------------------------------
  // `#transformSidebar`

  /** One entry: `Ok(None)` when it is skipped. The title is computed before
      the children, as in the object literal. */
  function TransformItem(item: RawItem, heading: Reader): (r: Result<Option<Item>>)
    ensures r.Ok? && r.value.Some? ==> (!r.value.value.hasChildren <==> item.Str?)
    ensures r.Ok? ==> (r.value.None? <==> item.Scalar?)
    decreases item, 1
  {
    match item
    case Str(s) =>
      var t :- Title(s, heading);
      Ok(Some(Item(s, t, false, [])))
    case Linked(l, text, cs) =>
      var t :- if text.Some? then Ok(text.value) else Title(l, heading);
      var kids :- TransformList(cs, heading);
      Ok(Some(Item(l, t, true, kids)))
    case Keyed(es) =>
      if |es| == 0 then Err(TypeError)
      else
        var t :- Title(es[0].key, heading);
        if !es[0].isList then Err(TypeError)
        else
          var kids :- TransformList(es[0].children, heading);
          Ok(Some(Item(es[0].key, t, true, kids)))
    case Null => Err(TypeError)
    case Scalar => Ok(None)
  }

  /** A list of entries, in order; the first failure ends the walk. */
  function TransformList(raw: seq<RawItem>, heading: Reader): (r: Result<seq<Item>>)
    ensures r.Ok? ==> |r.value| <= |raw|
    decreases raw, 0
  {
    if |raw| == 0 then Ok([])
    else
      var first :- TransformItem(raw[0], heading);
      var rest :- TransformList(raw[1..], heading);
      Ok((if first.Some? then [first.value] else []) + rest)
  }

  /** An entry the transform accepts: every title it has to look up comes
      from a valid link to a readable file, no entry is `null`, and every
      object without `link` has a first entry whose value is a list. */
  predicate ValidItem(item: RawItem, heading: Reader) {
    match item
    case Str(s) => Readable(s, heading)
    case Linked(l, text, cs) => (text.Some? || Readable(l, heading)) && ValidList(cs, heading)
    case Keyed(es) =>
      |es| > 0 && Readable(es[0].key, heading) && es[0].isList && ValidList(es[0].children, heading)
    case Null => false
    case Scalar => true
  }

  predicate ValidList(raw: seq<RawItem>, heading: Reader) {
    forall i :: 0 <= i < |raw| ==> ValidItem(raw[i], heading)
  }

  /** The transform fails exactly on an invalid outline or an unreadable
      title file; the headings found in the files never make it fail. */
  lemma {:induction false} TransformItemOk(item: RawItem, heading: Reader)
    ensures TransformItem(item, heading).Ok? <==> ValidItem(item, heading)
    decreases item, 1
  {
    match item
    case Str(s) =>
    case Linked(l, text, cs) =>
      TransformListOk(cs, heading);
    case Keyed(es) =>
      if |es| > 0 && es[0].isList {
        TransformListOk(es[0].children, heading);
      }
    case Null =>
    case Scalar =>
  }

  lemma {:induction false} TransformListOk(raw: seq<RawItem>, heading: Reader)
    ensures TransformList(raw, heading).Ok? <==> ValidList(raw, heading)
    decreases raw, 0
  {
    if |raw| > 0 {
      TransformItemOk(raw[0], heading);
      TransformListOk(raw[1..], heading);
      assert ValidList(raw, heading) <==> ValidItem(raw[0], heading) && ValidList(raw[1..], heading) by {
        forall i | 0 < i < |raw| ensures raw[i] == raw[1..][i - 1] {}
      }
    }
  }

  /** The link an entry contributes, if it is kept. */
  function RawLink(item: RawItem): Option<string> {
    match item
    case Str(s) => Some(s)
    case Linked(l, _, _) => Some(l)
    case Keyed(es) => if |es| > 0 then Some(es[0].key) else None
    case Null => None
    case Scalar => None
  }

  function RawLinks(raw: seq<RawItem>): seq<string> {
    if |raw| == 0 then []
    else (if RawLink(raw[0]).Some? then [RawLink(raw[0]).value] else []) + RawLinks(raw[1..])
  }

  function Links(items: seq<Item>): seq<string> {
    if |items| == 0 then [] else [items[0].link] + Links(items[1..])
  }

  lemma LinksCons(x: Item, rest: seq<Item>)
    ensures Links([x] + rest) == [x.link] + Links(rest)
  {
    ConsTail(x, rest);
  }

  /** The transform keeps the entries in order: the resolved links are the
      links of the entries that are not skipped. */
  lemma {:induction false} TransformListLinks(raw: seq<RawItem>, heading: Reader)
    requires TransformList(raw, heading).Ok?
    ensures Links(TransformList(raw, heading).value) == RawLinks(raw)
  {
    if |raw| > 0 {
      var first := TransformItem(raw[0], heading).value;
      var rest := TransformList(raw[1..], heading).value;
      TransformListLinks(raw[1..], heading);
      TransformItemLink(raw[0], heading);
      if first.Some? {
        LinksCons(first.value, rest);
      } else {
        assert [] + rest == rest;
      }
    }
  }

  lemma TransformItemLink(item: RawItem, heading: Reader)
    requires TransformItem(item, heading).Ok?
    ensures var r := TransformItem(item, heading).value;
            r.Some? <==> RawLink(item).Some?
    ensures var r := TransformItem(item, heading).value;
            r.Some? ==> r.value.link == RawLink(item).value
  {
  }

  /** What each kind of entry resolves to: a given text is kept and the
      file is not consulted; otherwise the title comes from the file, or
      is the link; the children of an object are resolved in turn. */
  lemma TransformItemShape(item: RawItem, heading: Reader)
    requires TransformItem(item, heading).Ok? && !item.Scalar?
    ensures var r := TransformItem(item, heading).value.value;
            match item
            case Str(s) => r == Item(s, heading(FilePath(s).value).value.GetOr(s), false, [])
            case Linked(l, text, cs) =>
              && r.link == l
              && r.text == (if text.Some? then text.value else heading(FilePath(l).value).value.GetOr(l))
              && r.hasChildren && r.children == TransformList(cs, heading).value
            case Keyed(es) =>
              && r.link == es[0].key
              && r.text == heading(FilePath(es[0].key).value).value.GetOr(es[0].key)
              && r.hasChildren && r.children == TransformList(es[0].children, heading).value
            case _ => false
  {
  }

  // ---------------------------------------------------------------------
  // `flatten` and `#genPrevNext`

  /** The links of an outline in pre-order: an item, then everything below
      it, then its later siblings. */
  function PreOrder(items: seq<Item>): seq<string>
    decreases items
  {
    if |items| == 0 then []
    else [items[0].link] + Below(items[0]) + PreOrder(items[1..])
  }

  function Below(item: Item): seq<string>
    decreases item
  {
    if item.hasChildren then PreOrder(item.children) else []
  }

  lemma {:induction false} PreOrderSnoc(items: seq<Item>, x: Item)
    ensures PreOrder(items + [x]) == PreOrder(items) + [x.link] + Below(x)
  {
    if |items| == 0 {
      assert [x][1..] == [];
      assert items + [x] == [x];
    } else {
      assert (items + [x])[1..] == items[1..] + [x];
      PreOrderSnoc(items[1..], x);
    }
  }

  /** `flatten`, with its loop and its recursion on the children. */
  method Flatten(list: seq<Item>) returns (result: seq<string>)
    ensures result == PreOrder(list)
    decreases list
  {
    result := [];
    for i := 0 to |list|
      invariant result == PreOrder(list[..i])
    {
      var item := list[i];
      result := result + [item.link];
      if item.hasChildren {
        var below := Flatten(item.children);
        result := result + below;
      }
      assert list[..i + 1] == list[..i] + [item];
      PreOrderSnoc(list[..i], item);
    }
    assert list[..|list|] == list;
  }

  /** The neighbours of a page; `None` is `undefined`. */
  datatype Neighbours = Neighbours(prev: Option<string>, next: Option<string>)

  /** The neighbours of position `i` of the flat list. */
  function At(flat: seq<string>, i: nat): (r: Neighbours)
    requires i < |flat|
  {
    Neighbours(if i > 0 then Some(flat[i - 1]) else None,
               if i + 1 < |flat| then Some(flat[i + 1]) else None)
  }

  /** The map after the first `k` rounds of the loop; a later position of
      the same link overwrites an earlier one. */
  function PrevNextUpTo(flat: seq<string>, k: nat): (r: map<string, Neighbours>)
    requires k <= |flat|
    ensures r.Keys == set i | 0 <= i < k :: flat[i]
  {
    if k == 0 then map[]
    else
      var m := PrevNextUpTo(flat, k - 1);
      assert (set i | 0 <= i < k :: flat[i]) == (set i | 0 <= i < k - 1 :: flat[i]) + {flat[k - 1]};
      m[flat[k - 1] := At(flat, k - 1)]
  }

  /** `#genPrevNext` on the flattened outline. */
  function PrevNext(flat: seq<string>): (r: map<string, Neighbours>)
    ensures r.Keys == set i | 0 <= i < |flat| :: flat[i]
  {
    PrevNextUpTo(flat, |flat|)
  }

  /** A link's entry is written at its last position. */
  lemma {:induction false} LastWinsUpTo(flat: seq<string>, k: nat, i: nat)
    requires i < k <= |flat|
    requires forall j :: i < j < k ==> flat[j] != flat[i]
    ensures flat[i] in PrevNextUpTo(flat, k) && PrevNextUpTo(flat, k)[flat[i]] == At(flat, i)
  {
    if i < k - 1 {
      LastWinsUpTo(flat, k - 1, i);
    }
  }

  /** The neighbours recorded for a link are those of its last occurrence. */
  lemma LastWins(flat: seq<string>, i: nat)
    requires i < |flat|
    requires forall j :: i < j < |flat| ==> flat[j] != flat[i]
    ensures PrevNext(flat)[flat[i]] == At(flat, i)
  {
    LastWinsUpTo(flat, |flat|, i);
  }

  /** Without repeated links, every page gets the pages just before and just
      after it; the first has no previous page and the last no next. */
  lemma DistinctNeighbours(flat: seq<string>, i: nat)
    requires forall a, b :: 0 <= a < b < |flat| ==> flat[a] != flat[b]
    requires i < |flat|
    ensures var n := PrevNext(flat)[flat[i]];
            && (n.prev.Some? <==> i > 0) && (i > 0 ==> n.prev.value == flat[i - 1])
            && (n.next.Some? <==> i + 1 < |flat|) && (i + 1 < |flat| ==> n.next.value == flat[i + 1])
  {
    LastWins(flat, i);
  }

  // ---------------------------------------------------------------------
  // `extendsPage`

  /** The key a page path is looked up under: a trailing `.html` becomes
      `.md`. */
  function PageKey(path: string): (r: string)
    ensures !EndsWith(path, ".html") ==> r == path
  {
    if EndsWith(path, ".html") then path[..|path| - 5] + ".md" else path
  }

  /** The page of a `.md` link is found under that link. */
  lemma PageKeyOfMarkdown(link: string)
    requires EndsWith(link, ".md")
    ensures PageKey(link[..|link| - 3] + ".html") == link
  {
    var p := link[..|link| - 3] + ".html";
    assert p[|p| - 5..] == ".html";
    assert p[..|p| - 5] == link[..|link| - 3];
    assert link == link[..|link| - 3] + ".md";
  }

  /** The `prev` and `next` front matter of a page; an unknown page gets
      neither. */
  function FrontMatter(pn: map<string, Neighbours>, path: string): (r: Neighbours)
    ensures PageKey(path) !in pn ==> r == Neighbours(None, None)
    ensures PageKey(path) in pn ==> r == pn[PageKey(path)]
  {
    var key := PageKey(path);
    if key in pn then pn[key] else Neighbours(None, None)
  }

  /** A page rendered from a `.md` file of the outline gets that file's
      neighbours. */
  lemma FrontMatterOfPage(flat: seq<string>, i: nat)
    requires i < |flat| && EndsWith(flat[i], ".md")
    requires forall j :: i < j < |flat| ==> flat[j] != flat[i]
    ensures FrontMatter(PrevNext(flat), flat[i][..|flat[i]| - 3] + ".html") == At(flat, i)
  {
    PageKeyOfMarkdown(flat[i]);
    LastWins(flat, i);
  }

  // ---------------------------------------------------------------------
  // The default theme

  /** A sidebar group of the default theme; `collapsible` is false where
      the key is absent. */
  datatype Group = Group(text: string, link: string, collapsible: bool, children: seq<Group>)

  /** `itemToDefaultTheme`. The text of a resolved item is always a string,
      so the fallback to the link never applies. */
  function ToTheme(item: Item): (r: Group)
    ensures r.link == item.link && r.text == item.text && !r.collapsible
    decreases item
  {
    Group(item.text, item.link, false, if item.hasChildren then ToThemes(item.children) else [])
  }

  function ToThemes(items: seq<Item>): (r: seq<Group>)
    ensures |r| == |items|
    decreases items
  {
    if |items| == 0 then [] else [ToTheme(items[0])] + ToThemes(items[1..])
  }

  /** `forVueDefaultTheme`: the top-level groups are the collapsible ones. */
  function ForVueDefaultTheme(sidebar: seq<Item>): (r: seq<Group>)
    ensures |r| == |sidebar|
    ensures forall i :: 0 <= i < |r| ==> r[i].collapsible && r[i].link == sidebar[i].link && r[i].text == sidebar[i].text
  {
    seq(|sidebar|, i requires 0 <= i < |sidebar| => ToTheme(sidebar[i]).(collapsible := true))
  }

  predicate NoneCollapsible(groups: seq<Group>) {
    forall i :: 0 <= i < |groups| ==> !groups[i].collapsible && NoneCollapsible(groups[i].children)
  }

  function GroupLinks(groups: seq<Group>): seq<string> {
    if |groups| == 0 then []
    else [groups[0].link] + GroupLinks(groups[0].children) + GroupLinks(groups[1..])
  }

  /** The theme's groups below an item hold the same links, in the same
      order, as the outline below it, and none of them is collapsible. */
  lemma {:induction false} ToThemeBelow(item: Item)
    ensures GroupLinks(ToTheme(item).children) == Below(item)
    ensures NoneCollapsible(ToTheme(item).children)
    decreases item
  {
    if item.hasChildren {
      ToThemesLinks(item.children);
    }
  }

  lemma {:induction false} ToThemesLinks(items: seq<Item>)
    ensures GroupLinks(ToThemes(items)) == PreOrder(items)
    ensures NoneCollapsible(ToThemes(items))
    decreases items
  {
    if |items| > 0 {
      var r := ToThemes(items);
      ToThemeBelow(items[0]);
      ToThemesLinks(items[1..]);
      assert r[1..] == ToThemes(items[1..]);
      forall i | 1 <= i < |r| ensures r[i] == ToThemes(items[1..])[i - 1] {}
    }
  }

  /** Converting for the default theme keeps the outline: the same links in
      the same pre-order, collapsible exactly at the top level. */
  lemma ForVueDefaultThemeOutline(sidebar: seq<Item>)
    ensures GroupLinks(ForVueDefaultTheme(sidebar)) == PreOrder(sidebar)
    ensures forall i :: 0 <= i < |sidebar| ==> NoneCollapsible(ForVueDefaultTheme(sidebar)[i].children)
  {
    ThemeTopLevel(sidebar, ForVueDefaultTheme(sidebar));
  }

  lemma {:induction false} ThemeTopLevel(items: seq<Item>, groups: seq<Group>)
    requires |groups| == |items|
    requires forall i :: 0 <= i < |items| ==> groups[i] == ToTheme(items[i]).(collapsible := true)
    ensures GroupLinks(groups) == PreOrder(items)
    ensures forall i :: 0 <= i < |items| ==> NoneCollapsible(groups[i].children)
    decreases items
  {
    if |items| > 0 {
      ThemeTopLevel(items[1..], groups[1..]);
      ToThemeBelow(items[0]);
      forall i | 0 <= i < |items| ensures NoneCollapsible(groups[i].children) {
        ToThemeBelow(items[i]);
      }
    }
  }

  // ---------------------------------------------------------------------
  // The plugin

  /** What the constructor builds: the resolved outline and the neighbour
      map. */
  datatype Outline = Outline(sidebar: seq<Item>, pn: map<string, Neighbours>)

  /** The constructor, after the outline file has been parsed. */
  method Load(raw: seq<RawItem>, heading: Reader) returns (r: Result<Outline>)
    ensures r.Ok? <==> ValidList(raw, heading)
    ensures r.Ok? ==> Links(r.value.sidebar) == RawLinks(raw)
    ensures r.Ok? ==> r.value.pn.Keys == set i | 0 <= i < |PreOrder(r.value.sidebar)| :: PreOrder(r.value.sidebar)[i]
  {
    TransformListOk(raw, heading);
    var t := TransformList(raw, heading);
    if t.Err? {
      return Err(t.error);
    }
    TransformListLinks(raw, heading);
    var flat := Flatten(t.value);
    return Ok(Outline(t.value, PrevNext(flat)));
  }
}
