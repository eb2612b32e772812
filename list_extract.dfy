/** `get_list_items`: the four-stage filter and flatten from a List node to
    its records, List -> ListItem -> Paragraph -> Link -> Text, together with
    a nested reference definition of the same result and the facts that
    connect the two. */
module ListExtract {
  import opened Mdast
  import opened Items

  // ---------------------------------------------------------------------
  // The pipeline, stage by stage, as the iterator chain builds it.
  // ---------------------------------------------------------------------

  /** Keeps the nodes of kind `k`, in their order: the first stage's
      `flat_map` over an `Option`, and the `filter_map` inside the later
      stages. Each node of kind `k` is kept as often as it occurs, and no
      other node is. */
  function KeepKind(cs: seq<Node>, k: Kind): (r: seq<Node>)
    ensures r == FlatMap(cs, KeepOnly(k))
    ensures forall x :: x in r <==> x in cs && IsKind(x, k)
    ensures forall i | 0 <= i < |r| :: IsKind(r[i], k)
  {
    if cs == [] then []
    else
      assert cs == [cs[0]] + cs[1..];
      (if IsKind(cs[0], k) then [cs[0]] else []) + KeepKind(cs[1..], k)
  }

  /** A `flat_map` stage: the children of kind `k` of every node of `ns`,
      which are all of kind `parent`, concatenated in order. */
  function Stage(ns: seq<Node>, parent: Kind, k: Kind): (r: seq<Node>)
    requires forall i | 0 <= i < |ns| :: IsKind(ns[i], parent)
    ensures r == FlatMap(ns, KeptChildren(k))
    ensures forall i | 0 <= i < |r| :: IsKind(r[i], k)
    ensures forall x :: x in r <==> exists i | 0 <= i < |ns| :: x in ChildList(ns[i]) && IsKind(x, k)
  {
    if ns == [] then []
    else
      assert IsKind(ns[0], parent);
      assert forall i | 0 <= i < |ns| - 1 :: ns[1..][i] == ns[i + 1];
      assert ChildList(ns[0]) == ns[0].children;
      KeepKind(ns[0].children, k) + Stage(ns[1..], parent, k)
  }

  /** The records of one link: one per direct Text child, in order, each
      carrying the link's URL. */
  function TextsOf(cs: seq<Node>, url: string): (r: seq<ToCheckItem>)
    ensures r == FlatMap(cs, TextItems(url))
    ensures |r| == CountTexts(cs)
    ensures forall i | 0 <= i < |r| :: r[i].link == url
    ensures forall x :: x in r <==>
              exists m | 0 <= m < |cs| :: cs[m].Text? && x == ToCheckItem(cs[m].value, url)
  {
    if cs == [] then []
    else
      assert forall m | 0 <= m < |cs| - 1 :: cs[1..][m] == cs[m + 1];
      (if cs[0].Text? then [ToCheckItem(cs[0].value, url)] else []) + TextsOf(cs[1..], url)
  }

  /** The last `flat_map`: the records of every link, in order. There is one
      per direct Text child of each link, and each is a record of one of the links. */
  function LinkStage(links: seq<Node>): (r: seq<ToCheckItem>)
    requires forall i | 0 <= i < |links| :: links[i].Link?
    ensures r == FlatMap(links, LinkRecords)
    ensures |r| == SumTexts(links)
    ensures forall x :: x in r <==>
              exists j | 0 <= j < |links| :: x in TextsOf(links[j].children, links[j].url)
  {
    if links == [] then []
    else
      assert forall j | 0 <= j < |links| - 1 :: links[1..][j] == links[j + 1];
      TextsOf(links[0].children, links[0].url) + LinkStage(links[1..])
  }

  /** The links that survive the first three stages: exactly the Links that
      are direct children of a Paragraph that is a direct child of a ListItem
      of the list, in document order. */
  function QualifyingLinks(l: Node): (r: seq<Node>)
    requires l.List?
    ensures forall i | 0 <= i < |r| :: r[i].Link?
    ensures r == NestedLinks(l.children)
  {
    ItemsStageLinks(l.children);
    var items := KeepKind(l.children, ListItemKind);
    var paragraphs := Stage(items, ListItemKind, ParagraphKind);
    Stage(paragraphs, ParagraphKind, LinkKind)
  }

  /** `get_list_items`: the records of the nested reference, in the same order. */
  function GetListItems(l: Node): (r: seq<ToCheckItem>)
    requires l.List?
    ensures r == NestedRecords(l.children)
  {
    ItemsStageIsNested(l.children);
    LinkStage(QualifyingLinks(l))
  }

  // ---------------------------------------------------------------------
  // Reference definition: one `FlatMap` per level of the tree.
  // ---------------------------------------------------------------------

  /** `f` applied to every element of `s`, results concatenated in order. */
  function FlatMap<T, U>(s: seq<T>, f: T -> seq<U>): seq<U>
  {
    if s == [] then [] else f(s[0]) + FlatMap(s[1..], f)
  }

  /** The sum of `f` over the elements of `s`. */
  function SumOf<T>(s: seq<T>, f: T -> nat): nat
  {
    if s == [] then 0 else f(s[0]) + SumOf(s[1..], f)
  }

  /** A node as the one-element sequence when it has kind `k`, else nothing. */
  function KeepOnly(k: Kind): Node -> seq<Node>
  {
    (x: Node) => if IsKind(x, k) then [x] else []
  }

  /** The children of kind `k` of a node. */
  function KeptChildren(k: Kind): Node -> seq<Node>
  {
    (n: Node) => FlatMap(ChildList(n), KeepOnly(k))
  }

  function LinkOnly(n: Node): seq<Node>
  {
    if n.Link? then [n] else []
  }

  function ParagraphLinks(n: Node): seq<Node>
  {
    if n.Paragraph? then FlatMap(n.children, LinkOnly) else []
  }

  function ItemLinks(n: Node): seq<Node>
  {
    if n.ListItem? then FlatMap(n.children, ParagraphLinks) else []
  }

  /** Every Link in every Paragraph in every ListItem, in document order. */
  function NestedLinks(cs: seq<Node>): seq<Node>
  {
    FlatMap(cs, ItemLinks)
  }

  /** The record of one Text child of a link with URL `url`; nothing for any other child. */
  function TextItems(url: string): Node -> seq<ToCheckItem>
  {
    (t: Node) => if t.Text? then [ToCheckItem(t.value, url)] else []
  }

  function LinkRecords(n: Node): seq<ToCheckItem>
  {
    if n.Link? then FlatMap(n.children, TextItems(n.url)) else []
  }

  function ParagraphRecords(n: Node): seq<ToCheckItem>
  {
    if n.Paragraph? then FlatMap(n.children, LinkRecords) else []
  }

  function ItemRecords(n: Node): seq<ToCheckItem>
  {
    if n.ListItem? then FlatMap(n.children, ParagraphRecords) else []
  }

  /** For every ListItem child, every Paragraph in it, every Link in that,
      every Text in that: one record, in document order. */
  function NestedRecords(cs: seq<Node>): seq<ToCheckItem>
  {
    FlatMap(cs, ItemRecords)
  }

  function LinkCount(n: Node): nat
  {
    if n.Link? then CountTexts(n.children) else 0
  }

  function ParagraphCount(n: Node): nat
  {
    if n.Paragraph? then SumOf(n.children, LinkCount) else 0
  }

  function ItemCount(n: Node): nat
  {
    if n.ListItem? then SumOf(n.children, ParagraphCount) else 0
  }

  /** Direct Text children of every Link in every Paragraph in every ListItem. */
  function NestedCount(cs: seq<Node>): nat
  {
    SumOf(cs, ItemCount)
  }

  /** A path List child i -> Paragraph j -> Link k -> Text m of the exact shape. */
  predicate IsPath(cs: seq<Node>, i: int, j: int, k: int, m: int)
  {
    0 <= i < |cs| && cs[i].ListItem? &&
    0 <= j < |cs[i].children| && cs[i].children[j].Paragraph? &&
    0 <= k < |cs[i].children[j].children| && cs[i].children[j].children[k].Link? &&
    0 <= m < |cs[i].children[j].children[k].children| &&
    cs[i].children[j].children[k].children[m].Text?
  }

  /** The record a path stands for: the Text's value and the Link's URL. */
  function PathRecord(cs: seq<Node>, i: int, j: int, k: int, m: int): ToCheckItem
    requires IsPath(cs, i, j, k, m)
  {
    var link := cs[i].children[j].children[k];
    ToCheckItem(link.children[m].value, link.url)
  }

  /** Number of direct Text children. */
  function CountTexts(cs: seq<Node>): nat
  {
    if cs == [] then 0 else (if cs[0].Text? then 1 else 0) + CountTexts(cs[1..])
  }

  /** Number of direct Text children, summed over the links. */
  function SumTexts(links: seq<Node>): nat
    requires forall i | 0 <= i < |links| :: links[i].Link?
  {
    if links == [] then 0 else CountTexts(links[0].children) + SumTexts(links[1..])
  }

  // ---------------------------------------------------------------------
  // Concatenation facts.
  // ---------------------------------------------------------------------

  lemma KeepKindAppend(a: seq<Node>, b: seq<Node>, k: Kind)
    ensures KeepKind(a + b, k) == KeepKind(a, k) + KeepKind(b, k)
  {
    FlatMapAppend(a, b, KeepOnly(k));
  }

  lemma StageAppend(a: seq<Node>, b: seq<Node>, parent: Kind, k: Kind)
    requires forall i | 0 <= i < |a| :: IsKind(a[i], parent)
    requires forall i | 0 <= i < |b| :: IsKind(b[i], parent)
    ensures Stage(a + b, parent, k) == Stage(a, parent, k) + Stage(b, parent, k)
  {
    FlatMapAppend(a, b, KeptChildren(k));
  }

  lemma LinkStageAppend(a: seq<Node>, b: seq<Node>)
    requires forall i | 0 <= i < |a| :: a[i].Link?
    requires forall i | 0 <= i < |b| :: b[i].Link?
    ensures LinkStage(a + b) == LinkStage(a) + LinkStage(b)
  {
    FlatMapAppend(a, b, LinkRecords);
  }

  lemma {:induction false} FlatMapAppend<T, U>(a: seq<T>, b: seq<T>, f: T -> seq<U>)
    ensures FlatMap(a + b, f) == FlatMap(a, f) + FlatMap(b, f)
  {
    if a != [] {
      assert (a + b)[1..] == a[1..] + b;
      FlatMapAppend(a[1..], b, f);
    } else {
      assert a + b == b;
    }
  }

  lemma {:induction false} FlatMapMember<T, U>(s: seq<T>, f: T -> seq<U>, x: U)
    ensures x in FlatMap(s, f) <==> exists i :: 0 <= i < |s| && x in f(s[i])
  {
    if s != [] {
      FlatMapMember(s[1..], f, x);
      if x in FlatMap(s[1..], f) {
        var i :| 0 <= i < |s[1..]| && x in f(s[1..][i]);
        assert x in f(s[i + 1]);
      }
      if exists i :: 0 <= i < |s| && x in f(s[i]) {
        var i :| 0 <= i < |s| && x in f(s[i]);
        if i > 0 {
          assert x in f(s[1..][i - 1]);
        }
      }
    }
  }

  lemma {:induction false} FlatMapLength<T, U>(s: seq<T>, f: T -> seq<U>, g: T -> nat)
    requires forall x :: |f(x)| == g(x)
    ensures |FlatMap(s, f)| == SumOf(s, g)
  {
    if s != [] {
      FlatMapLength(s[1..], f, g);
    }
  }

  // ---------------------------------------------------------------------
  // The pipeline equals the nested definition.
  // ---------------------------------------------------------------------

  lemma {:induction false} LinksStageIsNested(xs: seq<Node>)
    ensures LinkStage(KeepKind(xs, LinkKind)) == FlatMap(xs, LinkRecords)
  {
    if xs != [] {
      var head := if xs[0].Link? then [xs[0]] else [];
      assert xs == [xs[0]] + xs[1..];
      KeepKindAppend([xs[0]], xs[1..], LinkKind);
      assert KeepKind([xs[0]], LinkKind) == head;
      LinkStageAppend(head, KeepKind(xs[1..], LinkKind));
      LinksStageIsNested(xs[1..]);
      if xs[0].Link? {
        assert LinkStage(head) == TextsOf(xs[0].children, xs[0].url) + LinkStage([]);
      }
    }
  }

  lemma {:induction false} ParagraphsStageIsNested(ps: seq<Node>)
    ensures LinkStage(Stage(KeepKind(ps, ParagraphKind), ParagraphKind, LinkKind))
         == FlatMap(ps, ParagraphRecords)
  {
    if ps != [] {
      var head := if ps[0].Paragraph? then [ps[0]] else [];
      var tail := KeepKind(ps[1..], ParagraphKind);
      assert KeepKind(ps, ParagraphKind) == head + tail;
      StageAppend(head, tail, ParagraphKind, LinkKind);
      var sh := Stage(head, ParagraphKind, LinkKind);
      var st := Stage(tail, ParagraphKind, LinkKind);
      LinkStageAppend(sh, st);
      ParagraphsStageIsNested(ps[1..]);
      assert LinkStage(st) == FlatMap(ps[1..], ParagraphRecords);
      if ps[0].Paragraph? {
        assert sh == KeepKind(ps[0].children, LinkKind) + Stage([], ParagraphKind, LinkKind);
        assert sh == KeepKind(ps[0].children, LinkKind);
        LinksStageIsNested(ps[0].children);
        assert LinkStage(sh) == ParagraphRecords(ps[0]);
      } else {
        assert sh == [];
        assert LinkStage(sh) == [] == ParagraphRecords(ps[0]);
      }
      assert FlatMap(ps, ParagraphRecords) == ParagraphRecords(ps[0]) + FlatMap(ps[1..], ParagraphRecords);
    }
  }

  lemma {:induction false} ItemsStageIsNested(cs: seq<Node>)
    ensures LinkStage(Stage(Stage(KeepKind(cs, ListItemKind), ListItemKind, ParagraphKind),
                            ParagraphKind, LinkKind))
         == NestedRecords(cs)
  {
    if cs != [] {
      var head := if cs[0].ListItem? then [cs[0]] else [];
      var tail := KeepKind(cs[1..], ListItemKind);
      assert KeepKind(cs, ListItemKind) == head + tail;
      var ph := Stage(head, ListItemKind, ParagraphKind);
      var pt := Stage(tail, ListItemKind, ParagraphKind);
      StageAppend(head, tail, ListItemKind, ParagraphKind);
      StageAppend(ph, pt, ParagraphKind, LinkKind);
      var lh := Stage(ph, ParagraphKind, LinkKind);
      var lt := Stage(pt, ParagraphKind, LinkKind);
      LinkStageAppend(lh, lt);
      ItemsStageIsNested(cs[1..]);
      assert LinkStage(lt) == NestedRecords(cs[1..]);
      if cs[0].ListItem? {
        assert ph == KeepKind(cs[0].children, ParagraphKind) + Stage([], ListItemKind, ParagraphKind);
        assert ph == KeepKind(cs[0].children, ParagraphKind);
        ParagraphsStageIsNested(cs[0].children);
        assert LinkStage(lh) == ItemRecords(cs[0]);
      } else {
        assert ph == [] && lh == [];
        assert LinkStage(lh) == [] == ItemRecords(cs[0]);
      }
      assert NestedRecords(cs) == ItemRecords(cs[0]) + NestedRecords(cs[1..]);
    }
  }

  lemma {:induction false} LinksKeepIsNested(xs: seq<Node>)
    ensures KeepKind(xs, LinkKind) == FlatMap(xs, LinkOnly)
  {
    if xs != [] {
      LinksKeepIsNested(xs[1..]);
    }
  }

  lemma {:induction false} ParagraphsStageLinks(ps: seq<Node>)
    ensures Stage(KeepKind(ps, ParagraphKind), ParagraphKind, LinkKind) == FlatMap(ps, ParagraphLinks)
  {
    if ps != [] {
      var head := if ps[0].Paragraph? then [ps[0]] else [];
      var tail := KeepKind(ps[1..], ParagraphKind);
      assert KeepKind(ps, ParagraphKind) == head + tail;
      StageAppend(head, tail, ParagraphKind, LinkKind);
      ParagraphsStageLinks(ps[1..]);
      var sh := Stage(head, ParagraphKind, LinkKind);
      if ps[0].Paragraph? {
        assert sh == KeepKind(ps[0].children, LinkKind) + Stage([], ParagraphKind, LinkKind);
        assert sh == KeepKind(ps[0].children, LinkKind);
        LinksKeepIsNested(ps[0].children);
      } else {
        assert sh == [];
      }
      assert sh == ParagraphLinks(ps[0]);
      assert FlatMap(ps, ParagraphLinks) == ParagraphLinks(ps[0]) + FlatMap(ps[1..], ParagraphLinks);
    }
  }

  lemma {:induction false} ItemsStageLinks(cs: seq<Node>)
    ensures Stage(Stage(KeepKind(cs, ListItemKind), ListItemKind, ParagraphKind), ParagraphKind, LinkKind)
         == NestedLinks(cs)
  {
    if cs != [] {
      var head := if cs[0].ListItem? then [cs[0]] else [];
      var tail := KeepKind(cs[1..], ListItemKind);
      assert KeepKind(cs, ListItemKind) == head + tail;
      var ph := Stage(head, ListItemKind, ParagraphKind);
      var pt := Stage(tail, ListItemKind, ParagraphKind);
      StageAppend(head, tail, ListItemKind, ParagraphKind);
      StageAppend(ph, pt, ParagraphKind, LinkKind);
      ItemsStageLinks(cs[1..]);
      var lh := Stage(ph, ParagraphKind, LinkKind);
      if cs[0].ListItem? {
        assert ph == KeepKind(cs[0].children, ParagraphKind) + Stage([], ListItemKind, ParagraphKind);
        assert ph == KeepKind(cs[0].children, ParagraphKind);
        ParagraphsStageLinks(cs[0].children);
      } else {
        assert ph == [] && lh == [];
      }
      assert lh == ItemLinks(cs[0]);
      assert NestedLinks(cs) == ItemLinks(cs[0]) + NestedLinks(cs[1..]);
    }
  }

  /** Records from earlier list entries come before those of later ones. */
  lemma GetListItemsSplit(a: seq<Node>, b: seq<Node>)
    ensures GetListItems(List(a + b)) == GetListItems(List(a)) + GetListItems(List(b))
  {
    assert GetListItems(List(a + b)) == NestedRecords(a + b);
    assert GetListItems(List(a)) == NestedRecords(a);
    assert GetListItems(List(b)) == NestedRecords(b);
    FlatMapAppend(a, b, ItemRecords);
  }

  lemma {:induction false} FlatMapSkip<T, U>(a: seq<T>, x: T, b: seq<T>, f: T -> seq<U>)
    requires f(x) == []
    ensures FlatMap(a + [x] + b, f) == FlatMap(a + b, f)
  {
    if a == [] {
      assert a + [x] + b == [x] + b;
      assert ([x] + b)[1..] == b;
      assert a + b == b;
    } else {
      assert (a + [x] + b)[1..] == a[1..] + [x] + b;
      assert (a + b)[1..] == a[1..] + b;
      FlatMapSkip(a[1..], x, b, f);
    }
  }

  lemma NestedRecordsSkip(a: seq<Node>, x: Node, b: seq<Node>)
    requires !x.ListItem?
    ensures NestedRecords(a + [x] + b) == NestedRecords(a + b)
  {
    FlatMapSkip(a, x, b, ItemRecords);
  }

  /** A list child that is not a ListItem contributes nothing, wherever it stands. */
  lemma NonItemChildIgnored(a: seq<Node>, x: Node, b: seq<Node>)
    requires !x.ListItem?
    ensures GetListItems(List(a + [x] + b)) == GetListItems(List(a + b))
  {
    NestedRecordsSkip(a, x, b);
  }

  /** Exact multiplicity of the first stage: each node of kind `k` is kept as
      often as it occurs, and no other node is kept. */
  lemma {:induction false} KeepKindMultiplicity(cs: seq<Node>, k: Kind)
    ensures forall x :: multiset(KeepKind(cs, k))[x] == if IsKind(x, k) then multiset(cs)[x] else 0
  {
    if cs != [] {
      assert cs == [cs[0]] + cs[1..];
      KeepKindMultiplicity(cs[1..], k);
    }
  }

  // ---------------------------------------------------------------------
  // Which records exist, and how many.
  // ---------------------------------------------------------------------

  lemma PathOfRecord(cs: seq<Node>, r: ToCheckItem)
    requires r in NestedRecords(cs)
    ensures exists i, j, k, m :: IsPath(cs, i, j, k, m) && PathRecord(cs, i, j, k, m) == r
  {
    FlatMapMember(cs, ItemRecords, r);
    var i :| 0 <= i < |cs| && r in ItemRecords(cs[i]);
    var item := cs[i];
    FlatMapMember(item.children, ParagraphRecords, r);
    var j :| 0 <= j < |item.children| && r in ParagraphRecords(item.children[j]);
    var para := item.children[j];
    FlatMapMember(para.children, LinkRecords, r);
    var k :| 0 <= k < |para.children| && r in LinkRecords(para.children[k]);
    var link := para.children[k];
    assert r in TextsOf(link.children, link.url);
    var m :| 0 <= m < |link.children| && link.children[m].Text?
             && r == ToCheckItem(link.children[m].value, link.url);
    assert IsPath(cs, i, j, k, m) && PathRecord(cs, i, j, k, m) == r;
  }

  lemma RecordOfPath(cs: seq<Node>, i: int, j: int, k: int, m: int)
    requires IsPath(cs, i, j, k, m)
    ensures PathRecord(cs, i, j, k, m) in NestedRecords(cs)
  {
    var r := PathRecord(cs, i, j, k, m);
    var item := cs[i];
    var para := item.children[j];
    var link := para.children[k];
    assert r in TextsOf(link.children, link.url);
    assert r in LinkRecords(link);
    FlatMapMember(para.children, LinkRecords, r);
    assert r in ParagraphRecords(para);
    FlatMapMember(item.children, ParagraphRecords, r);
    assert r in ItemRecords(item);
    FlatMapMember(cs, ItemRecords, r);
  }

  /** A record is produced if and only if a ListItem -> Paragraph -> Link ->
      Text path under the list stands for it: its link is that Link's URL and
      its text that Text's value. */
  lemma GetListItemsPaths(l: Node)
    requires l.List?
    ensures forall r :: r in GetListItems(l) <==>
              exists i, j, k, m :: IsPath(l.children, i, j, k, m) && PathRecord(l.children, i, j, k, m) == r
  {
    var cs := l.children;
    assert GetListItems(l) == NestedRecords(cs);
    forall r | r in NestedRecords(cs)
      ensures exists i, j, k, m :: IsPath(cs, i, j, k, m) && PathRecord(cs, i, j, k, m) == r
    {
      PathOfRecord(cs, r);
    }
    forall i, j, k, m | IsPath(cs, i, j, k, m)
      ensures PathRecord(cs, i, j, k, m) in NestedRecords(cs)
    {
      RecordOfPath(cs, i, j, k, m);
    }
  }

  lemma ParagraphRecordsCount()
    ensures forall n: Node :: |ParagraphRecords(n)| == ParagraphCount(n)
  {
    forall n: Node | n.Link?
      ensures |LinkRecords(n)| == LinkCount(n)
    {
      assert LinkRecords(n) == TextsOf(n.children, n.url);
    }
    forall n: Node | n.Paragraph?
      ensures |ParagraphRecords(n)| == ParagraphCount(n)
    {
      FlatMapLength(n.children, LinkRecords, LinkCount);
    }
  }

  lemma ItemRecordsCount()
    ensures forall n: Node :: |ItemRecords(n)| == ItemCount(n)
  {
    ParagraphRecordsCount();
    forall n: Node | n.ListItem?
      ensures |ItemRecords(n)| == ItemCount(n)
    {
      FlatMapLength(n.children, ParagraphRecords, ParagraphCount);
    }
  }

  /** Fan-out: one record per direct Text child of every Link in every
      Paragraph in every ListItem; several paragraphs, links or text runs
      all multiply out, and a link without Text adds nothing. */
  lemma GetListItemsCount(l: Node)
    requires l.List?
    ensures |GetListItems(l)| == NestedCount(l.children)
  {
    ItemRecordsCount();
    FlatMapLength(l.children, ItemRecords, ItemCount);
  }

  /** A link yields no record exactly when it has no direct Text child
      (an image, or formatting around its label). */
  lemma {:induction false} LinkWithoutTextYieldsNothing(cs: seq<Node>, url: string)
    ensures TextsOf(cs, url) == [] <==> forall m | 0 <= m < |cs| :: !cs[m].Text?
  {
    if cs != [] {
      LinkWithoutTextYieldsNothing(cs[1..], url);
      assert forall m | 1 <= m < |cs| :: cs[m] == cs[1..][m - 1];
    }
  }
}
