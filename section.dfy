/** The section scan of `parse_markdown`: one pass over the root's direct
    children that remembers whether the "Things to check" heading has been
    seen and keeps the records of the last List seen after it. */
module Section {
  import opened Mdast
  import opened Items
  import opened ListExtract

  const TargetTitle: string := "Things to check"

  // ---------------------------------------------------------------------
  // Heading titles.
  // ---------------------------------------------------------------------

  /** `cs[i]` is a Text node and none comes before it. */
  predicate IsFirstTextAt(cs: seq<Node>, i: int)
  {
    0 <= i < |cs| && cs[i].Text? && forall j | 0 <= j < i :: !cs[j].Text?
  }

  /** The value of the first Text node of `cs`, or "" when there is none. */
  function FirstText(cs: seq<Node>): (r: string)
    ensures forall i | IsFirstTextAt(cs, i) :: r == cs[i].value
    ensures (forall j | 0 <= j < |cs| :: !cs[j].Text?) ==> r == ""
    ensures (exists i :: IsFirstTextAt(cs, i)) || forall j | 0 <= j < |cs| :: !cs[j].Text?
  {
    if cs == [] then ""
    else if cs[0].Text? then
      assert IsFirstTextAt(cs, 0);
      cs[0].value
    else
      assert forall j | 0 <= j < |cs| - 1 :: cs[1..][j] == cs[j + 1];
      assert forall i | IsFirstTextAt(cs, i) :: IsFirstTextAt(cs[1..], i - 1);
      assert forall i | IsFirstTextAt(cs[1..], i) :: IsFirstTextAt(cs, i + 1);
      FirstText(cs[1..])
  }

  /** `get_header_title`: the value of the heading's first direct Text child,
      whatever non-Text children (emphasis, inline code, ...) come before it,
      and "" when it has no direct Text child. */
  function HeaderTitle(h: Node): (r: string)
    requires h.Heading?
    ensures forall i | IsFirstTextAt(h.children, i) :: r == h.children[i].value
    ensures (forall j | 0 <= j < |h.children| :: !h.children[j].Text?) ==> r == ""
  {
    FirstText(h.children)
  }

  /** Text nested inside another inline node is not looked at: an emphasised
      title does not match, a plain title followed by other inline nodes does. */
  lemma TitleLooksOnlyAtDirectText()
    ensures !IsTargetHeading(Heading([Other(Some([Text(TargetTitle)]))]))
    ensures IsTargetHeading(Heading([Text(TargetTitle), Other(Some([Text("x")]))]))
  {
    var plain := Heading([Text(TargetTitle), Other(Some([Text("x")]))]);
    assert IsFirstTextAt(plain.children, 0);
  }

  /** The heading arm of the scan's match. */
  predicate IsTargetHeading(n: Node)
  {
    n.Heading? && HeaderTitle(n) == TargetTitle
  }

  /** A root child opens the section exactly when it is a heading whose first
      direct Text child reads "Things to check". */
  lemma TargetHeadingIff(n: Node)
    ensures IsTargetHeading(n) <==>
            n.Heading? && exists i :: IsFirstTextAt(n.children, i) && n.children[i].value == TargetTitle
  {
  }

  // ---------------------------------------------------------------------
  // What the scan returns, stated without the scan.
  // ---------------------------------------------------------------------

  /** Index of the first target heading among `cs`. */
  function FirstTarget(cs: seq<Node>): (r: Option<nat>)
    ensures r.Some? ==> r.value < |cs| && IsTargetHeading(cs[r.value])
    ensures r.Some? ==> forall j | 0 <= j < r.value :: !IsTargetHeading(cs[j])
    ensures r.None? ==> forall j | 0 <= j < |cs| :: !IsTargetHeading(cs[j])
  {
    if cs == [] then None
    else
      var init := cs[..|cs| - 1];
      assert forall j | 0 <= j < |init| :: init[j] == cs[j];
      match FirstTarget(init)
      case Some(i) => Some(i)
      case None => if IsTargetHeading(cs[|cs| - 1]) then Some(|cs| - 1) else None
  }

  /** Index of the last List among `cs[lo..]`. */
  function LastList(cs: seq<Node>, lo: nat): (r: Option<nat>)
    ensures r.Some? ==> lo <= r.value < |cs| && cs[r.value].List?
    ensures r.Some? ==> forall j | r.value < j < |cs| :: !cs[j].List?
    ensures r.None? ==> forall j | lo <= j < |cs| :: !cs[j].List?
    decreases |cs|
  {
    if |cs| <= lo then None
    else if cs[|cs| - 1].List? then Some(|cs| - 1)
    else LastList(cs[..|cs| - 1], lo)
  }

  /** The records of the last List that follows the first "Things to check"
      heading; nothing when there is no such heading or no List after it. */
  function Expected(cs: seq<Node>): seq<ToCheckItem>
  {
    match FirstTarget(cs)
    case None => []
    case Some(h) =>
      match LastList(cs, h + 1)
      case None => []
      case Some(l) => GetListItems(cs[l])
  }

  // ---------------------------------------------------------------------
  // The scan.
  // ---------------------------------------------------------------------

  lemma FirstTargetSnoc(s: seq<Node>, c: Node)
    ensures FirstTarget(s + [c]) ==
            if FirstTarget(s).Some? then FirstTarget(s)
            else if IsTargetHeading(c) then Some(|s|) else None
  {
    var t := s + [c];
    assert t[..|t| - 1] == s;
  }

  lemma LastListSnoc(s: seq<Node>, c: Node, lo: nat)
    requires lo <= |s|
    ensures LastList(s + [c], lo) == if c.List? then Some(|s|) else LastList(s, lo)
  {
    var t := s + [c];
    assert t[..|t| - 1] == s;
  }

  /** One more block: a target heading leaves the result as it is and marks
      the section found for good; a List after it replaces the result; any
      other block changes nothing. */
  lemma ExpectedSnoc(s: seq<Node>, c: Node)
    ensures FirstTarget(s + [c]).Some? == (FirstTarget(s).Some? || IsTargetHeading(c))
    ensures Expected(s + [c]) ==
            if c.List? && FirstTarget(s).Some? then GetListItems(c) else Expected(s)
  {
    var t := s + [c];
    FirstTargetSnoc(s, c);
    if FirstTarget(s).Some? {
      var h := FirstTarget(s).value;
      LastListSnoc(s, c, h + 1);
    } else if IsTargetHeading(c) {
      assert LastList(t, |s| + 1) == None;
    }
  }

  /** The scan loop of `parse_markdown`, on an already parsed root. */
  method ParseMarkdown(root: Node) returns (items: seq<ToCheckItem>)
    ensures items == Expected(ChildList(root))
  {
    var headerFound := false;
    items := [];
    match Children(root)
    case None =>
    case Some(blocks) =>
      for i := 0 to |blocks|
        invariant headerFound == FirstTarget(blocks[..i]).Some?
        invariant items == Expected(blocks[..i])
      {
        var c := blocks[i];
        assert blocks[..i + 1] == blocks[..i] + [c];
        ExpectedSnoc(blocks[..i], c);
        if c.Heading? && HeaderTitle(c) == TargetTitle {
          headerFound := true;
        } else if c.List? && headerFound {
          items := GetListItems(c);
        }
      }
      assert blocks[..|blocks|] == blocks;
  }

  // ---------------------------------------------------------------------
  // Properties of the result.
  // ---------------------------------------------------------------------

  /** No "Things to check" heading among the root's children: no records,
      whatever other headings and lists there are. */
  lemma NoTargetHeadingYieldsNothing(cs: seq<Node>)
    requires forall i | 0 <= i < |cs| :: !IsTargetHeading(cs[i])
    ensures Expected(cs) == []
  {
  }

  /** The last List after any target heading decides the result, even when
      other headings of any title come in between, and even when that list
      has no records. */
  lemma LastListWins(cs: seq<Node>, h: nat, l: nat)
    requires h < l < |cs| && IsTargetHeading(cs[h]) && cs[l].List?
    requires forall j | l < j < |cs| :: !cs[j].List?
    ensures Expected(cs) == GetListItems(cs[l])
  {
    FirstTargetAtMost(cs, h);
    LastListIs(cs, FirstTarget(cs).value + 1, l);
  }

  lemma FirstTargetAtMost(cs: seq<Node>, h: nat)
    requires h < |cs| && IsTargetHeading(cs[h])
    ensures FirstTarget(cs).Some? && FirstTarget(cs).value <= h
  {
  }

  lemma LastListIs(cs: seq<Node>, lo: nat, l: nat)
    requires lo <= l < |cs| && cs[l].List?
    requires forall j | l < j < |cs| :: !cs[j].List?
    ensures LastList(cs, lo) == Some(l)
  {
  }

  /** The first target heading with no List after it: no records. */
  lemma NoListAfterTargetYieldsNothing(cs: seq<Node>, h: nat)
    requires h < |cs| && IsTargetHeading(cs[h])
    requires forall j | 0 <= j < h :: !IsTargetHeading(cs[j])
    requires forall j | h < j < |cs| :: !cs[j].List?
    ensures Expected(cs) == []
  {
    assert FirstTarget(cs) == Some(h);
    assert LastList(cs, h + 1) == None;
  }

  /** Lists before the first target heading are ignored: a prefix without
      target heading can be dropped. */
  lemma {:induction false} PrefixWithoutTargetIgnored(a: seq<Node>, b: seq<Node>)
    requires forall i | 0 <= i < |a| :: !IsTargetHeading(a[i])
    ensures FirstTarget(a + b).Some? == FirstTarget(b).Some?
    ensures Expected(a + b) == Expected(b)
    decreases |b|
  {
    if b == [] {
      assert a + b == a;
    } else {
      var b' := b[..|b| - 1];
      var c := b[|b| - 1];
      assert b == b' + [c];
      assert a + b == (a + b') + [c];
      PrefixWithoutTargetIgnored(a, b');
      ExpectedSnoc(a + b', c);
      ExpectedSnoc(b', c);
    }
  }

  /** A block that is neither a target heading nor a List (a block quote,
      a paragraph, a heading with another title) changes nothing, wherever
      it stands. */
  lemma {:induction false} NeutralBlockIgnored(a: seq<Node>, x: Node, b: seq<Node>)
    requires !IsTargetHeading(x) && !x.List?
    ensures FirstTarget(a + [x] + b).Some? == FirstTarget(a + b).Some?
    ensures Expected(a + [x] + b) == Expected(a + b)
    decreases |b|
  {
    if b == [] {
      assert a + [x] + b == a + [x];
      assert a + b == a;
      ExpectedSnoc(a, x);
    } else {
      var b' := b[..|b| - 1];
      var c := b[|b| - 1];
      assert a + [x] + b == (a + [x] + b') + [c];
      assert a + b == (a + b') + [c];
      NeutralBlockIgnored(a, x, b');
      ExpectedSnoc(a + [x] + b', c);
      ExpectedSnoc(a + b', c);
    }
  }

  // ---------------------------------------------------------------------
  // The repository's own example.
  // ---------------------------------------------------------------------

  /** A one-link list entry `- [text](url)`. */
  function LinkEntry(text: string, url: string): Node
  {
    ListItem([Paragraph([Link(url, [Text(text)])])])
  }

  lemma LinkEntryRecords(text: string, url: string)
    ensures ItemRecords(LinkEntry(text, url)) == [ToCheckItem(text, url)]
  {
    var link := Link(url, [Text(text)]);
    assert FlatMap([Text(text)], TextItems(url)) == [ToCheckItem(text, url)] + FlatMap([], TextItems(url));
    assert FlatMap([link], LinkRecords) == LinkRecords(link) + FlatMap([], LinkRecords);
    var para := Paragraph([link]);
    assert FlatMap([para], ParagraphRecords) == ParagraphRecords(para) + FlatMap([], ParagraphRecords);
  }

  /** The list of the example: two one-link entries, read in order. */
  lemma ExampleList()
    ensures GetListItems(List([LinkEntry("Link text", "http://link.com"),
                               LinkEntry("Link2 text", "http://link2.com")]))
         == [ToCheckItem("Link text", "http://link.com"),
             ToCheckItem("Link2 text", "http://link2.com")]
  {
    var e1 := LinkEntry("Link text", "http://link.com");
    var e2 := LinkEntry("Link2 text", "http://link2.com");
    LinkEntryRecords("Link text", "http://link.com");
    LinkEntryRecords("Link2 text", "http://link2.com");
    TwoEntries(e1, e2);
  }

  lemma TwoEntries(e1: Node, e2: Node)
    ensures NestedRecords([e1, e2]) == ItemRecords(e1) + ItemRecords(e2)
  {
    assert FlatMap([e2], ItemRecords) == ItemRecords(e2) + FlatMap([], ItemRecords);
    assert FlatMap([e1, e2], ItemRecords) == ItemRecords(e1) + FlatMap([e2], ItemRecords);
  }

  /** "## Things to check", a block quote, then a two-entry list: the quote is
      skipped and both entries come out in order, one line each. */
  lemma ExampleDocument()
    ensures Expected([
              Heading([Text("Things to check")]),
              Other(Some([Paragraph([Text("Move to a correct place after review.")])])),
              List([LinkEntry("Link text", "http://link.com"),
                    LinkEntry("Link2 text", "http://link2.com")])
            ]) == [ToCheckItem("Link text", "http://link.com"),
                   ToCheckItem("Link2 text", "http://link2.com")]
  {
    var list := List([LinkEntry("Link text", "http://link.com"),
                      LinkEntry("Link2 text", "http://link2.com")]);
    var heading := Heading([Text("Things to check")]);
    var cs := [
      heading,
      Other(Some([Paragraph([Text("Move to a correct place after review.")])])),
      list
    ];
    assert IsFirstTextAt(heading.children, 0);
    LastListWins(cs, 0, 2);
    ExampleList();
  }
}
