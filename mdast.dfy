/** The part of the Markdown syntax tree (mdast) that the checklist extractor
    looks at. The tree is produced by an external parser and is only read. */
module Mdast {

  datatype Option<+T> = None | Some(value: T)

  /** Node kinds the extractor distinguishes. Every other mdast kind
      (block quote, emphasis, code, image, ...) is an `Other`; `inner` is its
      child vector, or `None` for a literal kind that has no children.
      Heading depth and source positions are not represented. */
  datatype Node =
    | Root(children: seq<Node>)
    | Heading(children: seq<Node>)
    | List(children: seq<Node>)
    | ListItem(children: seq<Node>)
    | Paragraph(children: seq<Node>)
    | Link(url: string, children: seq<Node>)
    | Text(value: string)
    | Other(inner: Option<seq<Node>>)

  /** `Node::children()`: the child vector of a parent node, `None` for a literal. */
  function Children(n: Node): (r: Option<seq<Node>>)
    ensures r.None? <==> n.Text? || (n.Other? && n.inner.None?)
    ensures !n.Other? && r.Some? ==> r.value == n.children
    ensures n.Other? ==> r == n.inner
  {
    match n
    case Text(_) => None
    case Other(inner) => inner
    case _ => Some(n.children)
  }

  /** The child vector a parent node holds, empty for a literal node. */
  function ChildList(n: Node): (r: seq<Node>)
    ensures !n.Other? && !n.Text? ==> r == n.children
    ensures n.Other? && n.inner.Some? ==> r == n.inner.value
    ensures n.Text? || n == Other(None) ==> r == []
  {
    match Children(n)
    case Some(cs) => cs
    case None => []
  }

  /** The three container kinds the list extractor filters on at its inner stages. */
  datatype Kind = ListItemKind | ParagraphKind | LinkKind

  predicate IsKind(n: Node, k: Kind)
  {
    (k == ListItemKind && n.ListItem?) ||
    (k == ParagraphKind && n.Paragraph?) ||
    (k == LinkKind && n.Link?)
  }
}
