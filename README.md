# ttc-mdparser: the checklist extractor, modelled in Dafny

`ttc-mdparser` reads a Markdown document and prints the links listed under
the heading "Things to check", one `text - url` line per link. This project
models the extraction core of `src/main.rs` on an already-parsed Markdown
syntax tree (mdast) and proves what it returns.

- `mdast.dfy` (module `Mdast`): the node kinds the extractor distinguishes:
  Root, Heading, List, ListItem, Paragraph, Link, Text. Every other kind is
  `Other`, which keeps its whole child vector, or none for a literal kind.
  It also holds `Children`, the model of `Node::children()`, and
  `ChildList`, the vector the scan walks.
- `items.dfy` (module `Items`): the `ToCheckItem` record and its `Display`
  rendering `text - link`.
- `list_extract.dfy` (module `ListExtract`): `get_list_items` as it is
  written. It is a four-stage filter and flatten: `KeepKind` keeps the
  nodes of one kind (the first stage's `flat_map` over an `Option`, and the
  `filter_map` inside the later stages), `Stage` is one `flat_map` level, and
  `TextsOf` and `LinkStage` build the records. It is proved equal to a
  nested reference definition, `NestedRecords`, with one `FlatMap` per
  level; the links that survive the first three stages are likewise proved
  equal to `NestedLinks`. From that follow order, the paths each record
  comes from, and the count over the tree (`NestedCount`).
- `section.dfy` (module `Section`): `get_header_title` (`HeaderTitle`) and
  the scan loop of `parse_markdown` (`ParseMarkdown`). The loop is a
  method that keeps the `header_found` flag and the `items` slot. It is
  proved against `Expected`, which states the result without the scan:
  the records of the last List after the first "Things to check" heading,
  or nothing.

## Model

| member | source | states |
|---|---|---|
| `Items.Display` | src/main.rs:18-21 | the line is the text, then `" - "`, then the link: its length is the sum and each part sits at its place |
| `Items.DisplayDeterminedByTextLength` | src/main.rs:18-21 | two records that print the same line and have labels of the same length are equal |
| `Items.DisplayNotInjective` | src/main.rs:18-21 | the printed line alone does not determine the record: a separator inside a label or URL makes two different records print the same line |
| `Items.ExampleLines` | src/main.rs:18-21 | the example's two records print as `Link text - http://link.com` and `Link2 text - http://link2.com` |
| `Mdast.Children` | src/main.rs:57 | `Node::children()`: no child vector exactly for a Text node and for an `Other` without one; every other kind, `Other` included, gives back exactly the vector it holds |
| `Mdast.ChildList` | src/main.rs:57 | the scan walks the root's own child vector, whatever its kind, and nothing when the root is a literal node |
| `ListExtract.KeepKind` | src/main.rs:75-80 | the nodes of the requested kind, in input order and each as often as it occurs: a `FlatMap` that maps such a node to itself and any other to nothing; so a node is in the result exactly when it is in the input and of that kind |
| `ListExtract.KeepKindMultiplicity` | src/main.rs:75-80 | each node of the requested kind is kept exactly as often as it occurs, every other node zero times |
| `ListExtract.Stage` | src/main.rs:81-92 | the children of the next kind of each input node, node by node in input order and in child order within a node (a `FlatMap` over the input nodes of the kept children); so a node is yielded exactly when it is such a child of one of the input nodes |
| `ListExtract.TextsOf` | src/main.rs:93-101 | the records of one link are, in child order, one record per direct Text child, as a `FlatMap` of the children that maps a Text to its record and anything else to nothing; so there is one per Text child, each with the link's URL, and a record is produced exactly when a direct Text child carries its text |
| `ListExtract.LinkStage` | src/main.rs:93-101 | the records of each link, link by link in order (a `FlatMap` over the links of each link's records); their number is the number of direct Text children over all links, and a record is produced exactly when it is a record of one of the links |
| `ListExtract.QualifyingLinks` | src/main.rs:74-92 | the first three stages yield exactly the Links that are direct children of a Paragraph that is a direct child of a ListItem of the list, in document order |
| `ListExtract.GetListItems` | src/main.rs:74-103 | the result equals, in order, the concatenation over every ListItem, Paragraph, Link and Text of `{text: Text.value, link: Link.url}`; other kinds at each level contribute nothing |
| `ListExtract.GetListItemsSplit` | src/main.rs:74-86 | records of earlier list entries precede those of later ones |
| `ListExtract.NonItemChildIgnored` | src/main.rs:75-80 | a list child that is not a ListItem changes nothing, wherever it stands |
| `ListExtract.GetListItemsPaths` | src/main.rs:87-100 | a record is produced if and only if a ListItem, Paragraph, Link, Text path of direct children exists whose Link URL is its link and whose Text value is its text |
| `ListExtract.GetListItemsCount` | src/main.rs:81-101 | the number of records is the number of direct Text children summed over every Link in every Paragraph in every ListItem of the tree |
| `ListExtract.LinkWithoutTextYieldsNothing` | src/main.rs:93-101 | a link yields no record exactly when it has no direct Text child |
| `Section.FirstText` | src/main.rs:105-117 | the result is the value of the first Text node, or `""` when there is none |
| `Section.HeaderTitle` | src/main.rs:105-117 | the title is the value of the first direct Text child, whatever non-Text children precede it, and `""` with no direct Text child |
| `Section.TitleLooksOnlyAtDirectText` | src/main.rs:105-117 | text nested inside an inline node is not looked at: an emphasised "Things to check" heading does not match, a plain one followed by other inline nodes does |
| `Section.TargetHeadingIff` | src/main.rs:60 | a root child sets the flag exactly when it is a heading whose first direct Text child reads "Things to check" |
| `Section.FirstTarget` | src/main.rs:57-62 | the index found is a "Things to check" heading with none before it; none is found only when there is no such heading |
| `Section.LastList` | src/main.rs:63-65 | the index found is a List with no List after it; none is found only when no List is in range |
| `Section.ExpectedSnoc` | src/main.rs:57-67 | one more root child: the flag becomes set when the child is a target heading and is never cleared; a List after the heading replaces the result; any other child leaves it as it was |
| `Section.ParseMarkdown` | src/main.rs:51-72 | the scan loop returns exactly `Expected` of the root's children, and nothing when the root has no child vector |
| `Section.NoTargetHeadingYieldsNothing` | src/main.rs:54-71 | no direct child is a heading titled "Things to check": the result is empty |
| `Section.PrefixWithoutTargetIgnored` | src/main.rs:59-66 | children before the first target heading, Lists included, do not affect the result |
| `Section.LastListWins` | src/main.rs:57-69 | with a target heading before a List and no List after it, the result is that List's records, whatever headings come between and even when it has none |
| `Section.NoListAfterTargetYieldsNothing` | src/main.rs:57-71 | no List after the first target heading: the result is empty |
| `Section.NeutralBlockIgnored` | src/main.rs:59-67 | inserting a root child that is neither a target heading nor a List anywhere changes neither the flag nor the result |
| `Section.ExampleList` | src/main.rs:129-141 | the two-entry list of the repository's example yields its two records in order |
| `Section.ExampleDocument` | src/main.rs:124-145 | the repository's example document, heading, block quote, list, yields exactly the two expected records |

## Left out

- `main` (src/main.rs:24-41): argument counting, the usage message, `exit(1)` and printing. These are process and console I/O.
- `read_file` (src/main.rs:43-49): file system I/O.
- `markdown::to_mdast` and the panic of its `.unwrap()` (src/main.rs:52): the parser is an external library and is not part of this model. `ParseMarkdown` takes the parsed root node instead of the text.
- Heading depth, source positions and every mdast node kind other than the seven used. The other kinds are collapsed into `Other`, which keeps its child vector (or none) and nothing else.
- The `Debug` and `PartialEq` derives (src/main.rs:12). Datatype equality in Dafny plays the role of `PartialEq`.
- Ownership and copying (`to_string` on the text and URL). Strings are values here.
