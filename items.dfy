/** The record the extractor produces, and its one-line rendering. */
module Items {

  /** One checklist entry: the label of a link and the link's URL. */
  datatype ToCheckItem = ToCheckItem(text: string, link: string)

  const Separator: string := " - "

  /** `Display for ToCheckItem`: the label, a spaced hyphen, then the URL. */
  function Display(item: ToCheckItem): (r: string)
    ensures |r| == |item.text| + |Separator| + |item.link|
    ensures r[..|item.text|] == item.text
    ensures r[|item.text|..|item.text| + |Separator|] == Separator
    ensures r[|item.text| + |Separator|..] == item.link
  {
    item.text + Separator + item.link
  }

  /** Knowing where the label ends, the rendered line gives the record back:
      a line and a label length determine the record. */
  lemma DisplayDeterminedByTextLength(x: ToCheckItem, y: ToCheckItem)
    requires Display(x) == Display(y)
    requires |x.text| == |y.text|
    ensures x == y
  {
    var s := Display(x);
    assert x.text == s[..|x.text|] == y.text;
    assert x.link == s[|x.text| + |Separator|..] == y.link;
  }

  /** The rendering alone does not: a label or URL that itself contains the
      separator makes two different records print the same line. */
  lemma DisplayNotInjective()
    ensures ToCheckItem("a - b", "c") != ToCheckItem("a", "b - c")
    ensures Display(ToCheckItem("a - b", "c")) == Display(ToCheckItem("a", "b - c"))
  {
    assert "a - b" != "a" by { assert |"a - b"| != |"a"|; }
    assert Display(ToCheckItem("a - b", "c")) == "a - b - c";
    assert Display(ToCheckItem("a", "b - c")) == "a - b - c";
  }

  /** The two records of the repository's example, printed. */
  lemma ExampleLines()
    ensures Display(ToCheckItem("Link text", "http://link.com")) == "Link text - http://link.com"
    ensures Display(ToCheckItem("Link2 text", "http://link2.com")) == "Link2 text - http://link2.com"
  {
  }
}
