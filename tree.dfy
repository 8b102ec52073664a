/**
 * An abstract XML element tree standing in for the parsed OLM document, with
 * the two ElementPath queries the mapping uses: `find('.//T')` and
 * `findall('.//T')`. Both search the proper descendants of an element (the
 * element itself is not a candidate) in document (pre-)order.
 */
module ElementTree {
  import opened Wrappers

  /** One XML element: its tag, attributes, leading text (`None` when the
      element has no text before its first child) and child elements. */
  datatype Element = Element(
    tag: string,
    attrs: map<string, string>,
    text: Option<string>,
    children: seq<Element>)

  /** `element.get(name)`: the attribute's value, or `None` when absent. */
  function Attr(e: Element, name: string): (r: Option<string>)
  {
    if name in e.attrs then Some(e.attrs[name]) else None
  }

  /** All proper descendants of `e`, in pre-order. */
  function Descendants(e: Element): (r: seq<Element>)
    decreases e, 1
  {
    Forest(e.children)
  }

  /** Each tree of `cs` in turn, root first, then its descendants. */
  function Forest(cs: seq<Element>): (r: seq<Element>)
    decreases cs, 0
  {
    if cs == [] then [] else [cs[0]] + Descendants(cs[0]) + Forest(cs[1..])
  }

  /** The elements of `xs` whose tag is `tag`, in their order in `xs`. */
  function Tagged(xs: seq<Element>, tag: string): (r: seq<Element>)
    ensures |r| <= |xs|
    ensures forall i :: 0 <= i < |r| ==> r[i].tag == tag
  {
    if xs == [] then []
    else (if xs[0].tag == tag then [xs[0]] else []) + Tagged(xs[1..], tag)
  }

  /** `e.findall('.//tag')`. */
  function FindAll(e: Element, tag: string): (r: seq<Element>)
  {
    Tagged(Descendants(e), tag)
  }

  /** `e.find('.//tag')`: the first match in document order, if any. */
  function Find(e: Element, tag: string): (r: Option<Element>)
    ensures r.None? <==> FindAll(e, tag) == []
    ensures r.Some? ==> r.value == FindAll(e, tag)[0] && r.value.tag == tag
  {
    var all := FindAll(e, tag);
    if all == [] then None else Some(all[0])
  }

  /** `Tagged` keeps exactly the elements with the wanted tag. */
  lemma {:induction false} TaggedMember(xs: seq<Element>, tag: string, x: Element)
    ensures x in Tagged(xs, tag) <==> x in xs && x.tag == tag
  {
    if xs != [] {
      TaggedMember(xs[1..], tag, x);
      assert xs == [xs[0]] + xs[1..];
    }
  }

  /** Selecting by tag distributes over concatenation, so matches keep
      document order. */
  lemma {:induction false} TaggedAppend(a: seq<Element>, b: seq<Element>, tag: string)
    ensures Tagged(a + b, tag) == Tagged(a, tag) + Tagged(b, tag)
  {
    if a == [] {
      assert a + b == b;
    } else {
      assert (a + b)[0] == a[0] && (a + b)[1..] == a[1..] + b;
      TaggedAppend(a[1..], b, tag);
    }
  }

  /** Every root of the forest `cs`, and every descendant of such a root, is
      in `Forest(cs)`. */
  lemma {:induction false} ForestContains(cs: seq<Element>, i: nat)
    requires i < |cs|
    ensures cs[i] in Forest(cs)
    ensures forall y :: y in Descendants(cs[i]) ==> y in Forest(cs)
    decreases cs
  {
    if i > 0 {
      ForestContains(cs[1..], i - 1);
    }
  }

  /** The descendant relation is transitive: a descendant of a descendant of
      `e` is a descendant of `e`. */
  lemma {:induction false} DescendantTransitive(e: Element, x: Element, y: Element)
    requires x in Descendants(e)
    requires y in Descendants(x)
    ensures y in Descendants(e)
    decreases e, 1
  {
    ForestTransitive(e.children, x, y);
  }

  lemma {:induction false} ForestTransitive(cs: seq<Element>, x: Element, y: Element)
    requires x in Forest(cs)
    requires y in Descendants(x)
    ensures y in Forest(cs)
    decreases cs, 0
  {
    var head, rest := [cs[0]] + Descendants(cs[0]), Forest(cs[1..]);
    assert Forest(cs) == head + rest;
    if x == cs[0] {
      ForestContains(cs, 0);
    } else if x in Descendants(cs[0]) {
      DescendantTransitive(cs[0], x, y);
      ForestContains(cs, 0);
    } else {
      assert x in rest;
      ForestTransitive(cs[1..], x, y);
    }
  }

  /** `findall` finds exactly the descendants with the tag. */
  lemma FindAllMember(e: Element, tag: string, x: Element)
    ensures x in FindAll(e, tag) <==> x in Descendants(e) && x.tag == tag
  {
    TaggedMember(Descendants(e), tag, x);
  }

  /** Nested matches are included: a match found below a match of `e` is
      itself a match of `e`. */
  lemma FindAllNested(e: Element, tag: string, x: Element, y: Element)
    requires x in FindAll(e, tag)
    requires y in FindAll(x, tag)
    ensures y in FindAll(e, tag)
  {
    FindAllMember(e, tag, x);
    FindAllMember(x, tag, y);
    DescendantTransitive(e, x, y);
    FindAllMember(e, tag, y);
  }

  /** `find` returns a descendant of `e` carrying the tag, and no element
      with the tag comes before it in document order. */
  lemma FindIsFirst(e: Element, tag: string)
    ensures Find(e, tag).Some? ==> Find(e, tag).value in Descendants(e)
    ensures forall i :: 0 <= i < |Descendants(e)| && Descendants(e)[i].tag == tag ==>
      Find(e, tag).Some? && FirstTagged(Descendants(e), tag) <= i
  {
    var ds := Descendants(e);
    if Find(e, tag).Some? {
      FindAllMember(e, tag, Find(e, tag).value);
    }
    forall i | 0 <= i < |ds| && ds[i].tag == tag
      ensures Find(e, tag).Some? && FirstTagged(ds, tag) <= i
    {
      FirstTaggedBound(ds, tag, i);
    }
  }

  /** Index of the first element of `xs` with the tag (|xs| if none). */
  function FirstTagged(xs: seq<Element>, tag: string): (k: nat)
    ensures k <= |xs|
    ensures k < |xs| ==> xs[k].tag == tag && Tagged(xs, tag) != [] && Tagged(xs, tag)[0] == xs[k]
    ensures forall i :: 0 <= i < k ==> xs[i].tag != tag
  {
    if xs == [] then 0
    else if xs[0].tag == tag then 0
    else 1 + FirstTagged(xs[1..], tag)
  }

  lemma FirstTaggedBound(xs: seq<Element>, tag: string, i: nat)
    requires i < |xs| && xs[i].tag == tag
    ensures FirstTagged(xs, tag) <= i
    ensures Tagged(xs, tag) != []
  {
  }
}
