/**
 * The already-parsed XML tree the rule reader works on, and the handful of
 * W3C DOM queries it uses: attribute lookup, text content, descendants by
 * tag name, and Java's String.trim.
 */
module Dom {

  /** An element with its tag, attributes and ordered child nodes, or a text node. */
  datatype Node =
    | Element(tag: string, attrs: map<string, string>, children: seq<Node>)
    | Text(text: string)

  ghost predicate AllElements(ns: seq<Node>) {
    forall i | 0 <= i < |ns| :: ns[i].Element?
  }

  /** Element.getAttribute: the attribute's value, or the empty string when it is absent. */
  function Attribute(e: Node, name: string): string
    requires e.Element?
  {
    if name in e.attrs then e.attrs[name] else ""
  }

  /** Node.getTextContent: the text of every descendant text node, in document order. */
  function TextContent(n: Node): string
    decreases n
  {
    match n
    case Text(s) => s
    case Element(_, _, cs) => TextContentOf(cs)
  }

  function TextContentOf(ns: seq<Node>): string
    decreases ns
  {
    if ns == [] then "" else TextContent(ns[0]) + TextContentOf(ns[1..])
  }

  /** The element nodes among ns, in order (the source's ELEMENT_NODE filter over getChildNodes). */
  function Elements(ns: seq<Node>): (es: seq<Node>)
    ensures |es| <= |ns|
    ensures AllElements(es)
  {
    if ns == [] then []
    else if ns[0].Element? then [ns[0]] + Elements(ns[1..])
    else Elements(ns[1..])
  }

  /** The filter drops no element node and adds nothing that was not there. */
  lemma {:induction false} ElementsMembers(ns: seq<Node>)
    ensures forall i | 0 <= i < |ns| :: ns[i].Element? ==> ns[i] in Elements(ns)
    ensures forall k | 0 <= k < |Elements(ns)| :: Elements(ns)[k] in ns
  {
    if ns != [] {
      ElementsMembers(ns[1..]);
      assert forall i | 1 <= i < |ns| :: ns[i] == ns[1..][i - 1];
    }
  }

  /**
   * The filter keeps the element nodes in the order they come: it distributes
   * over concatenation, keeping a single node exactly when it is an element.
   */
  lemma {:induction false} ElementsConcat(a: seq<Node>, b: seq<Node>)
    ensures Elements(a + b) == Elements(a) + Elements(b)
    ensures |a| == 1 ==> Elements(a) == if a[0].Element? then a else []
  {
    if a == [] {
      assert a + b == b;
    } else {
      var t := a[1..];
      ElementsConcat(t, b);
      assert (a + b)[1..] == t + b;
      assert (a + b)[0] == a[0];
      var head := if a[0].Element? then [a[0]] else [];
      assert Elements(a + b) == head + Elements(t + b);
      assert Elements(a) == head + Elements(t);
      ConcatAssoc(head, Elements(t), Elements(b));
      if |a| == 1 {
        assert t == [];
      }
    }
  }

  lemma ConcatAssoc(a: seq<Node>, b: seq<Node>, c: seq<Node>)
    ensures a + (b + c) == (a + b) + c
  {
  }

  /** Every node below n (n itself excluded), in document pre-order. */
  function Descendants(n: Node): seq<Node>
    decreases n
  {
    match n
    case Text(_) => []
    case Element(_, _, cs) => DescendantsIn(cs)
  }

  /** Each node of ns followed by everything below it, in order. */
  function DescendantsIn(ns: seq<Node>): seq<Node>
    decreases ns
  {
    if ns == [] then [] else [ns[0]] + Descendants(ns[0]) + DescendantsIn(ns[1..])
  }

  /** The elements of ds with the given tag, in the order they come. */
  function Tagged(ds: seq<Node>, tag: string): seq<Node> {
    if ds == [] then []
    else (if ds[0].Element? && ds[0].tag == tag then [ds[0]] else []) + Tagged(ds[1..], tag)
  }

  /** The tag filter keeps exactly the elements of ds that carry the tag. */
  lemma {:induction false} TaggedMembers(ds: seq<Node>, tag: string)
    ensures forall k | 0 <= k < |Tagged(ds, tag)| ::
      Tagged(ds, tag)[k] in ds && Tagged(ds, tag)[k].Element? && Tagged(ds, tag)[k].tag == tag
    ensures forall i | 0 <= i < |ds| :: ds[i].Element? && ds[i].tag == tag ==> ds[i] in Tagged(ds, tag)
  {
    if ds != [] {
      TaggedMembers(ds[1..], tag);
      assert forall i | 1 <= i < |ds| :: ds[i] == ds[1..][i - 1];
    }
  }

  lemma {:induction false} TaggedConcat(a: seq<Node>, b: seq<Node>, tag: string)
    ensures Tagged(a + b, tag) == Tagged(a, tag) + Tagged(b, tag)
  {
    if a == [] {
      assert a + b == b;
    } else {
      var t := a[1..];
      TaggedConcat(t, b, tag);
      assert (a + b)[1..] == t + b;
      assert (a + b)[0] == a[0];
      var head := if a[0].Element? && a[0].tag == tag then [a[0]] else [];
      assert Tagged(a + b, tag) == head + Tagged(t + b, tag);
      assert Tagged(a, tag) == head + Tagged(t, tag);
      ConcatAssoc(head, Tagged(t, tag), Tagged(b, tag));
    }
  }

  /**
   * Element.getElementsByTagName: every element below e (e itself excluded)
   * whose tag is `tag`, in document (pre-)order.
   */
  function ElementsByTag(e: Node, tag: string): (es: seq<Node>)
    ensures AllElements(es)
    ensures forall i | 0 <= i < |es| :: es[i].tag == tag
    decreases e
  {
    match e
    case Text(_) => []
    case Element(_, _, cs) => ElementsByTagIn(cs, tag)
  }

  function ElementsByTagIn(ns: seq<Node>, tag: string): (es: seq<Node>)
    ensures AllElements(es)
    ensures forall i | 0 <= i < |es| :: es[i].tag == tag
    decreases ns
  {
    if ns == [] then []
    else
      (if ns[0].Element? && ns[0].tag == tag then [ns[0]] else [])
      + ElementsByTag(ns[0], tag)
      + ElementsByTagIn(ns[1..], tag)
  }

  /**
   * getElementsByTagName is the pre-order list of descendants filtered by tag:
   * it finds exactly the descendants of e with that tag, in document order.
   */
  lemma {:induction false} ElementsByTagIsPreOrder(e: Node, tag: string)
    ensures ElementsByTag(e, tag) == Tagged(Descendants(e), tag)
    ensures forall k | 0 <= k < |ElementsByTag(e, tag)| :: ElementsByTag(e, tag)[k] in Descendants(e)
    ensures forall i | 0 <= i < |Descendants(e)| ::
      Descendants(e)[i].Element? && Descendants(e)[i].tag == tag ==> Descendants(e)[i] in ElementsByTag(e, tag)
    decreases e, 1
  {
    TaggedMembers(Descendants(e), tag);
    match e
    case Text(_) =>
    case Element(_, _, cs) => ElementsByTagInIsPreOrder(cs, tag);
  }

  lemma {:induction false} ElementsByTagInIsPreOrder(ns: seq<Node>, tag: string)
    ensures ElementsByTagIn(ns, tag) == Tagged(DescendantsIn(ns), tag)
    decreases ns, 0
  {
    if ns != [] {
      var n := ns[0];
      ElementsByTagIsPreOrder(n, tag);
      ElementsByTagInIsPreOrder(ns[1..], tag);
      TaggedConcat([n] + Descendants(n), DescendantsIn(ns[1..]), tag);
      TaggedConcat([n], Descendants(n), tag);
      assert [n][1..] == [];
    }
  }

  /**
   * The search reaches every level: a child with the tag is found, and so is
   * everything the search finds below that child.
   */
  lemma {:induction false} ChildIsFound(e: Node, tag: string, k: nat)
    requires e.Element? && k < |e.children|
    ensures e.children[k].Element? && e.children[k].tag == tag ==> e.children[k] in ElementsByTag(e, tag)
    ensures forall d | d in ElementsByTag(e.children[k], tag) :: d in ElementsByTag(e, tag)
  {
    ChildIsFoundIn(e.children, tag, k);
  }

  lemma {:induction false} ChildIsFoundIn(ns: seq<Node>, tag: string, k: nat)
    requires k < |ns|
    ensures ns[k].Element? && ns[k].tag == tag ==> ns[k] in ElementsByTagIn(ns, tag)
    ensures forall d | d in ElementsByTag(ns[k], tag) :: d in ElementsByTagIn(ns, tag)
    decreases k
  {
    if k > 0 {
      ChildIsFoundIn(ns[1..], tag, k - 1);
      assert ns[1..][k - 1] == ns[k];
    }
  }

  /** The characters String.trim removes: every code point up to and including U+0020. */
  predicate IsSpace(c: char) {
    c <= ' '
  }

  function TrimStart(s: string): (r: string)
    ensures |r| <= |s| && r == s[|s| - |r|..]
    ensures forall i | 0 <= i < |s| - |r| :: IsSpace(s[i])
    ensures r != [] ==> !IsSpace(r[0])
  {
    if s != [] && IsSpace(s[0]) then TrimStart(s[1..]) else s
  }

  function TrimEnd(s: string): (r: string)
    ensures |r| <= |s| && r == s[..|r|]
    ensures forall i | |r| <= i < |s| :: IsSpace(s[i])
    ensures r != [] ==> !IsSpace(r[|r| - 1])
  {
    if s != [] && IsSpace(s[|s| - 1]) then TrimEnd(s[..|s| - 1]) else s
  }

  /** r is the slice of s starting at i, and everything around that slice is space. */
  ghost predicate SliceWithin(s: string, r: string, i: int) {
    0 <= i <= |s| - |r| && r == s[i..i + |r|]
    && (forall k | 0 <= k < i :: IsSpace(s[k]))
    && (forall k | i + |r| <= k < |s| :: IsSpace(s[k]))
  }

  /** Cutting leading space and then trailing space leaves a slice with space on both sides of it. */
  lemma TrimmedSlice(s: string, t: string, r: string)
    requires |t| <= |s| && t == s[|s| - |t|..]
    requires forall i | 0 <= i < |s| - |t| :: IsSpace(s[i])
    requires t != [] ==> !IsSpace(t[0])
    requires |r| <= |t| && r == t[..|r|]
    requires forall i | |r| <= i < |t| :: IsSpace(t[i])
    ensures SliceWithin(s, r, |s| - |t|)
    ensures r != [] ==> !IsSpace(r[0])
  {
    var i := |s| - |t|;
    assert r == s[i..i + |r|];
    forall k | i + |r| <= k < |s|
      ensures IsSpace(s[k])
    {
      assert s[k] == t[k - i];
    }
    if r != [] {
      assert r[0] == t[0];
    }
  }

  /**
   * String.trim: the longest slice of s that neither starts nor ends with a
   * space character; everything cut off on either side is space.
   */
  function Trim(s: string): (r: string)
    ensures exists i :: SliceWithin(s, r, i)
    ensures r != [] ==> !IsSpace(r[0]) && !IsSpace(r[|r| - 1])
  {
    var t := TrimStart(s);
    var r := TrimEnd(t);
    TrimmedSlice(s, t, r);
    r
  }

  /** Trimming a string that has no space at either end leaves it as it is. */
  lemma TrimKeepsInner(s: string)
    requires s != [] ==> !IsSpace(s[0]) && !IsSpace(s[|s| - 1])
    ensures Trim(s) == s
  {
  }
}
