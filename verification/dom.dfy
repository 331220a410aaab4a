/**
 * An abstract HTML document and the four queries the service runs on it.
 * A node is a text node or an element with a lower-case tag name, a set of classes, an
 * optional `href` and its children in document order. Query results come in document
 * order (a preorder walk), as cheerio returns them.
 */
module Dom {
  import opened Sequences
  import opened Wrappers

  datatype Node =
    | Text(value: string)
    | Element(tag: string, classes: set<string>, href: Option<string>, children: seq<Node>)

  /** The top-level nodes of a fetched page. */
  type Document = seq<Node>

  /** The text content: the text nodes below, concatenated in document order. */
  function TextOf(ns: seq<Node>): string
  {
    if ns == [] then ""
    else match ns[0]
      case Text(v) => v + TextOf(ns[1..])
      case Element(_, _, _, cs) => TextOf(cs) + TextOf(ns[1..])
  }

  /** Text is read piecewise: the text of a run of nodes is the texts of its parts, in order. */
  lemma {:induction false} TextOfAppend(a: seq<Node>, b: seq<Node>)
    ensures TextOf(a + b) == TextOf(a) + TextOf(b)
  {
    if a == [] {
      assert a + b == b;
    } else {
      assert (a + b)[0] == a[0];
      assert (a + b)[1..] == a[1..] + b;
      TextOfAppend(a[1..], b);
    }
  }

  /**
   * The text of an element once its element children are removed from a copy of it, that is,
   * its direct text nodes only.
   */
  function OwnText(ns: seq<Node>): (r: string)
    ensures |r| <= |TextOf(ns)|
  {
    if ns == [] then ""
    else match ns[0]
      case Text(v) => v + OwnText(ns[1..])
      case Element(_, _, _, _) => OwnText(ns[1..])
  }

  /** The element children, text nodes skipped, order kept. */
  function Elements(ns: seq<Node>): (r: seq<Node>)
    ensures forall i :: 0 <= i < |r| ==> r[i].Element? && r[i] in ns
    ensures |r| <= |ns|
  {
    if ns == [] then []
    else (if ns[0].Element? then [ns[0]] else []) + Elements(ns[1..])
  }

  /** Own text and element children together make up the whole text when there is no nesting. */
  lemma {:induction false} OwnTextOfFlat(ns: seq<Node>)
    requires forall i :: 0 <= i < |ns| ==> ns[i].Text?
    ensures OwnText(ns) == TextOf(ns) && Elements(ns) == []
  {
    if ns != [] {
      OwnTextOfFlat(ns[1..]);
    }
  }

  /** The tag and classes of an enclosing element, as a selector sees them. */
  datatype Frame = Frame(tag: string, classes: set<string>)

  /** The selectors the service uses. */
  datatype Selector =
    | Quote               // `blockquote`
    | SectionParagraph    // `.main .section > p`
    | LaterParagraph      // `.main .section > p:not(:first-of-type)`
    | ReadingUnit         // `span.chten > div > div`

  /** The tag every match of a selector has. */
  function SelectorTag(sel: Selector): string
  {
    match sel
    case Quote => "blockquote"
    case SectionParagraph => "p"
    case LaterParagraph => "p"
    case ReadingUnit => "div"
  }

  /** The parent has class `section` and lies strictly inside an element of class `main`. */
  predicate InMainSection(ancestors: seq<Frame>)
  {
    && |ancestors| >= 2
    && "section" in ancestors[|ancestors| - 1].classes
    && exists i :: 0 <= i < |ancestors| - 1 && "main" in ancestors[i].classes
  }

  /** The parent is a `div` whose own parent is a `span` of class `chten`. */
  predicate InReadingBlock(ancestors: seq<Frame>)
  {
    && |ancestors| >= 2
    && ancestors[|ancestors| - 1].tag == "div"
    && ancestors[|ancestors| - 2].tag == "span"
    && "chten" in ancestors[|ancestors| - 2].classes
  }

  /**
   * Whether an element with tag `tag` matches `sel`, given its ancestors (outermost first)
   * and whether an earlier sibling element is a `p`.
   */
  predicate Matches(sel: Selector, tag: string, ancestors: seq<Frame>, pBefore: bool)
  {
    && tag == SelectorTag(sel)
    && match sel
       case Quote => true
       case SectionParagraph => InMainSection(ancestors)
       case LaterParagraph => InMainSection(ancestors) && pBefore
       case ReadingUnit => InReadingBlock(ancestors)
  }

  /**
   * The matches of `sel` among `ns` and their descendants, in document order, where `ns` are
   * siblings below `ancestors` and `pBefore` says whether a `p` precedes them.
   * Every match is an element with the selector's tag.
   */
  function Select(sel: Selector, ns: seq<Node>, ancestors: seq<Frame>, pBefore: bool): (r: seq<Node>)
    ensures forall i :: 0 <= i < |r| ==> r[i].Element? && r[i].tag == SelectorTag(sel)
  {
    if ns == [] then []
    else match ns[0]
      case Text(_) => Select(sel, ns[1..], ancestors, pBefore)
      case Element(tag, cls, _, cs) =>
        (if Matches(sel, tag, ancestors, pBefore) then [ns[0]] else [])
        + Select(sel, cs, ancestors + [Frame(tag, cls)], false)
        + Select(sel, ns[1..], ancestors, pBefore || tag == "p")
  }

  /** A selector run on the whole document. */
  function Query(sel: Selector, doc: Document): (r: seq<Node>)
    ensures forall i :: 0 <= i < |r| ==> r[i].Element? && r[i].tag == SelectorTag(sel)
  {
    Select(sel, doc, [], false)
  }

  /** An element met during the walk, with its ancestors and whether a `p` sibling precedes it. */
  datatype Visit = Visit(node: Node, ancestors: seq<Frame>, pBefore: bool)

  /**
   * Every element among `ns` and their descendants in document order, each with the context a
   * selector sees at its position; no selector is involved.
   */
  function Visits(ns: seq<Node>, ancestors: seq<Frame>, pBefore: bool): (r: seq<Visit>)
    ensures forall i :: 0 <= i < |r| ==> r[i].node.Element?
  {
    if ns == [] then []
    else match ns[0]
      case Text(_) => Visits(ns[1..], ancestors, pBefore)
      case Element(tag, cls, _, cs) =>
        [Visit(ns[0], ancestors, pBefore)]
        + Visits(cs, ancestors + [Frame(tag, cls)], false)
        + Visits(ns[1..], ancestors, pBefore || tag == "p")
  }

  /** Whether a visited element matches `sel` in its context. */
  predicate Hit(sel: Selector, v: Visit)
  {
    v.node.Element? && Matches(sel, v.node.tag, v.ancestors, v.pBefore)
  }

  /** The nodes of the visits that match `sel`, in order. */
  function Picked(sel: Selector, vs: seq<Visit>): seq<Node>
  {
    if vs == [] then []
    else (if Hit(sel, vs[0]) then [vs[0].node] else []) + Picked(sel, vs[1..])
  }

  lemma {:induction false} PickedAppend(sel: Selector, a: seq<Visit>, b: seq<Visit>)
    ensures Picked(sel, a + b) == Picked(sel, a) + Picked(sel, b)
  {
    if a == [] {
      assert a + b == b;
    } else {
      assert (a + b)[0] == a[0] && (a + b)[1..] == a[1..] + b;
      PickedAppend(sel, a[1..], b);
    }
  }

  /**
   * A selector picks exactly the elements that match it where they stand, all of them and
   * in document order: selection is the walk over every element filtered by the selector.
   */
  lemma {:induction false} SelectIsFilteredWalk(sel: Selector, ns: seq<Node>, ancestors: seq<Frame>, pBefore: bool)
    ensures Select(sel, ns, ancestors, pBefore) == Picked(sel, Visits(ns, ancestors, pBefore))
    decreases ns
  {
    if ns != [] {
      match ns[0]
      case Text(_) =>
        SelectIsFilteredWalk(sel, ns[1..], ancestors, pBefore);
      case Element(tag, cls, _, cs) =>
        var v := Visit(ns[0], ancestors, pBefore);
        var inner := Visits(cs, ancestors + [Frame(tag, cls)], false);
        var rest := Visits(ns[1..], ancestors, pBefore || tag == "p");
        SelectIsFilteredWalk(sel, cs, ancestors + [Frame(tag, cls)], false);
        SelectIsFilteredWalk(sel, ns[1..], ancestors, pBefore || tag == "p");
        PickedAppend(sel, [v] + inner, rest);
        PickedAppend(sel, [v], inner);
        assert Picked(sel, [v]) == if Matches(sel, tag, ancestors, pBefore) then [ns[0]] else [];
    }
  }

  /**
   * Every section paragraph that is not the first `p` among its siblings is a section
   * paragraph: the commentary paragraphs are a selection, in order, of the section paragraphs.
   */
  lemma {:induction false} LaterWithinSection(ns: seq<Node>, ancestors: seq<Frame>, pBefore: bool)
    ensures IsSubseq(Select(LaterParagraph, ns, ancestors, pBefore), Select(SectionParagraph, ns, ancestors, pBefore))
    decreases ns
  {
    if ns != [] {
      match ns[0]
      case Text(_) =>
        LaterWithinSection(ns[1..], ancestors, pBefore);
      case Element(tag, cls, _, cs) =>
        var head1 := if Matches(LaterParagraph, tag, ancestors, pBefore) then [ns[0]] else [];
        var head2 := if Matches(SectionParagraph, tag, ancestors, pBefore) then [ns[0]] else [];
        assert IsSubseq(head1, head2) by {
          if head1 != [] {
            assert head2 == head1 && head1[1..] == [] && head2[1..] == [];
          }
        }
        LaterWithinSection(cs, ancestors + [Frame(tag, cls)], false);
        LaterWithinSection(ns[1..], ancestors, pBefore || tag == "p");
        var inner1 := Select(LaterParagraph, cs, ancestors + [Frame(tag, cls)], false);
        var inner2 := Select(SectionParagraph, cs, ancestors + [Frame(tag, cls)], false);
        var rest1 := Select(LaterParagraph, ns[1..], ancestors, pBefore || tag == "p");
        var rest2 := Select(SectionParagraph, ns[1..], ancestors, pBefore || tag == "p");
        SubseqAppend(head1, head2, inner1, inner2);
        SubseqAppend(head1 + inner1, head2 + inner2, rest1, rest2);
    }
  }
}
