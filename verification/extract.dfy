/**
 * Extraction of the page's content items from the abstract document: the page title, one
 * entry per quoted group, the scripture-reading text and the commentary paragraphs.
 * Extraction never fails: a missing element only leaves an empty or `undefined` piece.
 */
module Extract {
  import opened Wrappers
  import opened Strings
  import opened Dom

  /** U+0301 COMBINING ACUTE ACCENT, the stress mark the site puts into its titles. */
  const Accent: char := '\U{301}'

  /** How a template literal prints an optional string: `undefined` when it is absent. */
  function Show(o: Option<string>): string
  {
    if o.None? then "undefined" else o.value
  }

  /** The text of the first section paragraph, or the empty text of an empty selection. */
  function TitleText(doc: Document): (r: string)
    ensures Query(SectionParagraph, doc) == [] ==> r == ""
    ensures Query(SectionParagraph, doc) != [] ==> r == TextOf(Query(SectionParagraph, doc)[0].children)
  {
    var ps := Query(SectionParagraph, doc);
    if ps == [] then "" else TextOf(ps[0].children)
  }

  /**
   * The title item: the first section paragraph's text with every stress mark removed,
   * trimmed, between asterisks. It holds no stress mark, its inner text has no white space
   * at either end, and a page without a section paragraph gives `**`.
   */
  function PageTitle(doc: Document): (r: string)
    ensures |r| >= 2 && r[0] == '*' && r[|r| - 1] == '*'
    ensures Accent !in r
    ensures var inner := r[1..|r| - 1]; inner != [] ==> !IsSpace(inner[0]) && !IsSpace(inner[|inner| - 1])
    ensures Query(SectionParagraph, doc) == [] ==> r == "**"
    ensures Query(SectionParagraph, doc) != [] ==>
      StarredInfix(r, RemoveAll(TextOf(Query(SectionParagraph, doc)[0].children), Accent))
  {
    var plain := RemoveAll(TitleText(doc), Accent);
    var inner := Trim(plain);
    TrimmedIsStarredInfix(plain);
    TrimKeepsAbsent(plain, Accent);
    Starred(inner);
    "*" + inner + "*"
  }

  /** `r` is an infix of `t`, cut from it at white space only, between asterisks. */
  predicate StarredInfix(r: string, t: string)
  {
    exists a, b ::
      && 0 <= a <= b <= |t|
      && r == "*" + t[a..b] + "*"
      && (forall m :: 0 <= m < a ==> IsSpace(t[m]))
      && (forall m :: b <= m < |t| ==> IsSpace(t[m]))
  }

  /** Trimming a text and putting it between asterisks gives a starred infix of it. */
  lemma TrimmedIsStarredInfix(t: string)
    ensures StarredInfix("*" + Trim(t) + "*", t)
  {
    var a := SkipSpace(t, 0);
    var b := SkipSpaceBack(t, a, |t|);
    assert "*" + Trim(t) + "*" == "*" + t[a..b] + "*";
  }

  /**
   * A first section paragraph whose text has no stress mark and no white space at either end
   * becomes the title unchanged, between asterisks.
   */
  lemma PageTitleOfCleanText(doc: Document)
    requires Query(SectionParagraph, doc) != []
    requires var text := TextOf(Query(SectionParagraph, doc)[0].children);
      Accent !in text && (text != [] ==> !IsSpace(text[0]) && !IsSpace(text[|text| - 1]))
    ensures PageTitle(doc) == "*" + TextOf(Query(SectionParagraph, doc)[0].children) + "*"
  {
    var text := TextOf(Query(SectionParagraph, doc)[0].children);
    RemoveAllAbsent(text, Accent);
    assert SkipSpace(text, 0) == 0;
    assert SkipSpaceBack(text, 0, |text|) == |text|;
    assert text[0..|text|] == text;
  }

  /** `*inner*` starts and ends with an asterisk, holds `inner` between them and no stress mark if `inner` has none. */
  lemma Starred(inner: string)
    requires Accent !in inner
    ensures var r := "*" + inner + "*";
      && |r| >= 2 && r[0] == '*' && r[|r| - 1] == '*'
      && Accent !in r
      && r[1..|r| - 1] == inner
  {
    var r := "*" + inner + "*";
    assert r[1..|r| - 1] == inner;
  }

  // ---------------------------------------------------------------------------------------
  // Scripture readings

  /** An `a` child of a reading unit printed as a Markdown link `[text](href)`. */
  function LinkSegment(a: Node): (r: string)
    requires a.Element?
    ensures r != ""
  {
    "[" + Trim(TextOf(a.children)) + "](" + Show(a.href) + ")"
  }

  /** The links among a unit's element children, in child order; other children are skipped. */
  function LinkSegments(cs: seq<Node>): (r: seq<string>)
    ensures NoneEmpty(r)
    ensures |r| <= |cs|
  {
    if cs == [] then []
    else
      var head := if cs[0].Element? && cs[0].tag == "a" then [LinkSegment(cs[0])] else [];
      NoneEmptyAppend(head, LinkSegments(cs[1..]));
      head + LinkSegments(cs[1..])
  }

  /** A unit's own text, trimmed. */
  function OwnLine(u: Node): string
    requires u.Element?
  {
    Trim(OwnText(u.children))
  }

  /**
   * The segments one reading unit pushes: its own trimmed text and a space when that text is
   * not empty, then one link per `a` child, then a line break.
   */
  function UnitSegments(u: Node): (r: seq<string>)
    requires u.Element?
    ensures |r| >= 1 && r[|r| - 1] == "\n"
    ensures NoneEmpty(r)
  {
    var own := OwnLine(u);
    var head: seq<string> := if own != "" then [own + " "] else [];
    var links := LinkSegments(Elements(u.children));
    NoneEmptyAppend(head, links);
    NoneEmptyAppend(head + links, ["\n"]);
    head + links + ["\n"]
  }

  /** No string of the sequence is empty. */
  predicate NoneEmpty(segs: seq<string>)
  {
    forall i :: 0 <= i < |segs| ==> segs[i] != ""
  }

  lemma NoneEmptyAppend(a: seq<string>, b: seq<string>)
    requires NoneEmpty(a) && NoneEmpty(b)
    ensures NoneEmpty(a + b)
  {
    forall i | 0 <= i < |a + b|
      ensures (a + b)[i] != ""
    {
      if i >= |a| {
        assert (a + b)[i] == b[i - |a|];
      }
    }
  }

  predicate AllElements(ns: seq<Node>)
  {
    forall i :: 0 <= i < |ns| ==> ns[i].Element?
  }

  /** The segments of all units in order; none is empty. */
  function Segments(units: seq<Node>): (r: seq<string>)
    requires AllElements(units)
    ensures NoneEmpty(r)
    ensures units != [] ==> r != [] && r[|r| - 1] == "\n"
  {
    if units == [] then []
    else
      var r := UnitSegments(units[0]) + Segments(units[1..]);
      NoneEmptyAppend(UnitSegments(units[0]), Segments(units[1..]));
      r
  }

  /** The filter on truthiness: the non-empty strings, in order. */
  function DropEmpty(segs: seq<string>): seq<string>
  {
    if segs == [] then []
    else (if segs[0] != "" then [segs[0]] else []) + DropEmpty(segs[1..])
  }

  /** Everything but the last element; nothing for an empty array. */
  function DropLast<T>(s: seq<T>): seq<T>
  {
    if s == [] then [] else s[..|s| - 1]
  }

  /**
   * The content of a reading group. The units are taken from the whole document
   * (`span.chten > div > div`), not only from the group being read.
   */
  function ReadingText(doc: Document): string
  {
    Concat(DropLast(DropEmpty(Segments(Query(ReadingUnit, doc)))))
  }

  /** One unit as a line of text: own text and a space if any, then its links. */
  function UnitLine(u: Node): string
    requires u.Element?
  {
    (if OwnLine(u) != "" then OwnLine(u) + " " else "") + Concat(LinkSegments(Elements(u.children)))
  }

  function UnitLines(units: seq<Node>): (r: seq<string>)
    requires AllElements(units)
    ensures |r| == |units|
  {
    if units == [] then [] else [UnitLine(units[0])] + UnitLines(units[1..])
  }

  /** Filtering out empty strings changes nothing when none is empty. */
  lemma {:induction false} DropEmptyKeepsAll(segs: seq<string>)
    requires NoneEmpty(segs)
    ensures DropEmpty(segs) == segs
  {
    if segs != [] {
      DropEmptyKeepsAll(segs[1..]);
    }
  }

  /** A unit's segments concatenate to its line followed by a line break. */
  lemma UnitSegmentsText(u: Node)
    requires u.Element?
    ensures Concat(UnitSegments(u)) == UnitLine(u) + "\n"
  {
    var own := OwnLine(u);
    var head: seq<string> := if own != "" then [own + " "] else [];
    var links := LinkSegments(Elements(u.children));
    ConcatAppend(head + links, ["\n"]);
    ConcatAppend(head, links);
  }

  /** All segments concatenate to the unit lines, each followed by a line break. */
  lemma {:induction false} SegmentsText(units: seq<Node>)
    requires AllElements(units) && units != []
    ensures Concat(Segments(units)) == Join(UnitLines(units), "\n") + "\n"
  {
    var u, rest := units[0], units[1..];
    var line := UnitLine(u);
    var tail := Concat(Segments(rest));
    assert Concat(Segments(units)) == line + "\n" + tail by {
      assert Segments(units) == UnitSegments(u) + Segments(rest);
      ConcatAppend(UnitSegments(u), Segments(rest));
      UnitSegmentsText(u);
    }
    assert UnitLines(units) == [line] + UnitLines(rest);
    if rest == [] {
      assert tail == "";
    } else {
      SegmentsText(rest);
      JoinCons(line, UnitLines(rest), "\n");
    }
  }

  /** Dropping a final line break segment removes exactly the final line break of the text. */
  lemma DropLastBreak(segs: seq<string>)
    requires segs != [] && segs[|segs| - 1] == "\n"
    ensures Concat(DropLast(segs)) + "\n" == Concat(segs)
  {
    assert segs == segs[..|segs| - 1] + ["\n"];
    ConcatAppend(segs[..|segs| - 1], ["\n"]);
  }

  /**
   * The reading content is the unit lines joined with line breaks: there is no trailing break
   * after the last unit, and a page without reading units gives the empty string.
   */
  lemma ReadingTextLines(doc: Document)
    ensures ReadingText(doc) == Join(UnitLines(Query(ReadingUnit, doc)), "\n")
  {
    var units := Query(ReadingUnit, doc);
    var segs := Segments(units);
    DropEmptyKeepsAll(segs);
    if units != [] {
      SegmentsText(units);
      DropLastBreak(segs);
      var x, y := Concat(DropLast(segs)), Join(UnitLines(units), "\n");
      assert x + "\n" == y + "\n";
      assert x == (x + "\n")[..|x|];
    }
  }

  // ---------------------------------------------------------------------------------------
  // Quoted groups

  /** The title and content a group has collected so far; absent ones print as `undefined`. */
  datatype Group = Group(title: Option<string>, content: Option<string>)

  predicate IsBold(c: Node)
  {
    c.Element? && c.tag == "b"
  }

  /** A `b` child as a bold title. */
  function BoldTitle(c: Node): string
    requires c.Element?
  {
    "*" + TextOf(c.children) + "*"
  }

  /** What a non-`b` child makes the content: the reading text for class `chten`, else its italic text. */
  function ChildContent(c: Node, reading: string): string
    requires c.Element?
  {
    if "chten" in c.classes then reading else "_" + TextOf(c.children) + "_"
  }

  /** One child's effect: a `b` child sets the title, any other child sets the content. */
  function Step(g: Group, c: Node, reading: string): Group
    requires c.Element?
  {
    if IsBold(c) then g.(title := Some(BoldTitle(c)))
    else g.(content := Some(ChildContent(c, reading)))
  }

  /** The children folded over in order, each overwriting what earlier ones set. */
  function Fold(g: Group, cs: seq<Node>, reading: string): Group
    requires AllElements(cs)
    decreases cs
  {
    if cs == [] then g else Fold(Step(g, cs[0], reading), cs[1..], reading)
  }

  /** The title of the last `b` child, if any. */
  function LastTitle(cs: seq<Node>): Option<string>
    requires AllElements(cs)
  {
    if cs == [] then None
    else if IsBold(cs[|cs| - 1]) then Some(BoldTitle(cs[|cs| - 1]))
    else LastTitle(cs[..|cs| - 1])
  }

  /** The content the last non-`b` child gives, if any. */
  function LastContent(cs: seq<Node>, reading: string): Option<string>
    requires AllElements(cs)
  {
    if cs == [] then None
    else if !IsBold(cs[|cs| - 1]) then Some(ChildContent(cs[|cs| - 1], reading))
    else LastContent(cs[..|cs| - 1], reading)
  }

  function OrElse(o: Option<string>, fallback: Option<string>): Option<string>
  {
    if o.Some? then o else fallback
  }

  lemma {:induction false} LastTitleCons(c: Node, cs: seq<Node>)
    requires c.Element? && AllElements(cs)
    ensures LastTitle([c] + cs) == OrElse(LastTitle(cs), if IsBold(c) then Some(BoldTitle(c)) else None)
  {
    if cs != [] {
      assert ([c] + cs)[..|[c] + cs| - 1] == [c] + cs[..|cs| - 1];
      LastTitleCons(c, cs[..|cs| - 1]);
    }
  }

  lemma {:induction false} LastContentCons(c: Node, cs: seq<Node>, reading: string)
    requires c.Element? && AllElements(cs)
    ensures LastContent([c] + cs, reading)
         == OrElse(LastContent(cs, reading), if IsBold(c) then None else Some(ChildContent(c, reading)))
  {
    if cs != [] {
      assert ([c] + cs)[..|[c] + cs| - 1] == [c] + cs[..|cs| - 1];
      LastContentCons(c, cs[..|cs| - 1], reading);
    }
  }

  /**
   * Later children win: after the fold, the title is the last `b` child's and the content is
   * the last other child's; a part no child set keeps its earlier value.
   */
  lemma {:induction false} FoldLastWins(g: Group, cs: seq<Node>, reading: string)
    requires AllElements(cs)
    ensures Fold(g, cs, reading)
         == Group(OrElse(LastTitle(cs), g.title), OrElse(LastContent(cs, reading), g.content))
    decreases cs
  {
    if cs != [] {
      FoldLastWins(Step(g, cs[0], reading), cs[1..], reading);
      assert [cs[0]] + cs[1..] == cs;
      LastTitleCons(cs[0], cs[1..]);
      LastContentCons(cs[0], cs[1..], reading);
    }
  }

  /** A group's entry: its title, a space, a line break and its content, each absent part printed as `undefined`. */
  function Entry(g: Group): string
  {
    Show(g.title) + " \n" + Show(g.content)
  }

  /** The entry of one blockquote, folding its element children from an empty group. */
  function GroupEntry(q: Node, reading: string): string
    requires q.Element?
  {
    Entry(Fold(Group(None, None), Elements(q.children), reading))
  }

  /**
   * A blockquote's entry is its last `b` child's title and its last other child's content,
   * each `undefined` when there is no such child.
   */
  lemma GroupEntryLastWins(q: Node, reading: string)
    requires q.Element?
    ensures var cs := Elements(q.children);
      GroupEntry(q, reading) == Show(LastTitle(cs)) + " \n" + Show(LastContent(cs, reading))
  {
    FoldLastWins(Group(None, None), Elements(q.children), reading);
  }

  /** One entry per blockquote of the page, in document order. */
  function Groups(doc: Document): (r: seq<string>)
    ensures |r| == |Query(Quote, doc)|
    ensures forall i :: 0 <= i < |r| ==> r[i] == GroupEntry(Query(Quote, doc)[i], ReadingText(doc))
  {
    var qs := Query(Quote, doc);
    var reading := ReadingText(doc);
    seq(|qs|, i requires 0 <= i < |qs| => GroupEntry(qs[i], reading))
  }

  /**
   * The commentary paragraphs for full mode: the trimmed text of each later section paragraph,
   * in document order, none starting or ending with white space.
   */
  function Paragraphs(doc: Document): (r: seq<string>)
    ensures |r| == |Query(LaterParagraph, doc)|
    ensures forall i :: 0 <= i < |r| ==> r[i] == Trim(TextOf(Query(LaterParagraph, doc)[i].children))
    ensures forall i :: 0 <= i < |r| && r[i] != [] ==> !IsSpace(r[i][0]) && !IsSpace(r[i][|r[i]| - 1])
  {
    var ps := Query(LaterParagraph, doc);
    seq(|ps|, i requires 0 <= i < |ps| => Trim(TextOf(ps[i].children)))
  }
}
