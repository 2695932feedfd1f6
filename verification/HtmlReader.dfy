/** What the serializer of HtmlSerializer writes, read back (deps/libxml2/HTMLtree.c:831-1116).

    The reader knows the delimiters of HTML and nothing of the serializer.  It goes through the writes from left to
    right, with a stack of the elements that are open, and gets the tree: which nodes there are, their names and
    contents, their order, and what is inside what. */
module HtmlReader {
  import opened Wrappers
  import opened Seqs
  import opened HtmlSerializer

  // ---------------------------------------------------------------------------------------------------
  // What there is to be read
  // ---------------------------------------------------------------------------------------------------

  datatype Tag = Tag(prefix: Option<string>, name: string)

  /** Verbatim is anything put out as it is that is no markup: raw text, a document type, a line end. */
  datatype Item =
    | El(tag: Tag, attrs: string, items: seq<Item>)
    | Escaped(s: string)
    | Verbatim(s: string)
    | Remark(s: string)
    | Instruction(target: string, data: Option<string>)
    | Reference(entity: string)

  function Contents(content: Option<string>): seq<string> {
    if content.Some? then [content.value] else []
  }

  /** The items of a single node, which its descendants do not belong to. */
  function Single(n: Node, raw: bool): seq<Item> {
    match n.kind
    case Document => (if n.rendered == "" then [] else [Verbatim(n.rendered)]) + [Verbatim("\n")]
    case Element => [El(Tag(n.prefix, n.name), n.rendered, [])]
    case Attribute => [Verbatim(n.rendered)]
    case Text =>
      if n.content == None then [] else if n.noenc then [Verbatim(n.content.value)]
      else if raw then [Verbatim(n.content.value)] else [Escaped(n.content.value)]
    case Comment => if n.content == None then [] else [Remark(n.content.value)]
    case PI => [Instruction(n.name, n.content)]
    case EntityRef => [Reference(n.name)]
    case Preserve => if n.content == None then [] else [Verbatim(n.content.value)]
    case Other => []
  }

  /** A node with its children, if it shows them. */
  function Around(n: Node, items: seq<Item>): seq<Item>
    requires n.kind == Document || n.kind == Element
  {
    if n.kind == Document then
      (if n.rendered == "" then [] else [Verbatim(n.rendered)]) + items + [Verbatim("\n")]
    else [El(Tag(n.prefix, n.name), n.rendered, items)]
  }

  predicate ShowsChildren(n: Node) {
    n.kind == Document || (n.kind == Element && !n.isVoid)
  }

  /** The intended output: a text is put out as it is inside a raw-text element or if it is marked so. */
  function Outline(t: Tree, raw: bool): seq<Item>
    decreases t, 1
  {
    if t.kids != [] && ShowsChildren(t.node) then
      Around(t.node, OutlineKids(t.kids, t.node.kind == Element && t.node.isRawText))
    else Single(t.node, raw)
  }

  function OutlineKids(kids: seq<Tree>, raw: bool): seq<Item>
    decreases kids, 0
  {
    if kids == [] then [] else Outline(kids[0], raw) + OutlineKids(kids[1..], raw)
  }

  /** The output as it is: inside is set from the start tag of a raw-text element to the next end tag. */
  function Actual(t: Tree, inside: bool): seq<Item>
    decreases t, 1
  {
    if t.kids != [] && ShowsChildren(t.node) then
      Around(t.node, ActualKids(t.kids, inside || (t.node.kind == Element && t.node.isRawText)))
    else Single(t.node, inside)
  }

  function ActualKids(kids: seq<Tree>, inside: bool): seq<Item>
    decreases kids, 0
  {
    if kids == [] then []
    else if kids[0].kids != [] && ShowsChildren(kids[0].node) then
      Actual(kids[0], inside) + ActualKids(kids[1..], false)
    else
      Actual(kids[0], inside) + ActualKids(kids[1..], inside)
  }

  // ---------------------------------------------------------------------------------------------------
  // The reader
  // ---------------------------------------------------------------------------------------------------

  /** A start tag, an end tag, or an item that stands by itself. */
  datatype Token = StartTag(tag: Tag, attrs: string) | EndTag(tag: Tag) | Alone(item: Item)

  datatype Found<T> = Nothing | Found(value: T, width: nat)

  function ReadTag(ps: seq<Piece>): (r: Found<Tag>)
    ensures r.Found? ==> 0 < r.width <= |ps|
  {
    if |ps| > 2 && ps[0].Write? && ps[1] == Write(":") && ps[2].Write? then Found(Tag(Some(ps[0].s), ps[2].s), 3)
    else if |ps| > 0 && ps[0].Write? then Found(Tag(None, ps[0].s), 1)
    else Nothing
  }

  /** Behind a "<". */
  function ReadStart(ps: seq<Piece>, voids: set<Tag>): (r: Found<Token>)
    ensures r.Found? ==> 0 < r.width <= |ps|
  {
    var t := ReadTag(ps);
    if t.Nothing? then Nothing
    else
      var tag, more := t.value, ps[t.width..];
      if |more| > 1 && more[0].Write? && more[1] == Write(">") then
        Found(if tag in voids then Alone(El(tag, more[0].s, [])) else StartTag(tag, more[0].s), t.width + 2)
      else if |more| > 1 && more[0].Write? && more[1] == Write("></") && tag !in voids then
        var e := ReadEnd(more[2..]);
        if e.Found? && e.value == EndTag(tag) then Found(Alone(El(tag, more[0].s, [])), t.width + 2 + e.width)
        else Nothing
      else Nothing
  }

  /** Behind a "</". */
  function ReadEnd(ps: seq<Piece>): (r: Found<Token>)
    ensures r.Found? ==> 0 < r.width <= |ps|
  {
    var t := ReadTag(ps);
    if t.Found? && t.width < |ps| && ps[t.width] == Write(">") then Found(EndTag(t.value), t.width + 1) else Nothing
  }

  function ReadToken(ps: seq<Piece>, voids: set<Tag>): (r: Found<Token>)
    requires ps != []
    ensures r.Found? ==> 0 < r.width <= |ps|
  {
    var first, more := ps[0], ps[1..];
    if first.Serialize? then Found(Alone(Escaped(first.s)), 1)
    else if first.s == "<" then var r := ReadStart(more, voids); if r.Found? then r.(width := 1 + r.width) else r
    else if first.s == "</" then var r := ReadEnd(more); if r.Found? then r.(width := 1 + r.width) else r
    else if first.s == "<!--" then
      if |more| > 1 && more[0].Write? && more[1] == Write("-->") then Found(Alone(Remark(more[0].s)), 3) else Nothing
    else if first.s == "<?" then
      if |more| > 1 && more[0].Write? && more[1] == Write(">") then Found(Alone(Instruction(more[0].s, None)), 3)
      else if |more| > 3 && more[0].Write? && more[1] == Write(" ") && more[2].Write? && more[3] == Write(">") then
        Found(Alone(Instruction(more[0].s, Some(more[2].s))), 5)
      else Nothing
    else if first.s == "&" then
      if |more| > 1 && more[0].Write? && more[1] == Write(";") then Found(Alone(Reference(more[0].s)), 3) else Nothing
    else Found(Alone(Verbatim(first.s)), 1)
  }

  /** An element that is open, and the items in front of it inside its own parent. */
  datatype Open = Open(tag: Tag, attrs: string, before: seq<Item>)

  /** Every end tag closes the innermost open element, which bears its name, and nothing stays open. */
  function Read(ps: seq<Piece>, open: seq<Open>, done: seq<Item>, voids: set<Tag>): Option<seq<Item>>
    decreases |ps|
  {
    if ps == [] then if open == [] then Some(done) else None
    else
      var r := ReadToken(ps, voids);
      if r.Nothing? then None
      else
        match r.value
        case Alone(item) => Read(ps[r.width..], open, done + [item], voids)
        case StartTag(tag, attrs) => Read(ps[r.width..], [Open(tag, attrs, done)] + open, [], voids)
        case EndTag(tag) =>
          if open == [] || open[0].tag != tag then None
          else Read(ps[r.width..], open[1..], open[0].before + [El(tag, open[0].attrs, done)], voids)
  }

  // ---------------------------------------------------------------------------------------------------
  // Which trees can be read
  // ---------------------------------------------------------------------------------------------------

  const DELIMITERS: set<string> := {"<", "</", "<!--", "<?", "&"}

  /** What is put out as it is does not look like a delimiter, nor do attributes look like the one behind a prefix. */
  predicate Clear(items: seq<Item>)
    decreases items
  {
    items == [] ||
    (&& (items[0].Verbatim? ==> items[0].s !in DELIMITERS)
     && (items[0].El? ==> items[0].attrs != ":" && Clear(items[0].items))
     && Clear(items[1..]))
  }

  /** The tags of void elements are exactly those in voids. */
  predicate VoidsKnown(t: Tree, voids: set<Tag>)
    decreases t, 1
  {
    && (t.node.kind == Element ==> (t.node.isVoid <==> Tag(t.node.prefix, t.node.name) in voids))
    && VoidsKnownKids(t.kids, voids)
  }

  predicate VoidsKnownKids(kids: seq<Tree>, voids: set<Tag>)
    decreases kids, 0
  {
    kids == [] || (VoidsKnown(kids[0], voids) && VoidsKnownKids(kids[1..], voids))
  }

  lemma {:induction false} ClearConcat(a: seq<Item>, b: seq<Item>)
    ensures Clear(a + b) <==> Clear(a) && Clear(b)
  {
    if a == [] {
      assert a + b == b;
    } else {
      ConcatTail(a, b);
      ClearConcat(a[1..], b);
    }
  }

  // ---------------------------------------------------------------------------------------------------
  // Reading tokens
  // ---------------------------------------------------------------------------------------------------

  /** These pieces are read as items, whatever is behind them and around them. */
  predicate ReadsAs(ps: seq<Piece>, items: seq<Item>, rest: seq<Piece>, open: seq<Open>, done: seq<Item>,
                    voids: set<Tag>) {
    Read(ps + rest, open, done, voids) == Read(rest, open, done + items, voids)
  }

  lemma ReadsNothing(rest: seq<Piece>, open: seq<Open>, done: seq<Item>, voids: set<Tag>)
    ensures ReadsAs([], [], rest, open, done, voids)
  {
    assert [] + rest == rest && done + [] == done;
  }

  lemma ReadsBoth(a: seq<Piece>, x: seq<Item>, b: seq<Piece>, y: seq<Item>, rest: seq<Piece>, open: seq<Open>,
                  done: seq<Item>, voids: set<Tag>)
    requires ReadsAs(a, x, b + rest, open, done, voids) && ReadsAs(b, y, rest, open, done + x, voids)
    ensures ReadsAs(a + b, x + y, rest, open, done, voids)
  {
    hide Read;
    ConcatAssoc(a, b, rest);
    ConcatAssoc(done, x, y);
  }

  /** One item from one token. */
  lemma TokenReads(ps: seq<Piece>, item: Item, rest: seq<Piece>, open: seq<Open>, done: seq<Item>, voids: set<Tag>)
    requires ps != [] && ReadToken(ps + rest, voids) == Found(Alone(item), |ps|)
    ensures ReadsAs(ps, [item], rest, open, done, voids)
  {
    hide ReadToken;
    assert (ps + rest)[|ps|..] == rest;
  }

  lemma TagReads(n: Node, more: seq<Piece>)
    requires n.prefix.None? && more != [] ==> more[0] != Write(":")
    ensures ReadTag(n.QName() + more) == Found(Tag(n.prefix, n.name), |n.QName()|)
    ensures (n.QName() + more)[|n.QName()|..] == more
  {
    var ps := n.QName() + more;
    assert n.prefix.Some? ==> ps[0] == Write(n.prefix.value) && ps[1] == Write(":") && ps[2] == Write(n.name);
    assert n.prefix.None? ==> ps[0] == Write(n.name) && (|ps| > 1 ==> ps[1] == more[0]);
  }

  lemma EndReads(n: Node, rest: seq<Piece>)
    ensures ReadEnd(n.QName() + [Write(">")] + rest) == Found(EndTag(Tag(n.prefix, n.name)), |n.QName()| + 1)
  {
    hide Node.QName, ReadTag;
    TagReads(n, [Write(">")] + rest);
    ConcatAssoc(n.QName(), [Write(">")], rest);
    assert (n.QName() + ([Write(">")] + rest))[|n.QName()|] == Write(">");
  }

  lemma ClosingReads(n: Node, rest: seq<Piece>, o: Open, open: seq<Open>, done: seq<Item>, voids: set<Tag>)
    requires n.kind != Document && o.tag == Tag(n.prefix, n.name)
    ensures Read(n.Closing() + rest, [o] + open, done, voids)
            == Read(rest, open, o.before + [El(o.tag, o.attrs, done)], voids)
  {
    hide Node.QName, ReadEnd, ReadTag;
    EndReads(n, rest);
    var ps := n.Closing() + rest;
    assert ps[0] == Write("</") && ps[1..] == n.QName() + [Write(">")] + rest;
    assert ReadToken(ps, voids) == Found(EndTag(o.tag), |n.Closing()|);
    assert ps[|n.Closing()|..] == rest && ([o] + open)[1..] == open;
  }

  /** The start tag of an element up to its end, in the three ways it can end. */
  lemma StartReads(n: Node, rest: seq<Piece>, voids: set<Tag>)
    requires n.rendered != ":"
    ensures var tag, start := Tag(n.prefix, n.name), n.QName() + [Write(n.rendered)];
      && ReadStart(start + ([Write(">")] + rest), voids)
         == Found(if tag in voids then Alone(El(tag, n.rendered, [])) else StartTag(tag, n.rendered), |n.QName()| + 2)
      && (tag !in voids ==>
            ReadStart(start + ([Write("></")] + (n.QName() + [Write(">")] + rest)), voids)
            == Found(Alone(El(tag, n.rendered, [])), 2 * |n.QName()| + 3))
  {
    hide Node.QName, ReadTag, ReadEnd;
    var a, b := [Write(">")] + rest, [Write("></")] + (n.QName() + [Write(">")] + rest);
    var r := [Write(n.rendered)];
    TagReads(n, r + a);
    ConcatAssoc(n.QName(), r, a);
    assert (r + a)[0] == Write(n.rendered) && (r + a)[1] == Write(">");
    TagReads(n, r + b);
    ConcatAssoc(n.QName(), r, b);
    EndReads(n, rest);
    assert (r + b)[0] == Write(n.rendered) && (r + b)[1] == Write("></") && (r + b)[2..] == b[1..];
    assert b[1..] == n.QName() + [Write(">")] + rest;
  }

  lemma OpeningReads(n: Node, rest: seq<Piece>, open: seq<Open>, done: seq<Item>, voids: set<Tag>)
    requires n.kind != Document && n.rendered != ":" && Tag(n.prefix, n.name) !in voids
    ensures Read(n.Opening() + rest, open, done, voids)
            == Read(rest, [Open(Tag(n.prefix, n.name), n.rendered, done)] + open, [], voids)
  {
    hide Node.QName, ReadStart, Read;
    StartReads(n, rest, voids);
    var ps := n.Opening() + rest;
    assert ps[0] == Write("<") && ps[1..] == n.QName() + [Write(n.rendered)] + ([Write(">")] + rest);
    StartTokenReads(ps, Tag(n.prefix, n.name), n.rendered, |n.Opening()|, open, done, voids);
    assert ps[|n.Opening()|..] == rest;
  }

  lemma StartTokenReads(ps: seq<Piece>, tag: Tag, attrs: string, width: nat, open: seq<Open>, done: seq<Item>,
                        voids: set<Tag>)
    requires ps != [] && ReadToken(ps, voids) == Found(StartTag(tag, attrs), width)
    ensures Read(ps, open, done, voids) == Read(ps[width..], [Open(tag, attrs, done)] + open, [], voids)
  {
    hide ReadToken;
  }

  lemma ElementReads(n: Node, raw: bool, rest: seq<Piece>, open: seq<Open>, done: seq<Item>, voids: set<Tag>)
    requires n.kind == Element && n.rendered != ":" && (n.isVoid <==> Tag(n.prefix, n.name) in voids)
    ensures ReadsAs(n.Alone(raw), Single(n, raw), rest, open, done, voids)
  {
    hide Node.QName, ReadStart, ReadsAs;
    StartReads(n, rest, voids);
    var ps, start := n.Alone(raw), n.QName() + [Write(n.rendered)];
    var end := if n.isVoid then [Write(">")] + rest else [Write("></")] + (n.QName() + [Write(">")] + rest);
    assert (ps + rest)[0] == Write("<") && (ps + rest)[1..] == start + end;
    TokenReads(ps, El(Tag(n.prefix, n.name), n.rendered, []), rest, open, done, voids);
  }

  lemma VerbatimReads(s: string, rest: seq<Piece>, open: seq<Open>, done: seq<Item>, voids: set<Tag>)
    requires s !in DELIMITERS
    ensures ReadsAs([Write(s)], [Verbatim(s)], rest, open, done, voids)
  {
    hide ReadsAs;
    assert ([Write(s)] + rest)[0] == Write(s);
    TokenReads([Write(s)], Verbatim(s), rest, open, done, voids);
  }

  lemma ContentReads(n: Node, raw: bool, rest: seq<Piece>, open: seq<Open>, done: seq<Item>, voids: set<Tag>)
    requires n.kind == Text || n.kind == Comment || n.kind == Preserve
    requires Clear(Single(n, raw))
    ensures ReadsAs(n.Alone(raw), Single(n, raw), rest, open, done, voids)
  {
    hide ReadsAs;
    var ps := n.Alone(raw);
    if n.content.None? {
      ReadsNothing(rest, open, done, voids);
    } else if n.kind == Comment {
      assert (ps + rest)[0] == Write("<!--") && (ps + rest)[1..] == [Write(n.content.value), Write("-->")] + rest;
      TokenReads(ps, Remark(n.content.value), rest, open, done, voids);
    } else if n.kind == Text && !n.noenc && !raw {
      assert (ps + rest)[0] == Serialize(n.content.value);
      TokenReads(ps, Escaped(n.content.value), rest, open, done, voids);
    } else {
      assert Single(n, raw)[0] == Verbatim(n.content.value);
      VerbatimReads(n.content.value, rest, open, done, voids);
    }
  }

  lemma ReferenceReads(n: Node, raw: bool, rest: seq<Piece>, open: seq<Open>, done: seq<Item>, voids: set<Tag>)
    requires n.kind == EntityRef
    ensures ReadsAs(n.Alone(raw), Single(n, raw), rest, open, done, voids)
  {
    hide ReadsAs;
    var ps := n.Alone(raw);
    assert (ps + rest)[0] == Write("&") && (ps + rest)[1..] == [Write(n.name), Write(";")] + rest;
    TokenReads(ps, Reference(n.name), rest, open, done, voids);
  }

  lemma InstructionReads(n: Node, raw: bool, rest: seq<Piece>, open: seq<Open>, done: seq<Item>, voids: set<Tag>)
    requires n.kind == PI
    ensures ReadsAs(n.Alone(raw), Single(n, raw), rest, open, done, voids)
  {
    hide ReadsAs;
    var ps := n.Alone(raw);
    assert (ps + rest)[0] == Write("<?") && (ps + rest)[1..] == ps[1..] + rest;
    if n.content.Some? {
      assert ps[1..] == [Write(n.name), Write(" "), Write(n.content.value), Write(">")];
    } else {
      assert ps[1..] == [Write(n.name), Write(">")];
    }
    TokenReads(ps, Instruction(n.name, n.content), rest, open, done, voids);
  }

  lemma DocumentReads(n: Node, raw: bool, rest: seq<Piece>, open: seq<Open>, done: seq<Item>, voids: set<Tag>)
    requires n.kind == Document && Clear(Single(n, raw))
    ensures ReadsAs(n.Alone(raw), Single(n, raw), rest, open, done, voids)
  {
    hide ReadsAs;
    var end, x := [Write("\n")], [Verbatim("\n")];
    if n.rendered == "" {
      VerbatimReads("\n", rest, open, done, voids);
      assert n.Alone(raw) == end && Single(n, raw) == x;
    } else {
      var y := [Verbatim(n.rendered)];
      VerbatimReads(n.rendered, end + rest, open, done, voids);
      VerbatimReads("\n", rest, open, done + y, voids);
      ReadsBoth([Write(n.rendered)], y, end, x, rest, open, done, voids);
    }
  }

  /** A node that is not gone into, of any kind. */
  lemma SingleReads(n: Node, raw: bool, rest: seq<Piece>, open: seq<Open>, done: seq<Item>, voids: set<Tag>)
    requires Clear(Single(n, raw))
    requires n.kind == Element ==> (n.isVoid <==> Tag(n.prefix, n.name) in voids)
    ensures ReadsAs(n.Alone(raw), Single(n, raw), rest, open, done, voids)
  {
    hide ReadsAs, Node.QName;
    match n.kind
    case Document => DocumentReads(n, raw, rest, open, done, voids);
    case Element => ElementReads(n, raw, rest, open, done, voids);
    case Attribute => VerbatimReads(n.rendered, rest, open, done, voids);
    case PI => InstructionReads(n, raw, rest, open, done, voids);
    case EntityRef => ReferenceReads(n, raw, rest, open, done, voids);
    case Other => ReadsNothing(rest, open, done, voids);
    case _ => ContentReads(n, raw, rest, open, done, voids);
  }

  // ---------------------------------------------------------------------------------------------------
  // Reading trees
  // ---------------------------------------------------------------------------------------------------

  /** A node around children that can be read. */
  lemma AroundReads(n: Node, ps: seq<Piece>, items: seq<Item>, rest: seq<Piece>, open: seq<Open>, done: seq<Item>,
                    voids: set<Tag>)
    requires ShowsChildren(n) && Clear(Around(n, items))
    requires n.kind == Element ==> Tag(n.prefix, n.name) !in voids
    requires forall o, d :: ReadsAs(ps, items, n.Closing() + rest, o, d, voids)
    ensures ReadsAs(n.Opening() + ps + n.Closing(), Around(n, items), rest, open, done, voids)
  {
    hide Read;
    if n.kind == Element {
      ElementAround(n, ps, items, rest, open, done, voids);
    } else {
      DocumentAround(n, ps, items, rest, open, done, voids);
    }
  }

  lemma ElementAround(n: Node, ps: seq<Piece>, items: seq<Item>, rest: seq<Piece>, open: seq<Open>, done: seq<Item>,
                      voids: set<Tag>)
    requires n.kind == Element && n.rendered != ":" && Tag(n.prefix, n.name) !in voids
    requires forall o, d :: ReadsAs(ps, items, n.Closing() + rest, o, d, voids)
    ensures ReadsAs(n.Opening() + ps + n.Closing(), Around(n, items), rest, open, done, voids)
  {
    hide Read, Node.Opening, Node.Closing;
    var o := Open(Tag(n.prefix, n.name), n.rendered, done);
    OpeningReads(n, ps + (n.Closing() + rest), open, done, voids);
    assert ReadsAs(ps, items, n.Closing() + rest, [o] + open, [], voids);
    ClosingReads(n, rest, o, open, [] + items, voids);
    assert [] + items == items;
    assert n.Opening() + ps + n.Closing() + rest == n.Opening() + (ps + (n.Closing() + rest));
  }

  lemma DocumentAround(n: Node, ps: seq<Piece>, items: seq<Item>, rest: seq<Piece>, open: seq<Open>, done: seq<Item>,
                       voids: set<Tag>)
    requires n.kind == Document && Clear(Around(n, items))
    requires forall o, d :: ReadsAs(ps, items, n.Closing() + rest, o, d, voids)
    ensures ReadsAs(n.Opening() + ps + n.Closing(), Around(n, items), rest, open, done, voids)
  {
    hide ReadsAs;
    var a, x := n.Opening(), if n.rendered == "" then [] else [Verbatim(n.rendered)];
    if n.rendered == "" {
      ReadsNothing(ps + (n.Closing() + rest), open, done, voids);
    } else {
      assert Around(n, items)[0] == x[0];
      VerbatimReads(n.rendered, ps + (n.Closing() + rest), open, done, voids);
    }
    ReadsBoth(a, x, ps, items, n.Closing() + rest, open, done, voids);
    VerbatimReads("\n", rest, open, done + (x + items), voids);
    ReadsBoth(a + ps, x + items, n.Closing(), [Verbatim("\n")], rest, open, done, voids);
  }

  /** Reading the intended output gives the tree back: every node with its name and content in its place, every
      element that is gone into opened and closed once, and every text escaped unless it is raw. */
  lemma {:induction false} SerReads(t: Tree, raw: bool, rest: seq<Piece>, open: seq<Open>, done: seq<Item>,
                                    voids: set<Tag>)
    requires VoidsKnown(t, voids) && Clear(Outline(t, raw))
    ensures ReadsAs(Ser(t, raw), Outline(t, raw), rest, open, done, voids)
    decreases t, 1
  {
    hide ReadsAs, Around, Single, Node.Opening, Node.Closing, Node.Alone;
    if t.Descends() {
      var kidsRaw := t.node.RawElement();
      ClearAround(t.node, OutlineKids(t.kids, kidsRaw));
      forall o, d
        ensures ReadsAs(SerKids(t.kids, kidsRaw), OutlineKids(t.kids, kidsRaw), t.node.Closing() + rest, o, d, voids)
      {
        SerKidsRead(t.kids, kidsRaw, t.node.Closing() + rest, o, d, voids);
      }
      AroundReads(t.node, SerKids(t.kids, kidsRaw), OutlineKids(t.kids, kidsRaw), rest, open, done, voids);
    } else {
      SingleReads(t.node, raw, rest, open, done, voids);
    }
  }

  lemma {:induction false} SerKidsRead(kids: seq<Tree>, raw: bool, rest: seq<Piece>, open: seq<Open>, done: seq<Item>,
                                       voids: set<Tag>)
    requires VoidsKnownKids(kids, voids) && Clear(OutlineKids(kids, raw))
    ensures ReadsAs(SerKids(kids, raw), OutlineKids(kids, raw), rest, open, done, voids)
    decreases kids, 0
  {
    hide ReadsAs, Outline, Ser;
    if kids == [] {
      ReadsNothing(rest, open, done, voids);
    } else {
      var a, x := Ser(kids[0], raw), Outline(kids[0], raw);
      ClearConcat(x, OutlineKids(kids[1..], raw));
      SerReads(kids[0], raw, SerKids(kids[1..], raw) + rest, open, done, voids);
      SerKidsRead(kids[1..], raw, rest, open, done + x, voids);
      ReadsBoth(a, x, SerKids(kids[1..], raw), OutlineKids(kids[1..], raw), rest, open, done, voids);
    }
  }

  lemma ClearAround(n: Node, items: seq<Item>)
    requires n.kind == Document || n.kind == Element
    requires Clear(Around(n, items))
    ensures Clear(items)
  {
    if n.kind == Document {
      ClearConcat(if n.rendered == "" then [] else [Verbatim(n.rendered)], items);
      ClearConcat((if n.rendered == "" then [] else [Verbatim(n.rendered)]) + items, [Verbatim("\n")]);
    }
  }

  /** The same for the output as it is, with the flag that strays. */
  lemma {:induction false} FlaggedReads(t: Tree, inside: bool, rest: seq<Piece>, open: seq<Open>, done: seq<Item>,
                                        voids: set<Tag>)
    requires VoidsKnown(t, voids) && Clear(Actual(t, inside))
    ensures ReadsAs(Flagged(t, inside), Actual(t, inside), rest, open, done, voids)
    decreases t, 1
  {
    hide ReadsAs, Around, Single, Node.Opening, Node.Closing, Node.Alone;
    if t.Descends() {
      var below := RawInside(t.node, inside);
      ClearAround(t.node, ActualKids(t.kids, below));
      forall o, d
        ensures ReadsAs(FlaggedKids(t.kids, below), ActualKids(t.kids, below), t.node.Closing() + rest, o, d, voids)
      {
        FlaggedKidsRead(t.kids, below, t.node.Closing() + rest, o, d, voids);
      }
      AroundReads(t.node, FlaggedKids(t.kids, below), ActualKids(t.kids, below), rest, open, done, voids);
    } else {
      SingleReads(t.node, inside, rest, open, done, voids);
    }
  }

  lemma {:induction false} FlaggedKidsRead(kids: seq<Tree>, inside: bool, rest: seq<Piece>, open: seq<Open>,
                                           done: seq<Item>, voids: set<Tag>)
    requires VoidsKnownKids(kids, voids) && Clear(ActualKids(kids, inside))
    ensures ReadsAs(FlaggedKids(kids, inside), ActualKids(kids, inside), rest, open, done, voids)
    decreases kids, 0
  {
    hide ReadsAs, Actual, Flagged;
    if kids == [] {
      ReadsNothing(rest, open, done, voids);
    } else {
      var a, x, next := Flagged(kids[0], inside), Actual(kids[0], inside), RawAfter(kids[0], inside);
      assert ActualKids(kids, inside) == x + ActualKids(kids[1..], next);
      ClearConcat(x, ActualKids(kids[1..], next));
      FlaggedReads(kids[0], inside, FlaggedKids(kids[1..], next) + rest, open, done, voids);
      FlaggedKidsRead(kids[1..], next, rest, open, done + x, voids);
      ReadsBoth(a, x, FlaggedKids(kids[1..], next), ActualKids(kids[1..], next), rest, open, done, voids);
    }
  }

  /** The whole output, from a reader that has nothing open to one that has nothing open. */
  lemma OutputIsRead(t: Tree, voids: set<Tag>)
    requires VoidsKnown(t, voids)
    ensures Clear(Outline(t, false)) ==> Read(Ser(t, false), [], [], voids) == Some(Outline(t, false))
    ensures Clear(Actual(t, false)) ==> Read(Flagged(t, false), [], [], voids) == Some(Actual(t, false))
    ensures Clear(Outline(t, false)) && RawHoldsText(t) ==>
              Read(Flagged(t, false), [], [], voids) == Some(Outline(t, false))
  {
    hide Outline, Actual, Ser, Flagged, Clear, VoidsKnown, RawHoldsText, Read;
    if Clear(Outline(t, false)) {
      SerReads(t, false, [], [], [], voids);
      ReadToTheEnd(Ser(t, false), Outline(t, false), voids);
    }
    if Clear(Actual(t, false)) {
      FlaggedReads(t, false, [], [], [], voids);
      ReadToTheEnd(Flagged(t, false), Actual(t, false), voids);
    }
    if RawHoldsText(t) {
      RawTextAgrees(t, false);
    }
  }

  lemma ReadToTheEnd(ps: seq<Piece>, items: seq<Item>, voids: set<Tag>)
    requires ReadsAs(ps, items, [], [], [], voids)
    ensures Read(ps, [], [], voids) == Some(items)
  {
    assert ps + [] == ps && [] + items == items;
  }
}
