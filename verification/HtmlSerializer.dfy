/** The stackless tree walk `htmlNodeDumpInternal` (deps/libxml2/HTMLtree.c:831-1116), called without an encoding and
    without formatting.

    The output is the sequence of writes to the output buffer.  Tag information and the text that a document type,
    a namespace declaration or an attribute renders to come with the nodes.  Escaping is any function on strings. */
module HtmlSerializer {
  import opened Wrappers
  import opened Seqs

  datatype Kind = Document | Element | Attribute | Text | Comment | PI | EntityRef | Preserve | Other

  /** One write: Write puts a string out as it is, Serialize escapes it. */
  datatype Piece = Write(s: string) | Serialize(s: string)

  /** The strings that are written, with esc for the escaping of text. */
  function Rendered(ps: seq<Piece>, esc: string -> string): (r: seq<string>)
    ensures |r| == |ps|
  {
    seq(|ps|, i requires 0 <= i < |ps| => match ps[i] case Write(s) => s case Serialize(s) => esc(s))
  }

  lemma RenderedConcat(a: seq<Piece>, b: seq<Piece>, esc: string -> string)
    ensures Rendered(a + b, esc) == Rendered(a, esc) + Rendered(b, esc)
  {
  }

  class Node {
    const kind: Kind
    const prefix: Option<string>
    const name: string
    const content: Option<string>
    /** Document type, namespace declarations and attributes as they are written; the attribute itself for one. */
    const rendered: string
    /** The text node must not be escaped (its name is xmlStringTextNoenc). */
    const noenc: bool
    /** From the table of HTML elements, which has no elements with a namespace. */
    const isVoid: bool
    const isRawText: bool
    var parent: Node?
    var children: Node?
    var next: Node?

    function QName(): seq<Piece> {
      (if prefix.Some? then [Write(prefix.value), Write(":")] else []) + [Write(name)]
    }

    /** What is written before the children of a node that is descended into. */
    function Opening(): seq<Piece> {
      if kind == Document then (if rendered != "" then [Write(rendered)] else [])
      else [Write("<")] + QName() + [Write(rendered)] + [Write(">")]
    }

    function Closing(): seq<Piece> {
      if kind == Document then [Write("\n")] else [Write("</")] + QName() + [Write(">")]
    }

    /** What is written for a node that is not descended into. */
    function Alone(raw: bool): seq<Piece> {
      match kind
      case Document => (if rendered != "" then [Write(rendered)] else []) + [Write("\n")]
      case Element =>
        [Write("<")] + QName() + [Write(rendered)]
        + (if isVoid then [Write(">")] else [Write("></")] + QName() + [Write(">")])
      case Attribute => [Write(rendered)]
      case Text =>
        if content.None? then [] else if noenc || raw then [Write(content.value)] else [Serialize(content.value)]
      case Comment => if content.None? then [] else [Write("<!--"), Write(content.value), Write("-->")]
      case PI =>
        [Write("<?"), Write(name)]
        + (if content.Some? then [Write(" "), Write(content.value)] else []) + [Write(">")]
      case EntityRef => [Write("&"), Write(name), Write(";")]
      case Preserve => if content.None? then [] else [Write(content.value)]
      case Other => []
    }

    /** The raw flag decides how this node is written. */
    predicate Encodable() {
      kind == Text && content.Some? && !noenc
    }

    /** And it makes a difference. */
    predicate Affected(esc: string -> string) {
      Encodable() && esc(content.value) != content.value
    }

    predicate RawElement() {
      kind == Element && isRawText
    }
  }

  /** The shape of the tree below a node. */
  datatype Tree = Tree(node: Node, kids: seq<Tree>) {
    predicate Descends() {
      kids != [] && (node.kind == Document || (node.kind == Element && !node.isVoid))
    }
  }

  // ---------------------------------------------------------------------------------------------------
  // The recursive serializer
  // ---------------------------------------------------------------------------------------------------

  /** Text is raw exactly when its parent is a raw-text element. */
  function Ser(t: Tree, raw: bool): seq<Piece>
    decreases t, 1
  {
    if t.Descends() then t.node.Opening() + SerKids(t.kids, t.node.RawElement()) + t.node.Closing()
    else t.node.Alone(raw)
  }

  function SerKids(kids: seq<Tree>, raw: bool): seq<Piece>
    decreases kids, 0
  {
    if kids == [] then [] else Ser(kids[0], raw) + SerKids(kids[1..], raw)
  }

  // ---------------------------------------------------------------------------------------------------
  // The same with the one flag that the loop carries through the tree
  // ---------------------------------------------------------------------------------------------------

  /** The flag behind t: cleared by leaving a node that was descended into. */
  function RawAfter(t: Tree, raw: bool): bool {
    raw && !t.Descends()
  }

  function RawInside(n: Node, raw: bool): bool {
    raw || n.RawElement()
  }

  function Flagged(t: Tree, raw: bool): seq<Piece>
    decreases t, 1
  {
    if t.Descends() then t.node.Opening() + FlaggedKids(t.kids, RawInside(t.node, raw)) + t.node.Closing()
    else t.node.Alone(raw)
  }

  function FlaggedKids(kids: seq<Tree>, raw: bool): seq<Piece>
    decreases kids, 0
  {
    if kids == [] then [] else Flagged(kids[0], raw) + FlaggedKids(kids[1..], RawAfter(kids[0], raw))
  }

  /** At every text that the flag matters for, the carried flag is the one of its parent. */
  predicate FlagsAgree(t: Tree, carried: bool, raw: bool, esc: string -> string)
    decreases t, 1
  {
    if t.Descends() then FlagsAgreeKids(t.kids, RawInside(t.node, carried), t.node.RawElement(), esc)
    else t.node.Affected(esc) ==> carried == raw
  }

  predicate FlagsAgreeKids(kids: seq<Tree>, carried: bool, raw: bool, esc: string -> string)
    decreases kids, 0
  {
    kids == [] ||
    (FlagsAgree(kids[0], carried, raw, esc) && FlagsAgreeKids(kids[1..], RawAfter(kids[0], carried), raw, esc))
  }

  /** Two outputs are the same if and only if both parts are. */
  lemma ConcatEqual(a: seq<Piece>, b: seq<Piece>, a': seq<Piece>, b': seq<Piece>, esc: string -> string)
    requires |a| == |a'|
    ensures Rendered(a + b, esc) == Rendered(a' + b', esc)
            <==> Rendered(a, esc) == Rendered(a', esc) && Rendered(b, esc) == Rendered(b', esc)
  {
    RenderedConcat(a, b, esc);
    RenderedConcat(a', b', esc);
    var x, y, x', y' := Rendered(a, esc), Rendered(b, esc), Rendered(a', esc), Rendered(b', esc);
    assert (x + y)[..|a|] == x && (x' + y')[..|a|] == x' && (x + y)[|a|..] == y && (x' + y')[|a|..] == y';
  }

  /** The carried flag gives the intended output exactly when it agrees at every text. */
  lemma {:induction false} FlaggedExactly(t: Tree, carried: bool, raw: bool, esc: string -> string)
    ensures |Flagged(t, carried)| == |Ser(t, raw)|
    ensures Rendered(Flagged(t, carried), esc) == Rendered(Ser(t, raw), esc) <==> FlagsAgree(t, carried, raw, esc)
    decreases t, 1
  {
    hide Rendered, Node.Opening, Node.Closing, Node.Alone, Node.Affected;
    if t.Descends() {
      var a, b := FlaggedKids(t.kids, RawInside(t.node, carried)), SerKids(t.kids, t.node.RawElement());
      FlaggedKidsExactly(t.kids, RawInside(t.node, carried), t.node.RawElement(), esc);
      ConcatEqual(t.node.Opening(), a, t.node.Opening(), b, esc);
      ConcatEqual(t.node.Opening() + a, t.node.Closing(), t.node.Opening() + b, t.node.Closing(), esc);
    } else {
      AloneExactly(t.node, carried, raw, esc);
    }
  }

  lemma AloneExactly(n: Node, carried: bool, raw: bool, esc: string -> string)
    ensures |n.Alone(carried)| == |n.Alone(raw)|
    ensures Rendered(n.Alone(carried), esc) == Rendered(n.Alone(raw), esc) <==> (n.Affected(esc) ==> carried == raw)
  {
    if n.Encodable() && carried != raw {
      var s := n.content.value;
      assert Rendered([Write(s)], esc)[0] == s && Rendered([Serialize(s)], esc)[0] == esc(s);
      assert Rendered([Write(s)], esc) == [s] && Rendered([Serialize(s)], esc) == [esc(s)];
    }
  }

  lemma {:induction false} FlaggedKidsExactly(kids: seq<Tree>, carried: bool, raw: bool, esc: string -> string)
    ensures |FlaggedKids(kids, carried)| == |SerKids(kids, raw)|
    ensures Rendered(FlaggedKids(kids, carried), esc) == Rendered(SerKids(kids, raw), esc)
            <==> FlagsAgreeKids(kids, carried, raw, esc)
    decreases kids, 0
  {
    hide Rendered, RawAfter;
    if kids != [] {
      FlaggedExactly(kids[0], carried, raw, esc);
      FlaggedKidsExactly(kids[1..], RawAfter(kids[0], carried), raw, esc);
      ConcatEqual(Flagged(kids[0], carried), FlaggedKids(kids[1..], RawAfter(kids[0], carried)),
                  Ser(kids[0], raw), SerKids(kids[1..], raw), esc);
    }
  }

  // ---------------------------------------------------------------------------------------------------
  // When the flag agrees, seen on the tree
  // ---------------------------------------------------------------------------------------------------

  /** The path leads down to a node that is written. */
  predicate Reaches(t: Tree, path: seq<nat>) {
    path == [] || (t.Descends() && path[0] < |t.kids| && Reaches(t.kids[path[0]], path[1..]))
  }

  function NodeAt(t: Tree, path: seq<nat>): Node
    requires Reaches(t, path)
  {
    if path == [] then t.node else NodeAt(t.kids[path[0]], path[1..])
  }

  /** No sibling in front of number i holds anything. */
  predicate NoneBefore(kids: seq<Tree>, i: nat)
    requires i < |kids|
  {
    forall k | 0 <= k < i :: !kids[k].Descends()
  }

  /** On the way down the path, no sibling in front of it holds anything. */
  predicate Straight(t: Tree, path: seq<nat>)
    requires Reaches(t, path)
  {
    path == [] || (NoneBefore(t.kids, path[0]) && Straight(t.kids[path[0]], path[1..]))
  }

  /** Some raw-text element leads straight down to the node at the path. */
  predicate BelowRaw(t: Tree, path: seq<nat>)
    requires Reaches(t, path)
  {
    path != [] &&
    ((t.node.RawElement() && Straight(t, path)) || BelowRaw(t.kids[path[0]], path[1..]))
  }

  /** The parent of the node at the path is a raw-text element; raw for the node at the top. */
  predicate InRaw(t: Tree, path: seq<nat>, raw: bool)
    requires Reaches(t, path)
  {
    if path == [] then raw else InRaw(t.kids[path[0]], path[1..], t.node.RawElement())
  }

  /** Every text that escaping changes is a child of a raw-text element if and only if one leads straight down to it;
      carried is the flag in front of the tree. */
  ghost predicate InPlace(t: Tree, carried: bool, raw: bool, esc: string -> string) {
    forall path | Reaches(t, path) && NodeAt(t, path).Affected(esc) ::
      InRaw(t, path, raw) <==> (carried && Straight(t, path)) || BelowRaw(t, path)
  }

  ghost predicate KidsInPlace(kids: seq<Tree>, carried: bool, raw: bool, esc: string -> string) {
    forall i | 0 <= i < |kids| :: InPlace(kids[i], carried && NoneBefore(kids, i), raw, esc)
  }

  lemma DownOne(t: Tree, i: nat, q: seq<nat>, carried: bool, raw: bool, esc: string -> string)
    requires t.Descends() && i < |t.kids|
    ensures var p, c := [i] + q, RawInside(t.node, carried) && NoneBefore(t.kids, i);
      && (Reaches(t, p) <==> Reaches(t.kids[i], q))
      && (Reaches(t, p) ==>
            && NodeAt(t, p) == NodeAt(t.kids[i], q) && InRaw(t, p, raw) == InRaw(t.kids[i], q, t.node.RawElement())
            && ((carried && Straight(t, p)) || BelowRaw(t, p)
                <==> (c && Straight(t.kids[i], q)) || BelowRaw(t.kids[i], q)))
  {
    hide NoneBefore, Node.RawElement;
    assert ([i] + q)[1..] == q;
  }

  lemma InPlaceDown(t: Tree, carried: bool, raw: bool, esc: string -> string)
    requires t.Descends()
    ensures InPlace(t, carried, raw, esc)
            <==> KidsInPlace(t.kids, RawInside(t.node, carried), t.node.RawElement(), esc)
  {
    hide Straight, BelowRaw, InRaw, NoneBefore, RawInside, Node.RawElement;
    if InPlace(t, carried, raw, esc) {
      forall i, q | 0 <= i < |t.kids| && Reaches(t.kids[i], q) && NodeAt(t.kids[i], q).Affected(esc)
        ensures InRaw(t.kids[i], q, t.node.RawElement())
                <==> (RawInside(t.node, carried) && NoneBefore(t.kids, i) && Straight(t.kids[i], q))
                     || BelowRaw(t.kids[i], q)
      {
        DownOne(t, i, q, carried, raw, esc);
      }
    }
    if KidsInPlace(t.kids, RawInside(t.node, carried), t.node.RawElement(), esc) {
      forall path | Reaches(t, path) && NodeAt(t, path).Affected(esc)
        ensures InRaw(t, path, raw) <==> (carried && Straight(t, path)) || BelowRaw(t, path)
      {
        if path != [] {
          assert path == [path[0]] + path[1..];
          assert InPlace(t.kids[path[0]], RawInside(t.node, carried) && NoneBefore(t.kids, path[0]),
                         t.node.RawElement(), esc);
          DownOne(t, path[0], path[1..], carried, raw, esc);
        }
      }
    }
  }

  lemma InPlaceLeaf(t: Tree, carried: bool, raw: bool, esc: string -> string)
    requires !t.Descends()
    ensures InPlace(t, carried, raw, esc) <==> (t.node.Affected(esc) ==> carried == raw)
  {
    assert Reaches(t, []) && NodeAt(t, []) == t.node;
  }

  /** Kids one after the other. */
  lemma KidsInPlaceStep(kids: seq<Tree>, carried: bool, raw: bool, esc: string -> string)
    requires kids != []
    ensures KidsInPlace(kids, carried, raw, esc)
            <==> InPlace(kids[0], carried, raw, esc) && KidsInPlace(kids[1..], RawAfter(kids[0], carried), raw, esc)
  {
    hide InPlace;
    var rest := kids[1..];
    forall i | 0 <= i < |rest|
      ensures rest[i] == kids[i + 1]
      ensures (carried && NoneBefore(kids, i + 1)) == (RawAfter(kids[0], carried) && NoneBefore(rest, i))
    {
      if NoneBefore(kids, i + 1) {
        forall k | 0 <= k < i
          ensures !rest[k].Descends()
        {
          assert rest[k] == kids[k + 1];
        }
      }
      if NoneBefore(rest, i) && !kids[0].Descends() {
        forall k | 0 <= k < i + 1
          ensures !kids[k].Descends()
        {
          assert k > 0 ==> rest[k - 1] == kids[k];
        }
      }
    }
    assert NoneBefore(kids, 0);
    if InPlace(kids[0], carried, raw, esc) && KidsInPlace(rest, RawAfter(kids[0], carried), raw, esc) {
      forall i | 0 <= i < |kids|
        ensures InPlace(kids[i], carried && NoneBefore(kids, i), raw, esc)
      {
        if i > 0 {
          assert rest[i - 1] == kids[i];
          assert InPlace(rest[i - 1], RawAfter(kids[0], carried) && NoneBefore(rest, i - 1), raw, esc);
        }
      }
    }
    if KidsInPlace(kids, carried, raw, esc) {
      forall i | 0 <= i < |rest|
        ensures InPlace(rest[i], RawAfter(kids[0], carried) && NoneBefore(rest, i), raw, esc)
      {
        assert InPlace(kids[i + 1], carried && NoneBefore(kids, i + 1), raw, esc);
      }
    }
  }

  /** The flag agrees everywhere if and only if every text is in its place. */
  lemma {:induction false} AgreeIffInPlace(t: Tree, carried: bool, raw: bool, esc: string -> string)
    ensures FlagsAgree(t, carried, raw, esc) <==> InPlace(t, carried, raw, esc)
    decreases t, 1
  {
    hide InPlace, KidsInPlace, RawInside, Node.RawElement, Node.Affected;
    if t.Descends() {
      AgreeIffKidsInPlace(t.kids, RawInside(t.node, carried), t.node.RawElement(), esc);
      InPlaceDown(t, carried, raw, esc);
    } else {
      InPlaceLeaf(t, carried, raw, esc);
    }
  }

  lemma {:induction false} AgreeIffKidsInPlace(kids: seq<Tree>, carried: bool, raw: bool, esc: string -> string)
    ensures FlagsAgreeKids(kids, carried, raw, esc) <==> KidsInPlace(kids, carried, raw, esc)
    decreases kids, 0
  {
    hide InPlace, RawAfter;
    if kids != [] {
      AgreeIffInPlace(kids[0], carried, raw, esc);
      AgreeIffKidsInPlace(kids[1..], RawAfter(kids[0], carried), raw, esc);
      KidsInPlaceStep(kids, carried, raw, esc);
    }
  }

  /** What is written is the intended output, write by write, if and only if every text is in its place. */
  lemma FlaggedIffInPlace(t: Tree, esc: string -> string)
    ensures Rendered(Flagged(t, false), esc) == Rendered(Ser(t, false), esc) <==> InPlace(t, false, false, esc)
  {
    FlaggedExactly(t, false, false, esc);
    AgreeIffInPlace(t, false, false, esc);
  }

  /** Raw-text elements hold nothing that is descended into, as in any tree made by an HTML parser. */
  predicate RawHoldsText(t: Tree)
    decreases t, 1
  {
    t.Descends() ==> (t.node.RawElement() ==> forall k | k in t.kids :: !k.Descends()) && RawHoldsTextKids(t.kids)
  }

  predicate RawHoldsTextKids(kids: seq<Tree>)
    decreases kids, 0
  {
    kids == [] || (RawHoldsText(kids[0]) && RawHoldsTextKids(kids[1..]))
  }

  lemma {:induction false} RawTextAgrees(t: Tree, raw: bool)
    requires RawHoldsText(t) && (raw ==> !t.Descends())
    ensures Flagged(t, raw) == Ser(t, raw)
    decreases t, 1
  {
    hide Node.Opening, Node.Closing, Node.Alone;
    if t.Descends() {
      RawTextAgreesKids(t.kids, t.node.RawElement());
    }
  }

  lemma {:induction false} RawTextAgreesKids(kids: seq<Tree>, raw: bool)
    requires RawHoldsTextKids(kids) && (raw ==> forall k | k in kids :: !k.Descends())
    ensures FlaggedKids(kids, raw) == SerKids(kids, raw)
    decreases kids, 0
  {
    if kids != [] {
      RawTextAgrees(kids[0], raw);
      RawTextAgreesKids(kids[1..], raw);
    }
  }

  /** A raw-text element that holds an element: the text below is raw, the text behind is not, both wrongly. */
  lemma RawFlagStrays(script: Node, inner: Node, below: Node, behind: Node)
    requires script.RawElement() && !script.isVoid
    requires inner.kind == Element && !inner.isVoid && !inner.RawElement()
    requires below.Encodable() && behind.Encodable()
    ensures var t := Tree(script, [Tree(inner, [Tree(below, [])]), Tree(behind, [])]);
            && Flagged(t, false)
               == script.Opening() + inner.Opening() + [Write(below.content.value)] + inner.Closing()
                  + [Serialize(behind.content.value)] + script.Closing()
            && Ser(t, false)
               == script.Opening() + inner.Opening() + [Serialize(below.content.value)] + inner.Closing()
                  + [Write(behind.content.value)] + script.Closing()
  {
    hide Node.Opening, Node.Closing;
    var b, a, i := Tree(below, []), Tree(behind, []), Tree(inner, [Tree(below, [])]);
    OneKid(b, true, false);
    OneKid(a, false, true);
    var kids := [i, a];
    assert kids[1..] == [a];
    assert i.Descends() && !RawAfter(i, true);
    assert Flagged(i, true) == inner.Opening() + [Write(below.content.value)] + inner.Closing();
    assert Ser(i, true) == inner.Opening() + [Serialize(below.content.value)] + inner.Closing();
    assert FlaggedKids(kids, true) == Flagged(i, true) + FlaggedKids([a], false);
    assert SerKids(kids, true) == Ser(i, true) + SerKids([a], true);
  }

  lemma OneKid(t: Tree, carried: bool, raw: bool)
    ensures FlaggedKids([t], carried) == Flagged(t, carried) && SerKids([t], raw) == Ser(t, raw)
  {
    assert [t][1..] == [];
  }

  // ---------------------------------------------------------------------------------------------------
  // The loop over child, sibling and parent pointers
  // ---------------------------------------------------------------------------------------------------

  ghost function FirstNode(kids: seq<Tree>): Node? {
    if kids == [] then null else kids[0].node
  }

  /** The pointers of the nodes spell out the shape t below parent. */
  ghost predicate Linked(t: Tree, parent: Node?, nodes: set<Node>)
    reads nodes
    decreases t, 1
  {
    && t.node in nodes && t.node.parent == parent
    && t.node.children == FirstNode(t.kids) && LinkedKids(t.kids, t.node, nodes)
  }

  ghost predicate LinkedKids(kids: seq<Tree>, parent: Node, nodes: set<Node>)
    reads nodes
    decreases kids, 0
  {
    kids == [] ||
    (&& Linked(kids[0], parent, nodes) && kids[0].node.next == FirstNode(kids[1..])
     && LinkedKids(kids[1..], parent, nodes))
  }

  predicate Absent(n: Node, kids: seq<Tree>)
    decreases kids
  {
    kids == [] || (kids[0].node != n && Absent(n, kids[0].kids) && Absent(n, kids[1..]))
  }

  function Size(kids: seq<Tree>): nat
    decreases kids
  {
    if kids == [] then 0 else 1 + Size(kids[0].kids) + Size(kids[1..])
  }

  /** A parent that is open, and its children behind the current one. */
  datatype Frame = Frame(parent: Node, rest: seq<Tree>)

  /** Where n stands below root: its open ancestors, innermost first. */
  ghost predicate Standing(n: Node, ctx: seq<Frame>, root: Node, nodes: set<Node>)
    reads nodes
    decreases ctx
  {
    n in nodes &&
    if ctx == [] then n == root
    else
      && n != root && n.parent == ctx[0].parent
      && n.next == FirstNode(ctx[0].rest)
      && LinkedKids(ctx[0].rest, ctx[0].parent, nodes) && Absent(root, ctx[0].rest)
      && Standing(ctx[0].parent, ctx[1..], root, nodes)
  }

  /** What is still to be written after the current node. */
  function Pending(ctx: seq<Frame>, raw: bool): seq<Piece>
    decreases ctx
  {
    if ctx == [] then []
    else FlaggedKids(ctx[0].rest, raw) + ctx[0].parent.Closing() + Pending(ctx[1..], false)
  }

  function Ahead(ctx: seq<Frame>): nat
    decreases ctx
  {
    if ctx == [] then 0 else Size(ctx[0].rest) + Ahead(ctx[1..])
  }

  /** The switch over the type of the current node: what it writes, and whether it goes down to the children. */
  method Enter(cur: Node, isRaw: bool) returns (buf: seq<Piece>, descend: bool)
    ensures descend <==> cur.children != null && (cur.kind == Document || (cur.kind == Element && !cur.isVoid))
    ensures descend ==> buf == cur.Opening()
    ensures !descend ==> buf == cur.Alone(isRaw)
  {
    buf, descend := [], false;
    match cur.kind
    case Document =>
      if cur.rendered != "" {
        buf := buf + [Write(cur.rendered)];
      }
      if cur.children != null {
        descend := true;
      } else {
        buf := buf + [Write("\n")];
      }
    case Element =>
      buf, descend := EnterElement(cur);
    case Attribute =>
      buf := [Write(cur.rendered)];
    case Text =>
      if cur.content.Some? {
        if cur.noenc || isRaw {
          buf := [Write(cur.content.value)];
        } else {
          buf := [Serialize(cur.content.value)];
        }
      }
    case Comment =>
      if cur.content.Some? {
        buf := [Write("<!--"), Write(cur.content.value), Write("-->")];
      }
    case PI =>
      buf := [Write("<?"), Write(cur.name)];
      if cur.content.Some? {
        buf := buf + [Write(" "), Write(cur.content.value)];
      }
      buf := buf + [Write(">")];
    case EntityRef =>
      buf := [Write("&"), Write(cur.name), Write(";")];
    case Preserve =>
      if cur.content.Some? {
        buf := [Write(cur.content.value)];
      }
    case Other =>
  }

  method EnterElement(cur: Node) returns (buf: seq<Piece>, descend: bool)
    requires cur.kind == Element
    ensures descend <==> cur.children != null && !cur.isVoid
    ensures buf == if descend then cur.Opening() else cur.Alone(false)
  {
    hide Node.QName;
    descend := false;
    buf := [Write("<")];
    buf := WriteName(cur, buf);
    buf := buf + [Write(cur.rendered)];
    ghost var start := buf;
    if cur.isVoid {
      buf := buf + [Write(">")];
    } else if cur.children == null {
      buf := buf + [Write("></")];
      buf := WriteName(cur, buf);
      buf := buf + [Write(">")];
      assert buf == start + ([Write("></")] + cur.QName() + [Write(">")]);
    } else {
      buf := buf + [Write(">")];
      descend := true;
    }
  }

  method WriteName(cur: Node, buf0: seq<Piece>) returns (buf: seq<Piece>)
    ensures buf == buf0 + cur.QName()
  {
    buf := buf0;
    if cur.prefix.Some? {
      buf := buf + [Write(cur.prefix.value)];
      buf := buf + [Write(":")];
    }
    buf := buf + [Write(cur.name)];
  }

  method Leave(cur: Node) returns (buf: seq<Piece>)
    ensures buf == cur.Closing()
  {
    if cur.kind == Document {
      return [Write("\n")];
    }
    buf := [Write("</")];
    buf := WriteName(cur, buf);
    buf := buf + [Write(">")];
  }

  /** Going down to the first child: nothing is lost from what is still to be written. */
  lemma GoDown(at: Tree, ctx: seq<Frame>, raw: bool, root: Node, nodes: set<Node>)
    requires at.Descends() && Linked(at, at.node.parent, nodes) && Absent(root, at.kids)
    requires Standing(at.node, ctx, root, nodes)
    ensures var kid, open, inside := at.kids[0], [Frame(at.node, at.kids[1..])] + ctx, RawInside(at.node, raw);
            && Linked(kid, at.node, nodes) && Absent(root, kid.kids) && Standing(kid.node, open, root, nodes)
            && Size(kid.kids) + Ahead(open) < Size(at.kids) + Ahead(ctx)
            && Flagged(at, raw) + Pending(ctx, RawAfter(at, raw))
               == at.node.Opening() + (Flagged(kid, inside) + Pending(open, RawAfter(kid, inside)))
  {
    var kid, rest, inside := at.kids[0], at.kids[1..], RawInside(at.node, raw);
    var open := [Frame(at.node, rest)] + ctx;
    assert open[1..] == ctx;
    var a, b, c, d, e := at.node.Opening(), Flagged(kid, inside), FlaggedKids(rest, RawAfter(kid, inside)),
                         at.node.Closing(), Pending(ctx, false);
    assert Pending(open, RawAfter(kid, inside)) == c + d + e;
    Regroup(a, b, c, d, e);
  }

  lemma Regroup(a: seq<Piece>, b: seq<Piece>, c: seq<Piece>, d: seq<Piece>, e: seq<Piece>)
    ensures (a + (b + c) + d) + e == a + (b + (c + d + e))
  {
  }

  /** From the last child of a node that is not the root, the walk goes up and closes the parent. */
  lemma GoUp(n: Node, ctx: seq<Frame>, raw: bool, root: Node, nodes: set<Node>)
    requires Standing(n, ctx, root, nodes)
    ensures n in nodes && (n == root <==> ctx == []) && (ctx == [] ==> Pending(ctx, raw) == [])
    ensures n != root ==> n.parent == ctx[0].parent && (n.next == null <==> ctx[0].rest == [])
    ensures n != root && n.next == null ==>
      && Standing(ctx[0].parent, ctx[1..], root, nodes)
      && ctx[0].parent.parent == (if ctx[1..] == [] then root.parent else ctx[1..][0].parent)
      && Pending(ctx, raw) == ctx[0].parent.Closing() + Pending(ctx[1..], false)
      && Ahead(ctx[1..]) <= Ahead(ctx)
  {
    hide Absent, Node.Closing;
    if ctx != [] && n.next == null {
      assert [] + ctx[0].parent.Closing() == ctx[0].parent.Closing();
    }
  }

  lemma GoBeside(n: Node, ctx: seq<Frame>, raw: bool, root: Node, nodes: set<Node>)
    requires Standing(n, ctx, root, nodes) && n != root && n.next != null
    ensures ctx != [] && ctx[0].rest != []
    ensures var at, beside := ctx[0].rest[0], [Frame(ctx[0].parent, ctx[0].rest[1..])] + ctx[1..];
      && n.next == at.node && Linked(at, ctx[0].parent, nodes) && Absent(root, at.kids)
      && Standing(at.node, beside, root, nodes)
      && Size(at.kids) + Ahead(beside) < Ahead(ctx)
      && Flagged(at, raw) + Pending(beside, RawAfter(at, raw)) == Pending(ctx, raw)
  {
    hide Flagged, RawAfter, Node.Closing;
    var rest, up := ctx[0].rest, ctx[1..];
    var beside := [Frame(ctx[0].parent, rest[1..])] + up;
    assert beside[0] == Frame(ctx[0].parent, rest[1..]) && beside[1..] == up;
    assert Linked(rest[0], ctx[0].parent, nodes) && rest[0].node.next == FirstNode(rest[1..]);
    assert LinkedKids(rest[1..], ctx[0].parent, nodes) && Absent(root, rest[1..]) && rest[0].node != root;
    assert Standing(ctx[0].parent, up, root, nodes);
    assert Standing(rest[0].node, beside, root, nodes);
    hide Standing, Linked, LinkedKids, Absent;
    var a, b, c, d := Flagged(rest[0], raw), FlaggedKids(rest[1..], RawAfter(rest[0], raw)), ctx[0].parent.Closing(),
                      Pending(up, false);
    assert Pending(ctx, raw) == (a + b) + c + d;
    assert Pending(beside, RawAfter(rest[0], raw)) == b + c + d;
    hide Pending, FlaggedKids;
    assert (a + b) + c + d == a + (b + c + d);
  }

  /** The inner loop: on to the next sibling, or up, closing what is left, until the root is reached. */
  method Ascend(cur0: Node, parent0: Node?, isRaw0: bool, root: Node,
                ghost at0: Tree, ghost ctx0: seq<Frame>, ghost nodes: set<Node>)
    returns (done: bool, cur: Node, parent: Node?, isRaw: bool, text: seq<Piece>, ghost at: Tree, ghost ctx: seq<Frame>)
    requires Standing(cur0, ctx0, root, nodes)
    requires parent0 == if ctx0 == [] then root.parent else ctx0[0].parent
    ensures done ==> text == Pending(ctx0, isRaw0)
    ensures !done ==> cur == at.node && Linked(at, parent, nodes) && Absent(root, at.kids)
    ensures !done ==> Standing(cur, ctx, root, nodes) && parent == if ctx == [] then root.parent else ctx[0].parent
    ensures !done ==> Size(at.kids) + Ahead(ctx) < Ahead(ctx0)
    ensures !done ==> text + (Flagged(at, isRaw) + Pending(ctx, RawAfter(at, isRaw))) == Pending(ctx0, isRaw0)
  {
    hide Standing, Pending, Ahead, Size, Linked, LinkedKids, Flagged, FlaggedKids, RawAfter, Absent, FirstNode;
    done, cur, parent, isRaw, text, at, ctx := false, cur0, parent0, isRaw0, [], at0, ctx0;
    while true
      invariant Standing(cur, ctx, root, nodes)
      invariant parent == if ctx == [] then root.parent else ctx[0].parent
      invariant text + Pending(ctx, isRaw) == Pending(ctx0, isRaw0)
      invariant Ahead(ctx) <= Ahead(ctx0)
      decreases |ctx|
    {
      GoUp(cur, ctx, isRaw, root, nodes);
      if cur == root {
        return true, cur, parent, isRaw, text, at, ctx;
      }
      if cur.next != null {
        GoBeside(cur, ctx, isRaw, root, nodes);
        cur := cur.next;
        at, ctx := ctx[0].rest[0], [Frame(ctx[0].parent, ctx[0].rest[1..])] + ctx[1..];
        return false, cur, parent, isRaw, text, at, ctx;
      }
      ghost var was := text;
      var closing := Leave(parent);
      ConcatAssoc(was, closing, Pending(ctx[1..], false));
      assert parent == ctx[0].parent;
      isRaw := false;
      cur := parent;
      parent := cur.parent;
      ctx := ctx[1..];
      text := text + closing;
    }
  }

  /** `htmlNodeDumpInternal` on a well-linked tree: what it writes, and exactly when that is the intended output. */
  method NodeDumpInternal(root: Node, ghost t: Tree, ghost nodes: set<Node>, ghost esc: string -> string)
    returns (buf: seq<Piece>)
    requires t.node == root && Linked(t, root.parent, nodes) && Absent(root, t.kids)
    ensures buf == Flagged(t, false)
    ensures Rendered(buf, esc) == Rendered(Ser(t, false), esc) <==> InPlace(t, false, false, esc)
    ensures RawHoldsText(t) ==> buf == Ser(t, false)
  {
    hide Rendered, InPlace;
    FlaggedIffInPlace(t, esc);
    if RawHoldsText(t) {
      RawTextAgrees(t, false);
    }
    buf := [];
    var cur, parent, isRaw := root, root.parent, false;
    ghost var at, ctx: seq<Frame> := t, [];
    while true
      invariant cur == at.node && Linked(at, parent, nodes) && Absent(root, at.kids)
      invariant Standing(cur, ctx, root, nodes)
      invariant parent == if ctx == [] then root.parent else ctx[0].parent
      invariant buf + (Flagged(at, isRaw) + Pending(ctx, RawAfter(at, isRaw))) == Flagged(t, false)
      decreases Size(at.kids) + Ahead(ctx)
    {
      var text, descend := Enter(cur, isRaw);
      ghost var was := buf;
      buf := buf + text;
      if descend {
        GoDown(at, ctx, isRaw, root, nodes);
        if cur.kind == Element && cur.isRawText {
          isRaw := true;
        }
        parent := cur;
        cur := cur.children;
        ctx := [Frame(at.node, at.kids[1..])] + ctx;
        at := at.kids[0];
        ConcatAssoc(was, text, Flagged(at, isRaw) + Pending(ctx, RawAfter(at, isRaw)));
        continue;
      }
      ConcatAssoc(was, text, Pending(ctx, isRaw));
      var done, closing;
      done, cur, parent, isRaw, closing, at, ctx := Ascend(cur, parent, isRaw, root, at, ctx, nodes);
      ConcatAssoc(buf, closing, Flagged(at, isRaw) + Pending(ctx, RawAfter(at, isRaw)));
      buf := buf + closing;
      if done {
        return;
      }
    }
  }
}
