/** The parser of `aapt2 dump xmltree`: the nesting of elements is in the indentation
    alone. Lines are taken after the regular expressions have matched them. */
module AaptXmlTree {
  import opened Volumes

  datatype Attribute = Attribute(resourceName: string, value: string)

  datatype Node = Node(name: string, attributes: seq<Attribute>, children: seq<Node>)

  /** `E:`, `A:` and `N:` lines and all others; the value of an attribute may be malformed.
      Blank lines are dropped before. */
  datatype Line =
    | Element(indent: nat, name: string)
    | AttributeOf(indent: nat, attribute: Option<Attribute>)
    | Namespace
    | Unsupported

  datatype Error = NoParent | MalformedValue | UnsupportedLine | NotOneRoot

  /** An element that may still get attributes and children. */
  datatype Open = Open(indent: nat, node: Node)

  /** The stack, and the roots that are complete. The node of a stack entry has the
      children that are complete; the entry above it is its next child. */
  datatype State = State(stack: seq<Open>, roots: seq<Node>)

  const EMPTY := State([], [])

  predicate Below(stack: seq<Open>, indent: nat) {
    stack == [] || stack[|stack| - 1].indent < indent
  }

  /** A complete node becomes the last child of the element on top, or a root. */
  function Attach(s: State, node: Node): State {
    if s.stack == [] then s.(roots := s.roots + [node])
    else
      var top := s.stack[|s.stack| - 1];
      s.(stack := s.stack[..|s.stack| - 1]
                  + [top.(node := top.node.(children := top.node.children + [node]))])
  }

  function CloseTop(s: State): State
    requires s.stack != []
  {
    Attach(s.(stack := s.stack[..|s.stack| - 1]), s.stack[|s.stack| - 1].node)
  }

  /** Leave every element that is not further out than `indent`. */
  function CloseTo(s: State, indent: nat): (r: State)
    ensures |r.stack| <= |s.stack| && Below(r.stack, indent)
    decreases |s.stack|
  {
    if Below(s.stack, indent) then s else CloseTo(CloseTop(s), indent)
  }

  function Push(s: State, indent: nat, name: string): State {
    s.(stack := s.stack + [Open(indent, Node(name, [], []))])
  }

  /** The innermost element further out than `indent`, as its height in the stack. */
  function Owner(stack: seq<Open>, indent: nat): (height: nat)
    ensures height <= |stack|
    ensures height > 0 ==> stack[height - 1].indent < indent
    ensures forall i | height <= i < |stack| :: stack[i].indent >= indent
  {
    if Below(stack, indent) then |stack| else Owner(stack[..|stack| - 1], indent)
  }

  function AddAttribute(s: State, height: nat, attribute: Attribute): State
    requires 0 < height <= |s.stack|
  {
    var owner := s.stack[height - 1];
    s.(stack := s.stack[height - 1 := owner.(node := owner.node.(attributes := owner.node.attributes + [attribute]))])
  }

  datatype Outcome = Parsing(state: State) | Failed(error: Error)

  function Step(s: State, line: Line): Outcome {
    match line
    case Element(indent, name) => Parsing(Push(CloseTo(s, indent), indent, name))
    case AttributeOf(indent, attribute) =>
      var height := Owner(s.stack, indent);
      if height == 0 then Failed(NoParent)
      else if attribute.None? then Failed(MalformedValue)
      else Parsing(AddAttribute(s, height, attribute.value))
    case Namespace => Parsing(s)
    case Unsupported => Failed(UnsupportedLine)
  }

  function Run(s: State, lines: seq<Line>): Outcome
    decreases |lines|
  {
    if lines == [] then Parsing(s)
    else match Step(s, lines[0])
      case Failed(error) => Failed(error)
      case Parsing(next) => Run(next, lines[1..])
  }

  datatype Tree = Tree(root: Node) | NoTree(error: Error)

  function Finish(outcome: Outcome): Tree {
    match outcome
    case Failed(error) => NoTree(error)
    case Parsing(s) =>
      var roots := CloseTo(s, 0).roots;
      if |roots| == 1 then Tree(roots[0]) else NoTree(NotOneRoot)
  }

  /** parseAaptXmlTree. */
  method Parse(lines: seq<Line>) returns (tree: Tree)
    ensures tree == Finish(Run(EMPTY, lines))
  {
    var s, i := EMPTY, 0;
    while i < |lines|
      invariant 0 <= i <= |lines|
      invariant Run(EMPTY, lines) == Run(s, lines[i..])
      invariant Increasing(s.stack)
    {
      var line := lines[i];
      StepKeepsIncreasing(s, line);
      assert lines[i..][0] == line && lines[i..][1..] == lines[i + 1..];
      match line {
        case Element(indent, name) =>
          ghost var before := s;
          while s.stack != [] && s.stack[|s.stack| - 1].indent >= indent
            invariant CloseTo(s, indent) == CloseTo(before, indent)
            decreases |s.stack|
          {
            s := CloseTop(s);
          }
          s := Push(s, indent, name);
        case AttributeOf(indent, attribute) =>
          var height := Owner(s.stack, indent);
          if height == 0 {
            return NoTree(NoParent);
          }
          if attribute.None? {
            return NoTree(MalformedValue);
          }
          s := AddAttribute(s, height, attribute.value);
        case Namespace =>
        case Unsupported =>
          return NoTree(UnsupportedLine);
      }
      i := i + 1;
    }
    assert lines[i..] == [];
    tree := Finish(Parsing(s));
  }

  // ---------------------------------------------------------------- the stack

  predicate Increasing(stack: seq<Open>) {
    forall i, j | 0 <= i < j < |stack| :: stack[i].indent < stack[j].indent
  }

  lemma {:induction false} CloseKeepsIncreasing(s: State, indent: nat)
    requires Increasing(s.stack)
    ensures Increasing(CloseTo(s, indent).stack)
    decreases |s.stack|
  {
    if !Below(s.stack, indent) {
      CloseKeepsIncreasing(CloseTop(s), indent);
    }
  }

  /** Whatever the lines are, the indents on the stack grow strictly from the root up. */
  lemma StepKeepsIncreasing(s: State, line: Line)
    requires Increasing(s.stack)
    ensures Step(s, line).Parsing? ==> Increasing(Step(s, line).state.stack)
  {
    if line.Element? {
      CloseKeepsIncreasing(s, line.indent);
    }
  }

  lemma {:induction false} RunKeepsIncreasing(s: State, lines: seq<Line>)
    requires Increasing(s.stack)
    ensures Run(s, lines).Parsing? ==> Increasing(Run(s, lines).state.stack)
    decreases |lines|
  {
    if lines != [] && Step(s, lines[0]).Parsing? {
      StepKeepsIncreasing(s, lines[0]);
      RunKeepsIncreasing(Step(s, lines[0]).state, lines[1..]);
    }
  }

  lemma {:induction false} OwnerIs(stack: seq<Open>, indent: nat, h: nat)
    requires h < |stack| && stack[h].indent < indent
    requires forall i | h < i < |stack| :: stack[i].indent >= indent
    ensures Owner(stack, indent) == h + 1
  {
    if h < |stack| - 1 {
      OwnerIs(stack[..|stack| - 1], indent, h);
    }
  }

  /** An attribute is the last one of the innermost open element further out, also after
      children of that element, and nothing else changes. */
  lemma AttributeGoesTo(s: State, indent: nat, attribute: Attribute, h: nat)
    requires h < |s.stack| && s.stack[h].indent < indent
    requires forall i | h < i < |s.stack| :: s.stack[i].indent >= indent
    ensures Step(s, AttributeOf(indent, Some(attribute))).Parsing?
    ensures var t := Step(s, AttributeOf(indent, Some(attribute))).state;
            && t.roots == s.roots && |t.stack| == |s.stack|
            && (forall i | 0 <= i < |s.stack| && i != h :: t.stack[i] == s.stack[i])
            && t.stack[h].indent == s.stack[h].indent
            && t.stack[h].node == Node(s.stack[h].node.name, s.stack[h].node.attributes + [attribute],
                                       s.stack[h].node.children)
  {
    OwnerIs(s.stack, indent, h);
  }

  // ---------------------------------------------------------------- printing

  /** A tree with the indentation it is printed with: any as long as an attribute and a
      child are further in than their element, and a child no further in than the child
      before it. */
  datatype Laid = Laid(indent: nat, name: string, attributes: seq<(nat, Attribute)>, children: seq<Laid>)

  predicate WellLaid(l: Laid)
    decreases l
  {
    && (forall i | 0 <= i < |l.attributes| :: l.attributes[i].0 > l.indent)
    && WellLaidIn(l.indent, l.children)
  }

  /** Children further in than `indent`, none further in than the one before it. */
  predicate WellLaidIn(indent: nat, children: seq<Laid>)
    decreases children
  {
    children != [] ==>
      && children[0].indent > indent && WellLaid(children[0])
      && (|children| > 1 ==> children[1].indent <= children[0].indent)
      && WellLaidIn(indent, children[1..])
  }

  function Attributes(printed: seq<(nat, Attribute)>): seq<Attribute> {
    if printed == [] then [] else [printed[0].1] + Attributes(printed[1..])
  }

  function TreeOf(l: Laid): Node {
    Node(l.name, Attributes(l.attributes), TreesOf(l.children))
  }

  function TreesOf(children: seq<Laid>): seq<Node> {
    if children == [] then [] else [TreeOf(children[0])] + TreesOf(children[1..])
  }

  function AttributeLines(printed: seq<(nat, Attribute)>): seq<Line> {
    if printed == [] then []
    else [AttributeOf(printed[0].0, Some(printed[0].1))] + AttributeLines(printed[1..])
  }

  function Lines(l: Laid): (lines: seq<Line>)
    ensures lines != [] && lines[0] == Element(l.indent, l.name)
  {
    [Element(l.indent, l.name)] + (AttributeLines(l.attributes) + LinesOfAll(l.children))
  }

  function LinesOfAll(children: seq<Laid>): seq<Line> {
    if children == [] then [] else Lines(children[0]) + LinesOfAll(children[1..])
  }

  // ---------------------------------------------------------------- round trip

  function RunOn(outcome: Outcome, lines: seq<Line>): Outcome {
    match outcome
    case Failed(error) => Failed(error)
    case Parsing(s) => Run(s, lines)
  }

  lemma {:induction false} RunJoined(s: State, a: seq<Line>, b: seq<Line>)
    ensures Run(s, a + b) == RunOn(Run(s, a), b)
    decreases |a|
  {
    if a == [] {
      assert a + b == b;
    } else {
      assert (a + b)[1..] == a[1..] + b;
      var next := Step(s, a[0]);
      if next.Parsing? {
        RunJoined(next.state, a[1..], b);
      }
    }
  }

  lemma {:induction false} CloseTwice(s: State, inner: nat, outer: nat)
    requires outer <= inner
    ensures CloseTo(CloseTo(s, inner), outer) == CloseTo(s, outer)
    decreases |s.stack|
  {
    if !Below(s.stack, inner) {
      CloseTwice(CloseTop(s), inner, outer);
    }
  }

  function WithAttributes(s: State, attributes: seq<Attribute>): State
    requires s.stack != []
  {
    var top := s.stack[|s.stack| - 1];
    s.(stack := s.stack[..|s.stack| - 1] + [top.(node := top.node.(attributes := top.node.attributes + attributes))])
  }

  lemma AddedOnTop(s: State, indent: nat, attribute: Attribute)
    requires s.stack != [] && indent > s.stack[|s.stack| - 1].indent
    ensures Step(s, AttributeOf(indent, Some(attribute))) == Parsing(WithAttributes(s, [attribute]))
  {
    assert Owner(s.stack, indent) == |s.stack|;
    assert AddAttribute(s, |s.stack|, attribute).stack == WithAttributes(s, [attribute]).stack;
  }

  lemma WithAttributesTwice(s: State, a: seq<Attribute>, b: seq<Attribute>)
    requires s.stack != []
    ensures WithAttributes(WithAttributes(s, a), b) == WithAttributes(s, a + b)
  {
    var top := s.stack[|s.stack| - 1];
    assert WithAttributes(s, a).stack[..|s.stack| - 1] == s.stack[..|s.stack| - 1];
    assert (top.node.attributes + a) + b == top.node.attributes + (a + b);
  }

  lemma {:induction false} RunAttributes(s: State, printed: seq<(nat, Attribute)>)
    requires s.stack != []
    requires forall i | 0 <= i < |printed| :: printed[i].0 > s.stack[|s.stack| - 1].indent
    ensures Run(s, AttributeLines(printed)) == Parsing(WithAttributes(s, Attributes(printed)))
    decreases |printed|
  {
    var top := s.stack[|s.stack| - 1];
    if printed == [] {
      assert top.node.attributes + [] == top.node.attributes;
      assert s.stack[..|s.stack| - 1] + [top] == s.stack;
    } else {
      var next := WithAttributes(s, [printed[0].1]);
      AddedOnTop(s, printed[0].0, printed[0].1);
      assert AttributeLines(printed)[1..] == AttributeLines(printed[1..]);
      RunAttributes(next, printed[1..]);
      WithAttributesTwice(s, [printed[0].1], Attributes(printed[1..]));
    }
  }

  function AttachAll(s: State, nodes: seq<Node>): State
    decreases |nodes|
  {
    if nodes == [] then s else AttachAll(Attach(s, nodes[0]), nodes[1..])
  }

  lemma {:induction false} AttachAllToTop(s: State, nodes: seq<Node>)
    requires s.stack != []
    ensures var top := s.stack[|s.stack| - 1];
            AttachAll(s, nodes) == s.(stack := s.stack[..|s.stack| - 1]
                                              + [top.(node := top.node.(children := top.node.children + nodes))])
    decreases |nodes|
  {
    var top := s.stack[|s.stack| - 1];
    if nodes == [] {
      assert top.node.children + [] == top.node.children;
      assert s.stack[..|s.stack| - 1] + [top] == s.stack;
    } else {
      AttachAllToTop(Attach(s, nodes[0]), nodes[1..]);
      assert Attach(s, nodes[0]).stack[..|s.stack| - 1] == s.stack[..|s.stack| - 1];
      assert (top.node.children + [nodes[0]]) + nodes[1..] == top.node.children + nodes;
    }
  }

  /** Running the lines of a tree and then leaving it is attaching it. */
  predicate Reads(s: State, lines: seq<Line>, node: Node, most: nat) {
    && Run(s, lines).Parsing?
    && forall c: nat | c <= most && Below(s.stack, c) :: CloseTo(Run(s, lines).state, c) == Attach(s, node)
  }

  /** A state with one element on top of another state. */
  function On(s: State, indent: nat, node: Node): State {
    State(s.stack + [Open(indent, node)], s.roots)
  }

  lemma AttributesOn(s: State, indent: nat, name: string, attributes: seq<Attribute>)
    ensures WithAttributes(Push(s, indent, name), attributes) == On(s, indent, Node(name, attributes, []))
  {
    assert Push(s, indent, name).stack[..|s.stack|] == s.stack;
    assert [] + attributes == attributes;
  }

  lemma ChildrenOn(s: State, indent: nat, name: string, attributes: seq<Attribute>, nodes: seq<Node>)
    ensures AttachAll(On(s, indent, Node(name, attributes, [])), nodes) == On(s, indent, Node(name, attributes, nodes))
  {
    var open := On(s, indent, Node(name, attributes, []));
    AttachAllToTop(open, nodes);
    assert open.stack[..|s.stack|] == s.stack;
    assert [] + nodes == nodes;
  }

  lemma CloseOn(s: State, indent: nat, node: Node, c: nat)
    requires c <= indent && Below(s.stack, c)
    ensures CloseTo(On(s, indent, node), c) == Attach(s, node)
  {
    assert On(s, indent, node).stack[..|s.stack|] == s.stack;
    AttachKeepsIndents(s, node);
  }

  lemma {:induction false} TreeIsRead(s: State, l: Laid)
    requires WellLaid(l) && Below(s.stack, l.indent)
    ensures Reads(s, Lines(l), TreeOf(l), l.indent)
    decreases l, 0
  {
    var open := On(s, l.indent, Node(l.name, Attributes(l.attributes), []));
    OpeningIsRead(s, l);
    TreesAreRead(open, l.children);
    ChildrenOn(s, l.indent, l.name, Attributes(l.attributes), TreesOf(l.children));
    EndIsRead(s, l, Run(s, Lines(l)));
  }

  lemma OpeningIsRead(s: State, l: Laid)
    requires WellLaid(l) && Below(s.stack, l.indent)
    ensures Run(s, Lines(l)) == Run(On(s, l.indent, Node(l.name, Attributes(l.attributes), [])), LinesOfAll(l.children))
  {
    var bare := Push(s, l.indent, l.name);
    assert Lines(l)[1..] == AttributeLines(l.attributes) + LinesOfAll(l.children);
    RunJoined(bare, AttributeLines(l.attributes), LinesOfAll(l.children));
    RunAttributes(bare, l.attributes);
    AttributesOn(s, l.indent, l.name, Attributes(l.attributes));
  }

  lemma EndIsRead(s: State, l: Laid, end: Outcome)
    requires end == Run(s, Lines(l)) && end.Parsing?
    requires CloseTo(end.state, l.indent + 1) == On(s, l.indent, TreeOf(l))
    ensures Reads(s, Lines(l), TreeOf(l), l.indent)
  {
    forall c: nat | c <= l.indent && Below(s.stack, c) ensures CloseTo(end.state, c) == Attach(s, TreeOf(l)) {
      CloseTwice(end.state, l.indent + 1, c);
      CloseOn(s, l.indent, TreeOf(l), c);
    }
  }

  lemma AttachKeepsIndents(s: State, node: Node)
    ensures forall c: nat :: Below(Attach(s, node).stack, c) == Below(s.stack, c)
  {
  }

  predicate ReadsAll(s: State, lines: seq<Line>, nodes: seq<Node>)
    requires s.stack != []
  {
    && Run(s, lines).Parsing?
    && CloseTo(Run(s, lines).state, s.stack[|s.stack| - 1].indent + 1) == AttachAll(s, nodes)
  }

  /** The children of the element on top become its children, in order. */
  lemma {:induction false} TreesAreRead(s: State, children: seq<Laid>)
    requires s.stack != [] && WellLaidIn(s.stack[|s.stack| - 1].indent, children)
    ensures ReadsAll(s, LinesOfAll(children), TreesOf(children))
    decreases children
  {
    if children != [] {
      var first, others := children[0], children[1..];
      TreeIsRead(s, first);
      AttachKeepsTop(s, TreeOf(first));
      TreesAreRead(Attach(s, TreeOf(first)), others);
      if others == [] {
        OneTreeIsRead(s, first);
      } else {
        assert LinesOfAll(others)[0] == Element(others[0].indent, others[0].name);
        TreesFollow(s, Lines(first), TreeOf(first), first.indent, LinesOfAll(others), TreesOf(others),
                    others[0].indent, others[0].name);
      }
    }
  }

  lemma OneTreeIsRead(s: State, first: Laid)
    requires s.stack != [] && first.indent > s.stack[|s.stack| - 1].indent
    requires Reads(s, Lines(first), TreeOf(first), first.indent)
    ensures ReadsAll(s, Lines(first) + [], [TreeOf(first)] + [])
  {
    assert Lines(first) + [] == Lines(first);
    assert ([TreeOf(first)] + [])[1..] == [];
    assert Below(s.stack, s.stack[|s.stack| - 1].indent + 1);
  }

  lemma TreesFollow(s: State, lines: seq<Line>, node: Node, most: nat, others: seq<Line>, nodes: seq<Node>,
                    indent: nat, name: string)
    requires s.stack != [] && Reads(s, lines, node, most)
    requires others != [] && others[0] == Element(indent, name) && s.stack[|s.stack| - 1].indent < indent <= most
    requires Attach(s, node).stack != [] && ReadsAll(Attach(s, node), others, nodes)
    ensures ReadsAll(s, lines + others, [node] + nodes)
  {
    AttachKeepsTop(s, node);
    RunFollows(s, lines, node, most, others, indent, name);
    AttachAllFirst(s, node, nodes);
  }

  lemma RunFollows(s: State, lines: seq<Line>, node: Node, most: nat, others: seq<Line>, indent: nat, name: string)
    requires Reads(s, lines, node, most) && Below(s.stack, indent) && indent <= most
    requires others != [] && others[0] == Element(indent, name)
    ensures Run(s, lines + others) == Run(Attach(s, node), others)
  {
    RunJoined(s, lines, others);
    AttachKeepsIndents(s, node);
    SameAfterClosing(Run(s, lines).state, Attach(s, node), others, indent, name);
  }

  lemma AttachAllFirst(s: State, node: Node, nodes: seq<Node>)
    ensures AttachAll(s, [node] + nodes) == AttachAll(Attach(s, node), nodes)
  {
    assert ([node] + nodes)[1..] == nodes;
  }

  lemma AttachKeepsTop(s: State, node: Node)
    requires s.stack != []
    ensures var t := Attach(s, node);
            t.stack != [] && t.stack[|t.stack| - 1].indent == s.stack[|s.stack| - 1].indent
  {
  }

  /** An element line leaves what it has to leave first. */
  lemma SameAfterClosing(s: State, t: State, lines: seq<Line>, indent: nat, name: string)
    requires lines != [] && lines[0] == Element(indent, name)
    requires CloseTo(s, indent) == t && Below(t.stack, indent)
    ensures Run(s, lines) == Run(t, lines)
  {
  }

  /** The lines that are not about namespaces. */
  function Significant(lines: seq<Line>): seq<Line> {
    if lines == [] then []
    else (if lines[0] == Namespace then [] else [lines[0]]) + Significant(lines[1..])
  }

  /** Wherever namespace lines stand, they change nothing. */
  lemma {:induction false} NamespacesChangeNothing(s: State, lines: seq<Line>)
    ensures Run(s, lines) == Run(s, Significant(lines))
    decreases |lines|
  {
    if lines != [] {
      var rest := Significant(lines[1..]);
      if lines[0] == Namespace {
        assert [] + rest == rest;
      } else {
        assert ([lines[0]] + rest)[1..] == rest;
      }
      match Step(s, lines[0])
      case Failed(error) =>
      case Parsing(next) => NamespacesChangeNothing(next, lines[1..]);
    }
  }

  /** The dump shows the tree with this layout, with namespace lines anywhere. */
  predicate Prints(dump: seq<Line>, l: Laid) {
    WellLaid(l) && Significant(dump) == Lines(l)
  }

  /** Every tree comes back from every way to print it. */
  lemma PrintedTreeIsParsed(l: Laid, dump: seq<Line>)
    requires Prints(dump, l)
    ensures Finish(Run(EMPTY, dump)) == Tree(TreeOf(l))
  {
    NamespacesChangeNothing(EMPTY, dump);
    TreeIsRead(EMPTY, l);
    assert Attach(EMPTY, TreeOf(l)).roots == [TreeOf(l)];
  }

  /** Two trees printed the same are the same. */
  lemma PrintingIsFaithful(l: Laid, m: Laid, dump: seq<Line>)
    requires Prints(dump, l) && Prints(dump, m)
    ensures TreeOf(l) == TreeOf(m)
  {
    PrintedTreeIsParsed(l, dump);
    PrintedTreeIsParsed(m, dump);
  }

  // ---------------------------------------------------------------- which dumps are refused

  /** An element further out than `indent` has been opened. */
  predicate Further(lines: seq<Line>, indent: nat) {
    exists k :: 0 <= k < |lines| && lines[k].Element? && lines[k].indent < indent
  }

  /** What is wrong with a line, after the lines before it. */
  function Fault(lines: seq<Line>, i: nat): Option<Error>
    requires i < |lines|
  {
    match lines[i]
    case Element(_, _) => None
    case AttributeOf(indent, attribute) =>
      if !Further(lines[..i], indent) then Some(NoParent) else if attribute.None? then Some(MalformedValue) else None
    case Namespace => None
    case Unsupported => Some(UnsupportedLine)
  }

  predicate Faultless(lines: seq<Line>, n: nat)
    requires n <= |lines|
  {
    forall i | 0 <= i < n :: Fault(lines, i).None?
  }

  /** The first element, if every other one is further in. */
  predicate IsRoot(lines: seq<Line>, k: nat) {
    && k < |lines| && lines[k].Element?
    && forall j | 0 <= j < |lines| && j != k && lines[j].Element? :: k < j && lines[k].indent < lines[j].indent
  }

  predicate NoElement(lines: seq<Line>) {
    forall k | 0 <= k < |lines| :: !lines[k].Element?
  }

  /** The roots, the one that is still open included. */
  function Roots(s: State): nat {
    |s.roots| + if s.stack == [] then 0 else 1
  }

  /** What the lines so far tell about the state. */
  ghost predicate Seen(s: State, lines: seq<Line>) {
    && Increasing(s.stack)
    && (forall c: nat :: Further(lines, c) <==> s.stack != [] && s.stack[0].indent < c)
    && (Roots(s) == 0 <==> NoElement(lines))
    && (Roots(s) == 1 <==> exists k :: IsRoot(lines, k))
  }

  lemma {:induction false} CloseBottom(s: State, indent: nat)
    requires Increasing(s.stack)
    ensures var t := CloseTo(s, indent);
            if s.stack != [] && s.stack[0].indent < indent
            then t.stack != [] && t.stack[0].indent == s.stack[0].indent && t.roots == s.roots
            else t.stack == [] && |t.roots| == Roots(s)
    decreases |s.stack|
  {
    if !Below(s.stack, indent) {
      CloseBottom(CloseTop(s), indent);
    }
  }

  lemma {:induction false} OwnerBottom(stack: seq<Open>, indent: nat)
    requires Increasing(stack)
    ensures Owner(stack, indent) == 0 <==> stack == [] || stack[0].indent >= indent
  {
    if !Below(stack, indent) {
      OwnerBottom(stack[..|stack| - 1], indent);
    }
  }

  lemma FurtherOneMore(lines: seq<Line>, line: Line, c: nat)
    ensures Further(lines + [line], c) <==> Further(lines, c) || (line.Element? && line.indent < c)
  {
    var longer := lines + [line];
    if Further(lines, c) {
      var k :| 0 <= k < |lines| && lines[k].Element? && lines[k].indent < c;
      assert longer[k] == lines[k];
    }
    if line.Element? && line.indent < c {
      assert longer[|lines|] == line;
    }
  }

  lemma RootsOneMore(lines: seq<Line>, line: Line)
    requires !line.Element?
    ensures NoElement(lines + [line]) <==> NoElement(lines)
    ensures (exists k :: IsRoot(lines + [line], k)) <==> exists k :: IsRoot(lines, k)
  {
    var longer := lines + [line];
    assert forall k: nat | k < |lines| :: longer[k] == lines[k];
    if k: nat :| IsRoot(lines, k) {
      assert IsRoot(longer, k);
    }
    if k: nat :| IsRoot(longer, k) {
      assert IsRoot(lines, k);
    }
  }

  lemma RootOfElement(lines: seq<Line>, indent: nat, name: string)
    ensures var longer := lines + [Element(indent, name)];
            (exists k :: IsRoot(longer, k)) <==>
              if Further(lines, indent) then exists k :: IsRoot(lines, k) else NoElement(lines)
  {
    var longer := lines + [Element(indent, name)];
    assert forall k: nat | k < |lines| :: longer[k] == lines[k];
    if k: nat :| IsRoot(longer, k) {
      if k < |lines| {
        assert longer[|lines|].indent == indent;
        assert IsRoot(lines, k);
        assert Further(lines, indent);
      }
    }
    if Further(lines, indent) {
      if k: nat :| IsRoot(lines, k) {
        var j :| 0 <= j < |lines| && lines[j].Element? && lines[j].indent < indent;
        assert IsRoot(longer, k);
      }
    } else if NoElement(lines) {
      assert IsRoot(longer, |lines|);
    }
  }

  lemma SeenElement(s: State, lines: seq<Line>, indent: nat, name: string)
    requires Seen(s, lines)
    ensures Seen(Push(CloseTo(s, indent), indent, name), lines + [Element(indent, name)])
  {
    var closed := CloseTo(s, indent);
    CloseBottom(s, indent);
    CloseKeepsIncreasing(s, indent);
    RootOfElement(lines, indent, name);
    assert (lines + [Element(indent, name)])[|lines|].Element?;
    forall c: nat
      ensures Further(lines + [Element(indent, name)], c) <==>
              Push(closed, indent, name).stack[0].indent < c
    {
      FurtherOneMore(lines, Element(indent, name), c);
    }
  }

  lemma SeenOther(s: State, t: State, lines: seq<Line>, line: Line)
    requires Seen(s, lines) && !line.Element?
    requires |t.stack| == |s.stack| && t.roots == s.roots
    requires forall i | 0 <= i < |s.stack| :: t.stack[i].indent == s.stack[i].indent
    ensures Seen(t, lines + [line])
  {
    RootsOneMore(lines, line);
    forall c: nat ensures Further(lines + [line], c) <==> Further(lines, c) {
      FurtherOneMore(lines, line, c);
    }
  }

  /** One more line is refused for the reason it gives, or the state stays as the lines tell. */
  lemma SeenOneMore(s: State, lines: seq<Line>, line: Line)
    requires Seen(s, lines)
    ensures match Fault(lines + [line], |lines|)
            case None => Step(s, line).Parsing? && Seen(Step(s, line).state, lines + [line])
            case Some(error) => Step(s, line) == Failed(error)
  {
    assert (lines + [line])[..|lines|] == lines && (lines + [line])[|lines|] == line;
    match line
    case Element(indent, name) => SeenElement(s, lines, indent, name);
    case AttributeOf(indent, attribute) =>
      OwnerBottom(s.stack, indent);
      if Step(s, line).Parsing? {
        SeenOther(s, Step(s, line).state, lines, line);
      }
    case Namespace => SeenOther(s, s, lines, line);
    case Unsupported =>
  }

  lemma FaultOfPrefix(lines: seq<Line>, n: nat, i: nat)
    requires i < n <= |lines|
    ensures Fault(lines[..n], i) == Fault(lines, i)
  {
    assert lines[..n][..i] == lines[..i];
  }

  lemma RunOne(s: State, line: Line)
    ensures Run(s, [line]) == Step(s, line)
  {
    assert [line][1..] == [];
    if Step(s, line).Parsing? {
      assert Run(Step(s, line).state, []) == Step(s, line);
    }
  }

  lemma RunOneMore(lines: seq<Line>, n: nat)
    requires n < |lines| && Run(EMPTY, lines[..n]).Parsing?
    ensures Run(EMPTY, lines[..n + 1]) == Step(Run(EMPTY, lines[..n]).state, lines[n])
  {
    var s := Run(EMPTY, lines[..n]).state;
    assert lines[..n + 1] == lines[..n] + [lines[n]];
    RunJoined(EMPTY, lines[..n], [lines[n]]);
    RunOne(s, lines[n]);
  }

  lemma {:induction false} SeenSoFar(lines: seq<Line>, n: nat)
    requires n <= |lines| && Faultless(lines, n)
    ensures Run(EMPTY, lines[..n]).Parsing? && Seen(Run(EMPTY, lines[..n]).state, lines[..n])
  {
    if n == 0 {
      assert !exists k :: IsRoot([], k);
    } else {
      SeenSoFar(lines, n - 1);
      assert lines[..n] == lines[..n - 1] + [lines[n - 1]];
      FaultOfPrefix(lines, n, n - 1);
      RunOneMore(lines, n - 1);
      SeenOneMore(Run(EMPTY, lines[..n - 1]).state, lines[..n - 1], lines[n - 1]);
    }
  }

  /** The first line with a fault decides what is reported, whatever follows. */
  lemma FirstFaultIsReported(lines: seq<Line>, i: nat)
    requires i < |lines| && Faultless(lines, i) && Fault(lines, i).Some?
    ensures Run(EMPTY, lines) == Failed(Fault(lines, i).value)
  {
    SeenSoFar(lines, i);
    assert lines[..i + 1] == lines[..i] + [lines[i]];
    FaultOfPrefix(lines, i + 1, i);
    SeenOneMore(Run(EMPTY, lines[..i]).state, lines[..i], lines[i]);
    RunOneMore(lines, i);
    RunJoined(EMPTY, lines[..i + 1], lines[i + 1..]);
    assert lines[..i + 1] + lines[i + 1..] == lines;
  }

  lemma {:induction false} FirstFault(lines: seq<Line>, n: nat) returns (i: nat)
    requires n <= |lines| && !Faultless(lines, n)
    ensures i < n && Faultless(lines, i) && Fault(lines, i).Some?
  {
    if Faultless(lines, n - 1) {
      i := n - 1;
    } else {
      i := FirstFault(lines, n - 1);
    }
  }

  /** No line has a fault. */
  lemma FaultlessExactlyWhen(lines: seq<Line>)
    ensures Faultless(lines, |lines|) <==>
              forall i | 0 <= i < |lines| ::
                && !lines[i].Unsupported?
                && (lines[i].AttributeOf? ==> lines[i].attribute.Some? && Further(lines[..i], lines[i].indent))
  {
    forall i | 0 <= i < |lines|
      ensures Fault(lines, i).None? <==>
                && !lines[i].Unsupported?
                && (lines[i].AttributeOf? ==> lines[i].attribute.Some? && Further(lines[..i], lines[i].indent))
    {
    }
  }

  /** Without a fault the number of roots decides. */
  lemma FaultlessIsTreeExactlyWhen(lines: seq<Line>)
    requires Faultless(lines, |lines|)
    ensures var tree := Finish(Run(EMPTY, lines));
            if exists k :: IsRoot(lines, k) then tree.Tree? else tree == NoTree(NotOneRoot)
  {
    assert lines[..|lines|] == lines;
    SeenSoFar(lines, |lines|);
    CloseBottom(Run(EMPTY, lines).state, 0);
  }

  /** A dump is a tree exactly when every line is supported, every attribute has a value and
      an element further out before it, and one element comes before and further out than
      all others. */
  lemma TreeExactlyWhen(lines: seq<Line>)
    ensures Finish(Run(EMPTY, lines)).Tree? <==>
              && (forall i | 0 <= i < |lines| ::
                    && !lines[i].Unsupported?
                    && (lines[i].AttributeOf? ==> lines[i].attribute.Some? && Further(lines[..i], lines[i].indent)))
              && exists k :: IsRoot(lines, k)
  {
    FaultlessExactlyWhen(lines);
    if Faultless(lines, |lines|) {
      FaultlessIsTreeExactlyWhen(lines);
    } else {
      var i := FirstFault(lines, |lines|);
      FirstFaultIsReported(lines, i);
    }
  }
}
