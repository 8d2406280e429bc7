// What a task definition means by structural recursion over its elements, and when the one-pass
// parser computes exactly that: if and only if no component lies inside another of the same kind.
module TaskTree {
  import opened Basics
  import opened Texts
  import opened TaskSteps

  datatype Node = Element(name: string, attributes: seq<Attribute>, children: seq<Node>) | Leaf(point: Point)

  function Flatten(node: Node): seq<Event>
    decreases node
  {
    match node
    case Element(name, attributes, children) => [Start(name, attributes)] + FlattenAll(children) + [End]
    case Leaf(point) => [At(point)]
  }

  function FlattenAll(nodes: seq<Node>): seq<Event>
    decreases nodes
  {
    if nodes == [] then [] else Flatten(nodes[0]) + FlattenAll(nodes[1..])
  }

  // ---------------------------------------------------------------- structural recursion

  /** The text that stands directly in an element, around its child elements. */
  function OwnText(nodes: seq<Node>): string {
    if nodes == [] then "" else NodeText(nodes[0]) + OwnText(nodes[1..])
  }

  function NodeText(node: Node): string {
    if node.Leaf? then PointText(node.point) else ""
  }

  /** An element that is a component is emitted when it ends; then the component around it is open again. */
  function LeaveElement(path: seq<string>, element: string, outer: Slots, w: Work): Work {
    match KindOf(path, element)
    case None => w
    case Some(kind) =>
      if w.slots.Get(kind).None? then w
      else w.(record := Emit(w.record, kind, w.slots.Get(kind).value.fields), slots := w.slots.Set(kind, outer.Get(kind)))
  }

  function Meaning(path: seq<string>, w: Work, node: Node): TaskResult<Work>
    decreases node
  {
    match node
    case Leaf(point) => PointWork(path, path == [], point, w)
    case Element(name, attributes, children) =>
      var element := LocalName(name);
      match OpenElement(path, element, attributes, w)
      case Err(error) => Err(error)
      case Ok(entered) =>
        match MeaningAll(path + [element], entered, children)
        case Err(error) => Err(error)
        case Ok(inside) =>
          Ok(LeaveElement(path, element, w.slots, AssignText(path + [element], OwnText(children), inside)))
  }

  function MeaningAll(path: seq<string>, w: Work, nodes: seq<Node>): TaskResult<Work>
    decreases nodes
  {
    if nodes == [] then Ok(w)
    else
      match Meaning(path, w, nodes[0])
      case Err(error) => Err(error)
      case Ok(next) => MeaningAll(path, next, nodes[1..])
  }

  function TaskMeaning(nodes: seq<Node>): TaskResult<Record> {
    match MeaningAll([], NO_WORK, nodes)
    case Err(error) => Err(error)
    case Ok(w) => Finish(State([], [], w))
  }

  // ---------------------------------------------------------------- components inside components

  function Open(slots: Slots): set<Kind> {
    (if slots.principal.Some? then {Principal} else {})
    + (if slots.trigger.Some? then {Trigger} else {})
    + (if slots.action.Some? then {Action} else {})
  }

  /** No component starts inside another of the same kind; `open` are the kinds around. */
  predicate Unnested(path: seq<string>, open: set<Kind>, node: Node)
    decreases node
  {
    match node
    case Leaf(_) => true
    case Element(name, _, children) =>
      var element := LocalName(name);
      match KindOf(path, element)
      case None => UnnestedAll(path + [element], open, children)
      case Some(kind) => kind !in open && UnnestedAll(path + [element], open + {kind}, children)
  }

  predicate UnnestedAll(path: seq<string>, open: set<Kind>, nodes: seq<Node>)
    decreases nodes
  {
    nodes != [] ==> Unnested(path, open, nodes[0]) && UnnestedAll(path, open, nodes[1..])
  }

  predicate SameShape(a: Slots, b: Slots) {
    forall kind: Kind ::
      && (a.Get(kind).Some? <==> b.Get(kind).Some?)
      && (a.Get(kind).Some? ==> a.Get(kind).value.startDepth == b.Get(kind).value.startDepth)
  }

  /** Every open component started at most at this depth. */
  predicate Within(slots: Slots, depth: nat) {
    forall kind: Kind :: slots.Get(kind).Some? ==> slots.Get(kind).value.startDepth <= depth
  }

  lemma AssignKeepsShape(path: seq<string>, text: string, w: Work)
    ensures SameShape(AssignText(path, text, w).slots, w.slots)
    ensures AssignText(path, text, w).sawTask == w.sawTask
  {
  }

  /** What leaving an element does to the open components, for the recursion. */
  lemma LeaveShape(path: seq<string>, element: string, attributes: seq<Attribute>, w: Work, inside: Work)
    requires OpenElement(path, element, attributes, w).Ok?
    requires SameShape(OpenElement(path, element, attributes, w).value.slots, inside.slots)
    ensures SameShape(LeaveElement(path, element, w.slots, inside).slots, w.slots)
  {
    hide Lookup, Emit;
    var before, after := OpenElement(path, element, attributes, w).value.slots, LeaveElement(path, element, w.slots, inside).slots;
    forall kind: Kind
      ensures after.Get(kind).Some? <==> w.slots.Get(kind).Some?
      ensures after.Get(kind).Some? ==> after.Get(kind).value.startDepth == w.slots.Get(kind).value.startDepth
    {
      assert before.Get(kind).Some? <==> inside.slots.Get(kind).Some?;
    }
  }

  lemma {:induction false} MeaningShape(path: seq<string>, w: Work, node: Node)
    ensures Meaning(path, w, node).Ok? ==> SameShape(Meaning(path, w, node).value.slots, w.slots)
    decreases node
  {
    hide Lookup, AssignText, LeaveElement, OpenElement;
    match node
    case Leaf(point) =>
    case Element(name, attributes, children) =>
      var element := LocalName(name);
      var entered := OpenElement(path, element, attributes, w);
      if entered.Ok? {
        MeaningAllShape(path + [element], entered.value, children);
        var inside := MeaningAll(path + [element], entered.value, children);
        if inside.Ok? {
          AssignKeepsShape(path + [element], OwnText(children), inside.value);
          LeaveShape(path, element, attributes, w, AssignText(path + [element], OwnText(children), inside.value));
        }
      }
  }

  lemma {:induction false} MeaningAllShape(path: seq<string>, w: Work, nodes: seq<Node>)
    ensures MeaningAll(path, w, nodes).Ok? ==> SameShape(MeaningAll(path, w, nodes).value.slots, w.slots)
    decreases nodes
  {
    if nodes != [] {
      MeaningShape(path, w, nodes[0]);
      if Meaning(path, w, nodes[0]).Ok? {
        MeaningAllShape(path, Meaning(path, w, nodes[0]).value, nodes[1..]);
      }
    }
  }

  // ---------------------------------------------------------------- the parser follows the recursion

  /** Closing by depth is leaving by kind, when the kind was not open before. */
  lemma CloseIsLeave(path: seq<string>, element: string, attributes: seq<Attribute>, w: Work, inside: Work)
    requires OpenElement(path, element, attributes, w).Ok? && Within(w.slots, |path|)
    requires SameShape(OpenElement(path, element, attributes, w).value.slots, inside.slots)
    requires KindOf(path, element).Some? ==> w.slots.Get(KindOf(path, element).value).None?
    ensures CloseAll(inside, |path| + 1) == LeaveElement(path, element, w.slots, inside)
  {
    hide Lookup, Emit, KindOf;
    var before := OpenElement(path, element, attributes, w).value.slots;
    RootHasNoKind(path, element);
    forall kind: Kind
      ensures inside.slots.Get(kind).Some? && inside.slots.Get(kind).value.startDepth == |path| + 1
              <==> KindOf(path, element) == Some(kind)
    {
      assert before.Get(kind).Some? <==> inside.slots.Get(kind).Some?;
      assert w.slots.Get(kind).Some? ==> w.slots.Get(kind).value.startDepth <= |path|;
    }
    ClosesThis(inside, KindOf(path, element), |path| + 1);
    assert KindOf(path, element).Some? ==> w.slots.Get(KindOf(path, element).value) == None;
  }

  lemma RootHasNoKind(path: seq<string>, element: string)
    ensures path == [] ==> KindOf(path, element).None?
  {
  }

  /** Closing at a depth where exactly the component of this kind started, if any. */
  lemma ClosesThis(w: Work, kind: Option<Kind>, depth: nat)
    requires forall k: Kind :: w.slots.Get(k).Some? && w.slots.Get(k).value.startDepth == depth <==> kind == Some(k)
    ensures CloseAll(w, depth)
         == if kind.None? then w
            else w.(record := Emit(w.record, kind.value, w.slots.Get(kind.value).value.fields), slots := w.slots.Set(kind.value, None))
  {
    hide Emit;
    assert w.slots.Get(Action) == w.slots.action && w.slots.Get(Trigger) == w.slots.trigger
        && w.slots.Get(Principal) == w.slots.principal;
  }

  /** Opening an element: the components around stay, its own kind is added. */
  lemma OpenShape(path: seq<string>, element: string, attributes: seq<Attribute>, w: Work)
    requires OpenElement(path, element, attributes, w).Ok? && Within(w.slots, |path|)
    ensures var entered := OpenElement(path, element, attributes, w).value;
            && Within(entered.slots, |path| + 1)
            && Open(entered.slots) == Open(w.slots) + if KindOf(path, element).Some? then {KindOf(path, element).value} else {}
  {
    hide Lookup, KindOf, Open;
    RootHasNoKind(path, element);
    var entered := OpenElement(path, element, attributes, w).value;
    forall kind: Kind | entered.slots.Get(kind).Some? ensures entered.slots.Get(kind).value.startDepth <= |path| + 1 {
      assert w.slots.Get(kind).Some? ==> w.slots.Get(kind).value.startDepth <= |path|;
    }
    forall kind: Kind ensures kind in Open(entered.slots) <==> kind in Open(w.slots) || KindOf(path, element) == Some(kind) {
      OpenHas(entered.slots, kind);
      OpenHas(w.slots, kind);
    }
  }

  lemma ShapeMeans(a: Slots, b: Slots, depth: nat)
    requires SameShape(a, b)
    ensures Open(a) == Open(b) && (Within(a, depth) <==> Within(b, depth))
  {
    assert a.Get(Action).Some? <==> b.Get(Action).Some?;
    assert a.Get(Trigger).Some? <==> b.Get(Trigger).Some?;
    assert a.Get(Principal).Some? <==> b.Get(Principal).Some?;
  }

  lemma OpenHas(slots: Slots, kind: Kind)
    ensures kind in Open(slots) <==> slots.Get(kind).Some?
  {
  }

  /** One whole element or point, on a parser state whose open components do not meet their own kind. */
  lemma {:induction false} RunNode(path: seq<string>, texts: seq<string>, w: Work, node: Node)
    requires |path| == |texts| && Within(w.slots, |path|) && Unnested(path, Open(w.slots), node)
    ensures Run(State(path, texts, w), Flatten(node))
         == match Meaning(path, w, node)
            case Err(error) => Err(error)
            case Ok(after) => Ok(State(path, AppendText(texts, NodeText(node)), after))
    decreases node
  {
    hide OpenElement, AssignText, CloseAll, LeaveElement, PointWork, KindOf, Within, SameShape, Open, Run;
    match node
    case Leaf(point) =>
      RunOne(State(path, texts, w), At(point));
    case Element(name, attributes, children) =>
      var s, element := State(path, texts, w), LocalName(name);
      var start, finish, deeper := [Start(name, attributes)], [End], path + [element];
      assert Flatten(node) == start + (FlattenAll(children) + finish);
      RunConcat(s, start, FlattenAll(children) + finish);
      RunOne(s, Start(name, attributes));
      var entered := OpenElement(path, element, attributes, w);
      if entered.Ok? {
        OpenShape(path, element, attributes, w);
        if KindOf(path, element).Some? {
          OpenHas(w.slots, KindOf(path, element).value);
        } else {
          assert Open(w.slots) + {} == Open(w.slots);
        }
        RunConcat(State(deeper, texts + [""], entered.value), FlattenAll(children), finish);
        RunAll(deeper, texts + [""], entered.value, children);
        MeaningAllShape(deeper, entered.value, children);
        var inside := MeaningAll(deeper, entered.value, children);
        if inside.Ok? {
          var own := AppendText(texts + [""], OwnText(children));
          AppendEmpty(texts, OwnText(children));
          RunOne(State(deeper, own, inside.value), End);
          AssignKeepsShape(deeper, OwnText(children), inside.value);
          var filled := AssignText(deeper, OwnText(children), inside.value);
          ShapeTransitive(entered.value.slots, inside.value.slots, filled.slots);
          CloseIsLeave(path, element, attributes, w, filled);
        }
      }
  }

  lemma ShapeTransitive(a: Slots, b: Slots, c: Slots)
    requires SameShape(a, b) || SameShape(b, a)
    requires SameShape(b, c) || SameShape(c, b)
    ensures SameShape(a, c)
  {
    forall kind: Kind
      ensures a.Get(kind).Some? <==> c.Get(kind).Some?
      ensures a.Get(kind).Some? ==> a.Get(kind).value.startDepth == c.Get(kind).value.startDepth
    {
      assert b.Get(kind).Some? <==> a.Get(kind).Some?;
    }
  }

  lemma {:induction false} RunAll(path: seq<string>, texts: seq<string>, w: Work, nodes: seq<Node>)
    requires |path| == |texts| && Within(w.slots, |path|) && UnnestedAll(path, Open(w.slots), nodes)
    ensures Run(State(path, texts, w), FlattenAll(nodes))
         == match MeaningAll(path, w, nodes)
            case Err(error) => Err(error)
            case Ok(after) => Ok(State(path, AppendText(texts, OwnText(nodes)), after))
    decreases nodes
  {
    hide Meaning, Unnested, Within, Open, Step, Run;
    var s := State(path, texts, w);
    if nodes == [] {
      RunNothing(s);
      AppendEmpty(texts, "");
    } else {
      RunConcat(s, Flatten(nodes[0]), FlattenAll(nodes[1..]));
      RunNode(path, texts, w, nodes[0]);
      if Meaning(path, w, nodes[0]).Ok? {
        var next, after := Meaning(path, w, nodes[0]).value, AppendText(texts, NodeText(nodes[0]));
        MeaningShape(path, w, nodes[0]);
        ShapeMeans(next.slots, w.slots, |path|);
        RunAll(path, after, next, nodes[1..]);
        AppendTwice(texts, NodeText(nodes[0]), OwnText(nodes[1..]));
      }
    }
  }

  lemma RunNothing(s: State)
    ensures Run(s, []) == Ok(s)
  {
  }

  lemma AppendEmpty(texts: seq<string>, text: string)
    ensures AppendText(texts, "") == texts
    ensures AppendText(texts + [""], text) == texts + [text]
  {
    assert "" + text == text;
    if texts != [] {
      assert texts[|texts| - 1] + "" == texts[|texts| - 1];
    }
    assert (texts + [""])[..|texts|] == texts;
  }

  lemma AppendTwice(texts: seq<string>, a: string, b: string)
    ensures AppendText(AppendText(texts, a), b) == AppendText(texts, a + b)
  {
    if texts != [] {
      assert (texts[|texts| - 1] + a) + b == texts[|texts| - 1] + (a + b);
    }
  }
}
