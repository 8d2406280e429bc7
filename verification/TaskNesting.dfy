// The parser against the recursion on every event stream: accepted streams are flattened trees,
// and a nested component of the same kind always makes the parser lose a component.
module TaskNesting {
  import opened Basics
  import opened Texts
  import opened TaskSteps
  import opened TaskTree

  // ---------------------------------------------------------------- the parser accepts only trees

  /** A prefix of a stream as a partly built tree: one level of finished nodes for each open element. */
  datatype Level = Level(name: string, attributes: seq<Attribute>, before: seq<Node>)

  function FlattenLevels(levels: seq<Level>): seq<Event> {
    if levels == [] then []
    else
      var top := levels[|levels| - 1];
      FlattenLevels(levels[..|levels| - 1]) + [Start(top.name, top.attributes)] + FlattenAll(top.before)
  }

  lemma {:induction false} FlattenSnoc(nodes: seq<Node>, node: Node)
    ensures FlattenAll(nodes + [node]) == FlattenAll(nodes) + Flatten(node)
  {
    hide Flatten;
    if nodes == [] {
      assert [node][1..] == [];
    } else {
      FlattenSnoc(nodes[1..], node);
      assert (nodes + [node])[1..] == nodes[1..] + [node];
      assert (nodes + [node])[0] == nodes[0];
    }
  }

  lemma FlattenTop(levels: seq<Level>, top: Level, node: Node)
    ensures FlattenLevels(levels + [top.(before := top.before + [node])]) == FlattenLevels(levels + [top]) + Flatten(node)
  {
    hide Flatten, FlattenAll;
    FlattenSnoc(top.before, node);
    assert (levels + [top])[..|levels|] == levels;
    assert (levels + [top.(before := top.before + [node])])[..|levels|] == levels;
  }

  lemma FlattenPush(levels: seq<Level>, name: string, attributes: seq<Attribute>)
    ensures FlattenLevels(levels + [Level(name, attributes, [])]) == FlattenLevels(levels) + [Start(name, attributes)]
  {
    assert (levels + [Level(name, attributes, [])])[..|levels|] == levels;
  }

  /** The events of a partly built tree. */
  function Built(roots: seq<Node>, levels: seq<Level>): seq<Event> {
    FlattenAll(roots) + FlattenLevels(levels)
  }

  /** From a parser state on, a run that ends with all elements closed completes a tree. */
  lemma {:induction false} Complete(roots: seq<Node>, levels: seq<Level>, s: State, events: seq<Event>) returns (nodes: seq<Node>)
    requires |s.stack| == |s.texts| == |levels|
    requires Run(s, events).Ok? && Run(s, events).value.stack == []
    ensures FlattenAll(nodes) == Built(roots, levels) + events
    decreases |events|
  {
    hide FlattenAll, FlattenLevels, Flatten, OpenElement, PointWork, AssignText, CloseAll, Built;
    if events == [] {
      nodes := roots;
      BuiltRoots(roots);
      assert levels == [];
    } else {
      var next, rest := Step(s, events[0]).value, events[1..];
      assert Built(roots, levels) + events == (Built(roots, levels) + [events[0]]) + rest;
      match events[0]
      case Start(name, attributes) =>
        GrowStart(roots, levels, name, attributes);
        nodes := Complete(roots, levels + [Level(name, attributes, [])], next, rest);
      case At(point) =>
        var more := Grow(roots, levels, Leaf(point));
        FlattenLeaf(point);
        nodes := Complete(more.0, more.1, next, rest);
      case End =>
        var more := GrowEnd(roots, levels);
        nodes := Complete(more.0, more.1, next, rest);
    }
  }

  lemma BuiltRoots(roots: seq<Node>)
    ensures Built(roots, []) + [] == FlattenAll(roots)
  {
  }

  lemma GrowStart(roots: seq<Node>, levels: seq<Level>, name: string, attributes: seq<Attribute>)
    ensures Built(roots, levels + [Level(name, attributes, [])]) == Built(roots, levels) + [Start(name, attributes)]
  {
    hide FlattenAll, FlattenLevels;
    FlattenPush(levels, name, attributes);
  }

  lemma FlattenLeaf(point: Point)
    ensures Flatten(Leaf(point)) == [At(point)]
  {
  }

  /** Adds a finished node to the innermost level, or to the roots. */
  lemma Grow(roots: seq<Node>, levels: seq<Level>, node: Node) returns (grown: (seq<Node>, seq<Level>))
    ensures |grown.1| == |levels|
    ensures Built(grown.0, grown.1) == Built(roots, levels) + Flatten(node)
  {
    hide FlattenAll, FlattenLevels, Flatten;
    if levels == [] {
      FlattenSnoc(roots, node);
      NoLevels();
      grown := (roots + [node], []);
    } else {
      var outer, top := levels[..|levels| - 1], levels[|levels| - 1];
      assert levels == outer + [top];
      FlattenTop(outer, top, node);
      grown := (roots, outer + [top.(before := top.before + [node])]);
    }
  }

  /** Turns the innermost level into a finished element. */
  lemma GrowEnd(roots: seq<Node>, levels: seq<Level>) returns (grown: (seq<Node>, seq<Level>))
    requires levels != []
    ensures |grown.1| == |levels| - 1
    ensures Built(grown.0, grown.1) == Built(roots, levels) + [End]
  {
    hide FlattenAll, FlattenLevels, Flatten;
    var outer, top := levels[..|levels| - 1], levels[|levels| - 1];
    assert levels == outer + [top];
    FlattenElement(outer, top);
    assert Built(roots, levels) + [End] == FlattenAll(roots) + (FlattenLevels(levels) + [End]);
    grown := Grow(roots, outer, Element(top.name, top.attributes, top.before));
  }

  lemma NoLevels()
    ensures FlattenLevels([]) == []
  {
  }

  lemma FlattenElement(outer: seq<Level>, top: Level)
    ensures FlattenLevels(outer + [top]) + [End] == FlattenLevels(outer) + Flatten(Element(top.name, top.attributes, top.before))
  {
    hide FlattenAll;
    assert (outer + [top])[..|outer|] == outer;
  }

  // ---------------------------------------------------------------- counting components

  const ALL_KINDS: set<Kind> := {Principal, Trigger, Action}

  function Emitted(record: Record, kind: Kind): seq<Fields> {
    match kind case Principal => record.principals case Trigger => record.triggers case Action => record.actions
  }

  /** Components of a kind: those emitted and the one that is open. */
  function Count(w: Work, kind: Kind): nat {
    |Emitted(w.record, kind)| + if w.slots.Get(kind).Some? then 1 else 0
  }

  function Total(w: Work, kinds: set<Kind>): nat {
    (if Principal in kinds then Count(w, Principal) else 0)
    + (if Trigger in kinds then Count(w, Trigger) else 0)
    + (if Action in kinds then Count(w, Action) else 0)
  }

  predicate CountsAs(kind: Option<Kind>, kinds: set<Kind>) {
    kind.Some? && kind.value in kinds
  }

  lemma OneOfThree(kind: Option<Kind>)
    ensures kind == None || kind == Some(Principal) || kind == Some(Trigger) || kind == Some(Action)
    ensures kind.Some? ==> CountsAs(kind, ALL_KINDS)
  {
    if kind.Some? {
      match kind.value
      case Principal =>
      case Trigger =>
      case Action =>
    }
  }

  /** The components of some kinds that an element, and all within it, start. */
  function Components(path: seq<string>, node: Node, kinds: set<Kind>): nat
    decreases node
  {
    match node
    case Leaf(point) => if point.Empty? && CountsAs(KindOf(path, LocalName(point.name)), kinds - {Principal}) then 1 else 0
    case Element(name, _, children) =>
      var element := LocalName(name);
      (if CountsAs(KindOf(path, element), kinds) then 1 else 0) + ComponentsAll(path + [element], children, kinds)
  }

  function ComponentsAll(path: seq<string>, nodes: seq<Node>, kinds: set<Kind>): nat
    decreases nodes
  {
    if nodes == [] then 0 else Components(path, nodes[0], kinds) + ComponentsAll(path, nodes[1..], kinds)
  }

  /** An opened component adds one to the total if its kind was not open, and nothing otherwise. */
  lemma OpenTotal(path: seq<string>, element: string, attributes: seq<Attribute>, w: Work, kinds: set<Kind>)
    requires OpenElement(path, element, attributes, w).Ok?
    ensures Total(OpenElement(path, element, attributes, w).value, kinds)
         == Total(w, kinds) + if CountsAs(KindOf(path, element), kinds) && KindOf(path, element).value !in Open(w.slots) then 1 else 0
  {
    hide KindOf, OpenElement, Open, Count;
    OpenCount(path, element, attributes, w, Principal);
    OpenCount(path, element, attributes, w, Trigger);
    OpenCount(path, element, attributes, w, Action);
    OneOfThree(KindOf(path, element));
  }

  lemma OpenCount(path: seq<string>, element: string, attributes: seq<Attribute>, w: Work, kind: Kind)
    requires OpenElement(path, element, attributes, w).Ok?
    ensures Count(OpenElement(path, element, attributes, w).value, kind)
         == Count(w, kind) + if KindOf(path, element) == Some(kind) && kind !in Open(w.slots) then 1 else 0
  {
    hide KindOf, Lookup, Open;
    RootHasNoKind(path, element);
    OpenHas(w.slots, kind);
  }

  lemma PointTotal(path: seq<string>, outside: bool, point: Point, w: Work, kinds: set<Kind>)
    requires PointWork(path, outside, point, w).Ok?
    ensures PointWork(path, outside, point, w).value.slots == w.slots
    ensures Total(PointWork(path, outside, point, w).value, kinds) == Total(w, kinds) + Components(path, Leaf(point), kinds)
  {
    hide KindOf, Lookup, Open;
  }

  lemma AssignTotal(path: seq<string>, text: string, w: Work, kinds: set<Kind>)
    ensures Total(AssignText(path, text, w), kinds) == Total(w, kinds)
  {
    hide AssignText, Count;
    AssignCount(path, text, w, Principal);
    AssignCount(path, text, w, Trigger);
    AssignCount(path, text, w, Action);
  }

  lemma AssignCount(path: seq<string>, text: string, w: Work, kind: Kind)
    ensures Count(AssignText(path, text, w), kind) == Count(w, kind)
  {
    hide InsertRepeated, RelativeKey, Trim, Truncated;
  }

  /** Closing moves a component from the open ones to the record. */
  lemma CloseTotal(w: Work, depth: nat, kinds: set<Kind>)
    ensures Total(CloseAll(w, depth), kinds) == Total(w, kinds) && CloseAll(w, depth).sawTask == w.sawTask
  {
    hide CloseOne;
    CloseOneTotal(w, Action, depth, kinds);
    var first := CloseOne(w, Action, depth);
    CloseOneTotal(first, Trigger, depth, kinds);
    CloseOneTotal(CloseOne(first, Trigger, depth), Principal, depth, kinds);
  }

  lemma CloseOneTotal(w: Work, kind: Kind, depth: nat, kinds: set<Kind>)
    ensures Total(CloseOne(w, kind, depth), kinds) == Total(w, kinds) && CloseOne(w, kind, depth).sawTask == w.sawTask
  {
    hide Open;
  }

  // ---------------------------------------------------------------- same errors, fewer components

  /** Whether and how opening or a point fails does not depend on what is collected. */
  lemma OpenFate(path: seq<string>, element: string, attributes: seq<Attribute>, v: Work, w: Work)
    requires v.sawTask == w.sawTask
    ensures SameFate(OpenElement(path, element, attributes, v), OpenElement(path, element, attributes, w))
  {
    hide KindOf, Lookup;
  }

  lemma PointFate(path: seq<string>, outside: bool, point: Point, v: Work, w: Work)
    requires v.sawTask == w.sawTask
    ensures SameFate(PointWork(path, outside, point, v), PointWork(path, outside, point, w))
  {
    hide KindOf, Lookup;
  }

  predicate SameFate(a: TaskResult<Work>, b: TaskResult<Work>) {
    if a.Ok? then b.Ok? && a.value.sawTask == b.value.sawTask else b == a
  }

  /** The parser ended as the recursion did, with at most `bound` components. */
  ghost predicate Behind(ran: TaskResult<State>, path: seq<string>, meaning: TaskResult<Work>, bound: nat, kinds: set<Kind>) {
    match meaning
    case Err(error) => ran == Err(error)
    case Ok(after) =>
      && ran.Ok? && ran.value.stack == path && |ran.value.texts| == |path|
      && ran.value.work.sawTask == after.sawTask && Total(ran.value.work, kinds) <= bound
  }

  /** Whatever is nested, the parser fails as the recursion does and never gains a component. */
  lemma {:induction false} BehindNode(path: seq<string>, texts: seq<string>, v: Work, w: Work, node: Node, kinds: set<Kind>)
    requires |path| == |texts| && v.sawTask == w.sawTask
    ensures Behind(Run(State(path, texts, v), Flatten(node)), path, Meaning(path, w, node), Total(v, kinds) + Components(path, node, kinds), kinds)
    decreases node
  {
    hide OpenElement, AssignText, CloseAll, LeaveElement, PointWork, KindOf, Run, Total;
    match node
    case Leaf(point) =>
      RunOne(State(path, texts, v), At(point));
      PointFate(path, path == [], point, v, w);
      if PointWork(path, path == [], point, v).Ok? {
        PointTotal(path, path == [], point, v, kinds);
      }
    case Element(name, attributes, children) =>
      var s, element := State(path, texts, v), LocalName(name);
      var start, finish, deeper := [Start(name, attributes)], [End], path + [element];
      assert Flatten(node) == start + (FlattenAll(children) + finish);
      RunConcat(s, start, FlattenAll(children) + finish);
      RunOne(s, Start(name, attributes));
      var ours, theirs := OpenElement(path, element, attributes, v), OpenElement(path, element, attributes, w);
      OpenFate(path, element, attributes, v, w);
      if ours.Ok? {
        OpenTotal(path, element, attributes, v, kinds);
        RunConcat(State(deeper, texts + [""], ours.value), FlattenAll(children), finish);
        BehindAll(deeper, texts + [""], ours.value, theirs.value, children, kinds);
        var inside := Run(State(deeper, texts + [""], ours.value), FlattenAll(children));
        if inside.Ok? {
          RunOne(inside.value, End);
          EndTotal(inside.value, kinds);
          LeaveSaw(path, element, w, OwnText(children), MeaningAll(deeper, theirs.value, children).value);
        }
      }
  }

  lemma EndTotal(s: State, kinds: set<Kind>)
    requires |s.stack| == |s.texts| > 0
    ensures Step(s, End).Ok? && Total(Step(s, End).value.work, kinds) == Total(s.work, kinds) && Step(s, End).value.work.sawTask == s.work.sawTask
  {
    hide Total, CloseAll, AssignText;
    var text := s.texts[|s.texts| - 1];
    AssignTotal(s.stack, text, s.work, kinds);
    AssignKeepsShape(s.stack, text, s.work);
    CloseTotal(AssignText(s.stack, text, s.work), |s.stack|, kinds);
  }

  lemma LeaveSaw(path: seq<string>, element: string, w: Work, text: string, inside: Work)
    ensures LeaveElement(path, element, w.slots, AssignText(path + [element], text, inside)).sawTask == inside.sawTask
  {
    hide AssignText, KindOf;
    AssignKeepsShape(path + [element], text, inside);
  }

  lemma {:induction false} BehindAll(path: seq<string>, texts: seq<string>, v: Work, w: Work, nodes: seq<Node>, kinds: set<Kind>)
    requires |path| == |texts| && v.sawTask == w.sawTask
    ensures Behind(Run(State(path, texts, v), FlattenAll(nodes)), path, MeaningAll(path, w, nodes), Total(v, kinds) + ComponentsAll(path, nodes, kinds), kinds)
    decreases nodes
  {
    hide Meaning, Components, Step, Run, Total;
    var s := State(path, texts, v);
    if nodes == [] {
      RunNothing(s);
    } else {
      RunConcat(s, Flatten(nodes[0]), FlattenAll(nodes[1..]));
      BehindNode(path, texts, v, w, nodes[0], kinds);
      if Meaning(path, w, nodes[0]).Ok? {
        var next := Run(s, Flatten(nodes[0])).value;
        BehindAll(path, next.texts, next.work, Meaning(path, w, nodes[0]).value, nodes[1..], kinds);
      }
    }
  }

  /** The recursion emits every component. */
  lemma {:induction false} MeaningTotal(path: seq<string>, w: Work, node: Node, kinds: set<Kind>)
    ensures Meaning(path, w, node).Ok? ==> Total(Meaning(path, w, node).value, kinds) == Total(w, kinds) + Components(path, node, kinds)
    decreases node
  {
    hide OpenElement, AssignText, LeaveElement, PointWork, KindOf, Total;
    match node
    case Leaf(point) =>
      if Meaning(path, w, node).Ok? {
        PointTotal(path, path == [], point, w, kinds);
      }
    case Element(name, attributes, children) =>
      var element := LocalName(name);
      var deeper, entered := path + [element], OpenElement(path, element, attributes, w);
      if entered.Ok? {
        OpenTotal(path, element, attributes, w, kinds);
        MeaningAllTotal(deeper, entered.value, children, kinds);
        MeaningAllShape(deeper, entered.value, children);
        var inside := MeaningAll(deeper, entered.value, children);
        if inside.Ok? {
          AssignTotal(deeper, OwnText(children), inside.value, kinds);
          AssignKeepsShape(deeper, OwnText(children), inside.value);
          var filled := AssignText(deeper, OwnText(children), inside.value);
          ShapeTransitive(entered.value.slots, inside.value.slots, filled.slots);
          LeaveTotal(path, element, attributes, w, filled, kinds);
        }
      }
  }

  lemma LeaveTotal(path: seq<string>, element: string, attributes: seq<Attribute>, w: Work, inside: Work, kinds: set<Kind>)
    requires OpenElement(path, element, attributes, w).Ok?
    requires SameShape(OpenElement(path, element, attributes, w).value.slots, inside.slots)
    ensures Total(LeaveElement(path, element, w.slots, inside), kinds) + Total(OpenElement(path, element, attributes, w).value, kinds)
         == Total(inside, kinds) + Total(w, kinds) + if CountsAs(KindOf(path, element), kinds) then 1 else 0
  {
    hide KindOf, OpenElement, LeaveElement, SameShape, Count;
    LeaveCount(path, element, attributes, w, inside, Principal);
    LeaveCount(path, element, attributes, w, inside, Trigger);
    LeaveCount(path, element, attributes, w, inside, Action);
    OneOfThree(KindOf(path, element));
  }

  lemma LeaveCount(path: seq<string>, element: string, attributes: seq<Attribute>, w: Work, inside: Work, kind: Kind)
    requires OpenElement(path, element, attributes, w).Ok?
    requires SameShape(OpenElement(path, element, attributes, w).value.slots, inside.slots)
    ensures Count(LeaveElement(path, element, w.slots, inside), kind) + Count(OpenElement(path, element, attributes, w).value, kind)
         == Count(inside, kind) + Count(w, kind) + if KindOf(path, element) == Some(kind) then 1 else 0
  {
    hide KindOf, Lookup;
    RootHasNoKind(path, element);
    var entered := OpenElement(path, element, attributes, w).value;
    assert entered.slots.Get(kind).Some? <==> inside.slots.Get(kind).Some?;
    if KindOf(path, element).Some? {
      assert entered.slots.Get(KindOf(path, element).value).Some?;
    }
  }

  lemma {:induction false} MeaningAllTotal(path: seq<string>, w: Work, nodes: seq<Node>, kinds: set<Kind>)
    ensures MeaningAll(path, w, nodes).Ok? ==> Total(MeaningAll(path, w, nodes).value, kinds) == Total(w, kinds) + ComponentsAll(path, nodes, kinds)
    decreases nodes
  {
    hide Meaning, Components, Total;
    if nodes != [] {
      MeaningTotal(path, w, nodes[0], kinds);
      if Meaning(path, w, nodes[0]).Ok? {
        MeaningAllTotal(path, Meaning(path, w, nodes[0]).value, nodes[1..], kinds);
      }
    }
  }

  // ---------------------------------------------------------------- nesting always loses

  lemma {:induction false} LosesNode(path: seq<string>, texts: seq<string>, w: Work, node: Node)
    requires |path| == |texts| && Within(w.slots, |path|) && !Unnested(path, Open(w.slots), node)
    requires Run(State(path, texts, w), Flatten(node)).Ok?
    ensures Total(Run(State(path, texts, w), Flatten(node)).value.work, ALL_KINDS) < Total(w, ALL_KINDS) + Components(path, node, ALL_KINDS)
    decreases node
  {
    hide OpenElement, AssignText, CloseAll, KindOf, Run, Total, Open, Within;
    var element, children, attributes := LocalName(node.name), node.children, node.attributes;
    var s, deeper := State(path, texts, w), path + [element];
    assert Flatten(node) == [Start(node.name, attributes)] + (FlattenAll(children) + [End]);
    RunConcat(s, [Start(node.name, attributes)], FlattenAll(children) + [End]);
    RunOne(s, Start(node.name, attributes));
    var entered := OpenElement(path, element, attributes, w).value;
    OpenTotal(path, element, attributes, w, ALL_KINDS);
    OpenShape(path, element, attributes, w);
    RunConcat(State(deeper, texts + [""], entered), FlattenAll(children), [End]);
    var inside := Run(State(deeper, texts + [""], entered), FlattenAll(children)).value;
    BehindAll(deeper, texts + [""], entered, entered, children, ALL_KINDS);
    var kind := KindOf(path, element);
    OneOfThree(kind);
    if kind.None? || kind.value !in Open(w.slots) {
      assert kind.None? ==> Open(w.slots) + {} == Open(w.slots);
      LosesAll(deeper, texts + [""], entered, children);
    }
    RunOne(inside, End);
    EndTotal(inside, ALL_KINDS);
  }

  lemma {:induction false} LosesAll(path: seq<string>, texts: seq<string>, w: Work, nodes: seq<Node>)
    requires |path| == |texts| && Within(w.slots, |path|) && !UnnestedAll(path, Open(w.slots), nodes)
    requires Run(State(path, texts, w), FlattenAll(nodes)).Ok?
    ensures Total(Run(State(path, texts, w), FlattenAll(nodes)).value.work, ALL_KINDS) < Total(w, ALL_KINDS) + ComponentsAll(path, nodes, ALL_KINDS)
    decreases nodes
  {
    hide Meaning, Components, Unnested, Step, Run, Total, Open, Within;
    var s := State(path, texts, w);
    RunConcat(s, Flatten(nodes[0]), FlattenAll(nodes[1..]));
    var next := Run(s, Flatten(nodes[0])).value;
    BehindNode(path, texts, w, w, nodes[0], ALL_KINDS);
    BehindAll(path, next.texts, next.work, next.work, nodes[1..], ALL_KINDS);
    if !Unnested(path, Open(w.slots), nodes[0]) {
      LosesNode(path, texts, w, nodes[0]);
    } else {
      RunNode(path, texts, w, nodes[0]);
      MeaningShape(path, w, nodes[0]);
      ShapeMeans(next.work.slots, w.slots, |path|);
      LosesAll(path, next.texts, next.work, nodes[1..]);
    }
  }

  // ---------------------------------------------------------------- the parser is the recursion exactly without nesting

  /** On a flattened tree the parser gives the meaning if and only if no component is in another of its kind. */
  lemma ParserIsRecursion(nodes: seq<Node>)
    ensures Parse(FlattenAll(nodes)) == TaskMeaning(nodes) <==> UnnestedAll([], {}, nodes) || TaskMeaning(nodes).Err?
  {
    hide Run, MeaningAll, UnnestedAll, Components;
    BehindAll([], [], NO_WORK, NO_WORK, nodes, ALL_KINDS);
    NothingOpen();
    var ran, meant := Run(START, FlattenAll(nodes)), MeaningAll([], NO_WORK, nodes);
    if UnnestedAll([], {}, nodes) {
      RunAll([], [], NO_WORK, nodes);
    } else if meant.Ok? {
      LosesAll([], [], NO_WORK, nodes);
      MeaningAllTotal([], NO_WORK, nodes, ALL_KINDS);
      MeaningAllShape([], NO_WORK, nodes);
      ShapeMeans(meant.value.slots, NO_WORK.slots, 0);
      assert ran.value.work.record != meant.value.record;
    }
  }

  /** The recursion's record has every trigger, action and started principal exactly once. */
  lemma EachEmittedOnce(nodes: seq<Node>, kind: Kind)
    requires TaskMeaning(nodes).Ok?
    ensures |Emitted(TaskMeaning(nodes).value, kind)| == ComponentsAll([], nodes, {kind})
  {
    hide MeaningAll, ComponentsAll;
    MeaningAllTotal([], NO_WORK, nodes, {kind});
    MeaningAllShape([], NO_WORK, nodes);
    var w := MeaningAll([], NO_WORK, nodes).value;
    assert w.slots.Get(kind).Some? <==> NO_WORK.slots.Get(kind).Some?;
  }

  lemma NothingOpen()
    ensures Open(NO_WORK.slots) == {} && Within(NO_WORK.slots, 0)
  {
  }

  /** Every stream the parser accepts is a tree, whose meaning it gives exactly if nothing is nested. */
  lemma AcceptedStreams(events: seq<Event>) returns (nodes: seq<Node>)
    requires Parse(events).Ok?
    ensures FlattenAll(nodes) == events && TaskMeaning(nodes).Ok?
    ensures Parse(events) == TaskMeaning(nodes) <==> UnnestedAll([], {}, nodes)
  {
    hide Run, MeaningAll, UnnestedAll, FlattenAll;
    nodes := Complete([], [], START, events);
    NoLevels();
    assert Built([], []) == [] by {
      BuiltRoots([]);
      NoNodes();
    }
    assert [] + events == events;
    BehindAll([], [], NO_WORK, NO_WORK, nodes, ALL_KINDS);
    ParserIsRecursion(nodes);
  }

  lemma NoNodes()
    ensures FlattenAll([]) == []
  {
  }

  /** Elements only, without attributes. */
  predicate Bare(node: Node)
    decreases node
  {
    node.Element? && node.attributes == [] && BareAll(node.children)
  }

  predicate BareAll(nodes: seq<Node>)
    decreases nodes
  {
    nodes != [] ==> Bare(nodes[0]) && BareAll(nodes[1..])
  }

  lemma {:induction false} BareOk(path: seq<string>, w: Work, node: Node)
    requires Bare(node)
    ensures Meaning(path, w, node).Ok?
    ensures Meaning(path, w, node).value.sawTask == (w.sawTask || (path == [] && LocalName(node.name) == "task"))
    decreases node
  {
    hide KindOf, AssignText, LeaveElement;
    var element := LocalName(node.name);
    var entered := OpenElement(path, element, [], w).value;
    BareAllOk(path + [element], entered, node.children);
    LeaveSaw(path, element, w, OwnText(node.children), MeaningAll(path + [element], entered, node.children).value);
  }

  lemma {:induction false} BareAllOk(path: seq<string>, w: Work, nodes: seq<Node>)
    requires BareAll(nodes) && path != []
    ensures MeaningAll(path, w, nodes).Ok? && MeaningAll(path, w, nodes).value.sawTask == w.sawTask
    decreases nodes
  {
    hide Meaning;
    if nodes != [] {
      BareOk(path, w, nodes[0]);
      BareAllOk(path, Meaning(path, w, nodes[0]).value, nodes[1..]);
    }
  }

  function InTriggers(inside: seq<Node>): Node {
    Element("triggers", [], [Element("trigger", [], inside)])
  }

  lemma OneNode(path: seq<string>, open: set<Kind>, node: Node)
    ensures UnnestedAll(path, open, [node]) <==> Unnested(path, open, node)
    ensures BareAll([node]) <==> Bare(node)
  {
    hide Unnested, Bare;
    assert [node][1..] == [];
  }

  lemma TriggerUnder(path: seq<string>, open: set<Kind>, inside: seq<Node>)
    ensures Unnested(path, open, InTriggers(inside)) ==> Trigger !in open
    ensures !UnnestedAll(path + ["triggers"] + ["trigger"], open + {Trigger}, inside) ==> !Unnested(path, open, InTriggers(inside))
    ensures Bare(InTriggers(inside)) <==> BareAll(inside)
  {
    hide LocalName, KindOf;
    PlainName("triggers");
    PlainName("trigger");
    OneNode(path + ["triggers"], open, Element("trigger", [], inside));
    TriggerKind(path);
  }

  lemma TriggerKind(path: seq<string>)
    ensures KindOf(path, "triggers") == None && KindOf(path + ["triggers"], "trigger") == Some(Trigger)
  {
  }

  /** A trigger inside a trigger: the outer one is lost. */
  lemma NestedTriggerIsLost()
    ensures var nodes := [Element("task", [], [InTriggers([InTriggers([])])])];
            TaskMeaning(nodes).Ok? && Parse(FlattenAll(nodes)) != TaskMeaning(nodes)
  {
    hide LocalName, Meaning, Flatten, InTriggers, Run;
    var inner := InTriggers([]);
    var outer := InTriggers([inner]);
    var path, task := ["task"], Element("task", [], [outer]);
    PlainName("task");
    TriggerUnder(path + ["triggers"] + ["trigger"], {} + {Trigger}, []);
    OneNode(path + ["triggers"] + ["trigger"], {} + {Trigger}, inner);
    TriggerUnder(path, {}, [inner]);
    OneNode(path, {}, outer);
    OneNode([], {}, task);
    assert [] + ["task"] == path && KindOf([], "task") == None;
    ParserIsRecursion([task]);
    BareOk([], NO_WORK, task);
    assert MeaningAll([], Meaning([], NO_WORK, task).value, [task][1..]).Ok?;
  }
}
