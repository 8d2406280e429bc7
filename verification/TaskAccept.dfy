// Which event streams the scheduled-task parser accepts: trees with a task element at the top, without
// document types, unreadable markup, text outside the root, or attributes that cannot be read.
module TaskAcceptance {
  import opened Basics
  import opened Texts
  import opened TaskSteps
  import opened TaskTree
  import opened TaskNesting

  // ---------------------------------------------------------------- attributes

  predicate IsOther(attribute: Attribute, wanted: string) {
    attribute.Attribute? && LocalName(attribute.key) != wanted
  }

  /** Of all attributes the first one counts that has the name or cannot be read. */
  lemma {:induction false} LookupExact(before: seq<Attribute>, rest: seq<Attribute>, wanted: string)
    requires forall attribute <- before :: IsOther(attribute, wanted)
    requires rest != [] ==> !IsOther(rest[0], wanted)
    ensures Lookup(before + rest, wanted)
         == if rest == [] then Ok(None)
            else if rest[0].Attribute? && rest[0].value.Some? then Ok(rest[0].value) else Err(BadMarkup)
  {
    hide LocalName;
    if before == [] {
      assert before + rest == rest;
    } else {
      assert before[0] in before && (before + rest)[0] == before[0] && (before + rest)[1..] == before[1..] + rest;
      LookupExact(before[1..], rest, wanted);
    }
  }

  // ---------------------------------------------------------------- what is accepted

  predicate CanRead(attributes: seq<Attribute>, wanted: string) {
    Lookup(attributes, wanted).Ok?
  }

  /** What may stand between tags: outside the root only blank text; never a document type or broken markup. */
  predicate GoodPoint(path: seq<string>, point: Point) {
    match point
    case Empty(name, attributes) =>
      var kind := KindOf(path, LocalName(name)); kind == Some(Trigger) || kind == Some(Action) ==> CanRead(attributes, "id")
    case Text(kind, text) => path == [] ==> kind == Plain && Trim(text) == ""
    case DocType => false
    case Broken => false
    case Other => true
  }

  predicate Good(path: seq<string>, node: Node)
    decreases node
  {
    match node
    case Leaf(point) => GoodPoint(path, point)
    case Element(name, attributes, children) =>
      var element := LocalName(name);
      && (path == [] && element == "task" ==> CanRead(attributes, "version"))
      && (KindOf(path, element).Some? ==> CanRead(attributes, "id"))
      && GoodAll(path + [element], children)
  }

  predicate GoodAll(path: seq<string>, nodes: seq<Node>)
    decreases nodes
  {
    nodes != [] ==> Good(path, nodes[0]) && GoodAll(path, nodes[1..])
  }

  predicate IsTask(path: seq<string>, node: Node) {
    path == [] && node.Element? && LocalName(node.name) == "task"
  }

  predicate HasTask(path: seq<string>, nodes: seq<Node>) {
    nodes != [] && (IsTask(path, nodes[0]) || HasTask(path, nodes[1..]))
  }

  lemma {:induction false} NoTaskBelow(path: seq<string>, nodes: seq<Node>)
    requires path != []
    ensures !HasTask(path, nodes)
  {
    if nodes != [] {
      NoTaskBelow(path, nodes[1..]);
    }
  }

  lemma OpenGood(path: seq<string>, element: string, attributes: seq<Attribute>, w: Work)
    ensures OpenElement(path, element, attributes, w).Ok? <==>
              && (path == [] && element == "task" ==> CanRead(attributes, "version"))
              && (KindOf(path, element).Some? ==> CanRead(attributes, "id"))
    ensures OpenElement(path, element, attributes, w).Ok? ==>
              OpenElement(path, element, attributes, w).value.sawTask == (w.sawTask || (path == [] && element == "task"))
  {
    hide Lookup, KindOf;
    RootHasNoKind(path, element);
  }

  lemma PointGood(path: seq<string>, point: Point, w: Work)
    ensures PointWork(path, path == [], point, w).Ok? <==> GoodPoint(path, point)
    ensures PointWork(path, path == [], point, w).Ok? ==> PointWork(path, path == [], point, w).value.sawTask == w.sawTask
  {
    hide Lookup, KindOf, LocalName, Trim;
  }

  /** The recursion succeeds exactly on good nodes, and sees the task elements among the roots. */
  lemma {:induction false} MeaningGood(path: seq<string>, w: Work, node: Node)
    ensures Meaning(path, w, node).Ok? <==> Good(path, node)
    ensures Meaning(path, w, node).Ok? ==> Meaning(path, w, node).value.sawTask == (w.sawTask || IsTask(path, node))
    decreases node
  {
    hide OpenElement, PointWork, LeaveElement, AssignText, KindOf, GoodPoint, CanRead;
    match node
    case Leaf(point) => PointGood(path, point, w);
    case Element(name, attributes, children) =>
      var element := LocalName(name);
      OpenGood(path, element, attributes, w);
      var entered := OpenElement(path, element, attributes, w);
      if entered.Ok? {
        MeaningAllGood(path + [element], entered.value, children);
        NoTaskBelow(path + [element], children);
        var inside := MeaningAll(path + [element], entered.value, children);
        if inside.Ok? {
          LeaveSaw(path, element, w, OwnText(children), inside.value);
        }
      }
  }

  lemma {:induction false} MeaningAllGood(path: seq<string>, w: Work, nodes: seq<Node>)
    ensures MeaningAll(path, w, nodes).Ok? <==> GoodAll(path, nodes)
    ensures MeaningAll(path, w, nodes).Ok? ==> MeaningAll(path, w, nodes).value.sawTask == (w.sawTask || HasTask(path, nodes))
    decreases nodes
  {
    hide Meaning, Good, IsTask;
    if nodes != [] {
      MeaningGood(path, w, nodes[0]);
      if Meaning(path, w, nodes[0]).Ok? {
        MeaningAllGood(path, Meaning(path, w, nodes[0]).value, nodes[1..]);
      }
    }
  }

  /** The parser accepts exactly the good trees with a task at the top. */
  lemma TreeAccepted(nodes: seq<Node>)
    ensures Parse(FlattenAll(nodes)).Ok? <==> GoodAll([], nodes) && HasTask([], nodes)
  {
    hide Run, MeaningAll, FlattenAll, GoodAll, HasTask, Components, Total;
    MeaningAllGood([], NO_WORK, nodes);
    BehindAll([], [], NO_WORK, NO_WORK, nodes, ALL_KINDS);
  }

  /** And it accepts nothing but trees. */
  lemma AcceptedExactly(events: seq<Event>)
    ensures Parse(events).Ok? <==> exists nodes :: FlattenAll(nodes) == events && GoodAll([], nodes) && HasTask([], nodes)
  {
    hide Parse, FlattenAll, GoodAll, HasTask;
    if Parse(events).Ok? {
      var nodes := AcceptedStreams(events);
      TreeAccepted(nodes);
    }
    if nodes :| FlattenAll(nodes) == events && GoodAll([], nodes) && HasTask([], nodes) {
      TreeAccepted(nodes);
    }
  }
}
