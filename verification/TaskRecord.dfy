// What record a task definition gives, element by element: the components in the order in which they end,
// each with the texts below it under the names that lead to them, and the texts outside of components.
module TaskRecords {
  import opened Basics
  import opened Texts
  import opened TaskSteps
  import opened TaskTree
  import opened TaskNesting
  import opened TaskFields

  /** A text and the names that lead to its element from where it is collected. */
  datatype Value = Value(names: seq<string>, text: string)

  /** What a part of a definition adds: finished components, and texts for where they are collected. */
  datatype Gain = Gain(principals: seq<Fields>, triggers: seq<Fields>, actions: seq<Fields>, values: seq<Value>)

  const NO_GAIN := Gain([], [], [], [])

  function Plus(a: Gain, b: Gain): Gain {
    Gain(a.principals + b.principals, a.triggers + b.triggers, a.actions + b.actions, a.values + b.values)
  }

  function OneMore(g: Gain, kind: Kind, fields: Fields): Gain {
    match kind
    case Principal => g.(principals := g.principals + [fields])
    case Trigger => g.(triggers := g.triggers + [fields])
    case Action => g.(actions := g.actions + [fields])
  }

  /** Of the components around a text it is collected in an action first, then in a trigger, then in a principal. */
  function Collector(open: set<Kind>): Option<Kind> {
    if Action in open then Some(Action) else if Trigger in open then Some(Trigger)
    else if Principal in open then Some(Principal) else None
  }

  /** The fields that a component starts with. */
  function StartFields(element: string, attributes: seq<Attribute>): Fields {
    var id := Lookup(attributes, "id");
    if id.Ok? && id.value.Some? then map["type" := element, "id" := Truncated(id.value.value, 65_536)] else map["type" := element]
  }

  /** The texts as fields, each under its names with dots between them. */
  function Fill(fields: Fields, values: seq<Value>): Fields {
    if values == [] then fields
    else
      var last := values[|values| - 1];
      InsertRepeated(Fill(fields, values[..|values| - 1]), Join(last.names, "."), last.text)
  }

  /** Texts anywhere below the registration information go under the name of their own element. */
  function FillRegistration(fields: Fields, values: seq<Value>): Fields {
    if values == [] then fields
    else
      var before, last := FillRegistration(fields, values[..|values| - 1]), values[|values| - 1];
      if |last.names| >= 2 && last.names[0] == "task" && last.names[1] == "registrationinfo"
      then InsertRepeated(before, last.names[|last.names| - 1], last.text) else before
  }

  /** Texts below the settings go under the names below the settings. */
  function FillSettings(fields: Fields, values: seq<Value>): Fields {
    if values == [] then fields
    else
      var before, last := FillSettings(fields, values[..|values| - 1]), values[|values| - 1];
      if |last.names| >= 2 && last.names[0] == "task" && last.names[1] == "settings"
      then InsertRepeated(before, Join(last.names[2..], "."), last.text) else before
  }

  /** The text of an element, trimmed and cut, if there is any. */
  function OwnValue(names: seq<string>, children: seq<Node>): seq<Value> {
    var text := Trim(OwnText(children));
    if text == "" then [] else [Value(names, Truncated(text, 65_536))]
  }

  /**
   * What a node adds: `path` are the elements around it, `open` the kinds of the components around
   * it, and `names` the names from the collector to it, or all of them outside of components.
   */
  function Gains(path: seq<string>, open: set<Kind>, names: seq<string>, node: Node): Gain
    decreases node
  {
    match node
    case Leaf(Empty(name, attributes)) =>
      var kind := KindOf(path, LocalName(name));
      if kind.Some? && kind.value != Principal then OneMore(NO_GAIN, kind.value, StartFields(LocalName(name), attributes)) else NO_GAIN
    case Leaf(_) => NO_GAIN
    case Element(name, attributes, children) =>
      var element := LocalName(name);
      match KindOf(path, element)
      case None =>
        Plus(GainsAll(path + [element], open, names + [element], children), Gain([], [], [], OwnValue(names + [element], children)))
      case Some(kind) =>
        var inner := open + {kind};
        var fields := StartFields(element, attributes);
        if Collector(inner) == Some(kind) then
          var g := Plus(GainsAll(path + [element], inner, [], children), Gain([], [], [], OwnValue([], children)));
          OneMore(g.(values := []), kind, Fill(fields, g.values))
        else
          var below := names + [element];
          OneMore(Plus(GainsAll(path + [element], inner, below, children), Gain([], [], [], OwnValue(below, children))), kind, fields)
  }

  function GainsAll(path: seq<string>, open: set<Kind>, names: seq<string>, nodes: seq<Node>): Gain
    decreases nodes
  {
    if nodes == [] then NO_GAIN else Plus(Gains(path, open, names, nodes[0]), GainsAll(path, open, names, nodes[1..]))
  }

  // ---------------------------------------------------------------- the recursion follows this

  /** The state after something that adds this. */
  ghost predicate Follows(w: Work, g: Gain, after: Work) {
    && after.record.principals == w.record.principals + g.principals
    && after.record.triggers == w.record.triggers + g.triggers
    && after.record.actions == w.record.actions + g.actions
    && match Collector(Open(w.slots))
       case None =>
         && after.slots == w.slots
         && after.record.registration == FillRegistration(w.record.registration, g.values)
         && after.record.settings == FillSettings(w.record.settings, g.values)
       case Some(kind) =>
         && w.slots.Get(kind).Some?
         && var c := w.slots.Get(kind).value;
            && after.slots == w.slots.Set(kind, Some(c.(fields := Fill(c.fields, g.values))))
            && after.record.registration == w.record.registration && after.record.settings == w.record.settings
  }

  /** The names from the collector of a state to the innermost element. */
  function Names(w: Work, path: seq<string>): seq<string> {
    match Collector(Open(w.slots))
    case None => path
    case Some(kind) =>
      if w.slots.Get(kind).Some? && w.slots.Get(kind).value.startDepth <= |path| then path[w.slots.Get(kind).value.startDepth..] else []
  }

  lemma {:induction false} FillConcat(fields: Fields, a: seq<Value>, b: seq<Value>)
    ensures Fill(fields, a + b) == Fill(Fill(fields, a), b)
    ensures FillRegistration(fields, a + b) == FillRegistration(FillRegistration(fields, a), b)
    ensures FillSettings(fields, a + b) == FillSettings(FillSettings(fields, a), b)
    decreases |b|
  {
    hide InsertRepeated, Join;
    if b == [] {
      assert a + b == a;
    } else {
      assert (a + b)[..|a + b| - 1] == a + b[..|b| - 1];
      FillConcat(fields, a, b[..|b| - 1]);
    }
  }

  lemma NothingFollows(w: Work)
    ensures Follows(w, NO_GAIN, w)
  {
    hide InsertRepeated, Join;
    CollectorIsOpen(w.slots);
  }

  lemma CollectorIsOpen(slots: Slots)
    ensures Collector(Open(slots)).Some? ==> slots.Get(Collector(Open(slots)).value).Some?
  {
  }

  lemma FollowsOpen(w: Work, g: Gain, after: Work)
    requires Follows(w, g, after)
    ensures Open(after.slots) == Open(w.slots)
    ensures forall path :: Names(after, path) == Names(w, path)
    ensures SameShape(after.slots, w.slots)
  {
    hide Fill, FillRegistration, FillSettings;
  }

  lemma FollowsThen(w: Work, g: Gain, mid: Work, h: Gain, after: Work)
    requires Follows(w, g, mid) && Follows(mid, h, after)
    ensures Follows(w, Plus(g, h), after)
  {
    hide Fill, FillRegistration, FillSettings, Open;
    FollowsOpen(w, g, mid);
    FillConcat(w.record.registration, g.values, h.values);
    FillConcat(w.record.settings, g.values, h.values);
    if Collector(Open(w.slots)).Some? {
      FillConcat(w.slots.Get(Collector(Open(w.slots)).value).value.fields, g.values, h.values);
    }
  }

  /** The text of an element goes to the collector under its names. */
  lemma AssignFollows(path: seq<string>, children: seq<Node>, w: Work)
    requires Within(w.slots, |path|)
    ensures Follows(w, Gain([], [], [], OwnValue(Names(w, path), children)), AssignText(path, OwnText(children), w))
  {
    hide InsertRepeated, Trim, Truncated, OwnText, Join;
    var text, names := Trim(OwnText(children)), Names(w, path);
    CollectorIsOpen(w.slots);
    if text == "" {
      NothingFollows(w);
    } else {
      var value := Truncated(text, 65_536);
      OneValue(w.record.registration, Value(names, value));
      OneValue(w.record.settings, Value(names, value));
      if Collector(Open(w.slots)).Some? {
        var kind := Collector(Open(w.slots)).value;
        OneValue(w.slots.Get(kind).value.fields, Value(names, value));
        assert w.slots.Get(kind).value.startDepth <= |path|;
      } else {
        Prefixes(path);
      }
    }
  }

  lemma Prefixes(path: seq<string>)
    ensures ["task", "registrationinfo"] <= path <==> |path| >= 2 && path[0] == "task" && path[1] == "registrationinfo"
    ensures ["task", "settings"] <= path <==> |path| >= 2 && path[0] == "task" && path[1] == "settings"
  {
  }

  lemma OneValue(fields: Fields, value: Value)
    ensures Fill(fields, [value]) == InsertRepeated(fields, Join(value.names, "."), value.text)
    ensures FillRegistration(fields, [value])
         == if |value.names| >= 2 && value.names[0] == "task" && value.names[1] == "registrationinfo"
            then InsertRepeated(fields, value.names[|value.names| - 1], value.text) else fields
    ensures FillSettings(fields, [value])
         == if |value.names| >= 2 && value.names[0] == "task" && value.names[1] == "settings"
            then InsertRepeated(fields, Join(value.names[2..], "."), value.text) else fields
  {
    hide InsertRepeated, Join;
    assert [value][..0] == [];
    assert Fill(fields, []) == fields && FillRegistration(fields, []) == fields && FillSettings(fields, []) == fields;
  }

  lemma PointFollows(path: seq<string>, point: Point, w: Work, names: seq<string>)
    requires PointWork(path, path == [], point, w).Ok?
    ensures Follows(w, Gains(path, Open(w.slots), names, Leaf(point)), PointWork(path, path == [], point, w).value)
  {
    hide InsertRepeated, Join, Lookup, KindOf, LocalName, Trim, Truncated, Open, Collector;
    NothingFollows(w);
    CollectorIsOpen(w.slots);
    NoValues(w);
  }

  /** What opening an element does to the collector and to the names. */
  lemma EnterPlain(path: seq<string>, element: string, attributes: seq<Attribute>, w: Work)
    requires OpenElement(path, element, attributes, w).Ok? && KindOf(path, element).None? && Within(w.slots, |path|)
    ensures var entered := OpenElement(path, element, attributes, w).value;
            && entered.slots == w.slots && entered.record == w.record.(version := entered.record.version)
            && Names(entered, path + [element]) == Names(w, path) + [element]
  {
    hide Lookup, KindOf, Open;
    OpenIsWithin(w, path);
  }

  lemma OpenIsWithin(w: Work, path: seq<string>)
    requires Within(w.slots, |path|)
    ensures Collector(Open(w.slots)).Some? ==>
              var kind := Collector(Open(w.slots)).value; w.slots.Get(kind).Some? && w.slots.Get(kind).value.startDepth <= |path|
  {
    CollectorIsOpen(w.slots);
  }

  lemma EnterComponent(path: seq<string>, element: string, attributes: seq<Attribute>, w: Work)
    requires OpenElement(path, element, attributes, w).Ok? && KindOf(path, element).Some? && Within(w.slots, |path|)
    ensures var kind, entered := KindOf(path, element).value, OpenElement(path, element, attributes, w).value;
            && entered.record == w.record
            && entered.slots == w.slots.Set(kind, Some(Component(|path| + 1, StartFields(element, attributes))))
            && (Collector(Open(entered.slots)) == Some(kind) ==> Names(entered, path + [element]) == [])
            && (Collector(Open(entered.slots)) == Collector(Open(w.slots)) != Some(kind) ==>
                  Names(entered, path + [element]) == Names(w, path) + [element])
  {
    hide Lookup, Open, KindOf, Truncated;
    RootHasNoKind(path, element);
    OpenIsWithin(w, path);
  }

  lemma SameVersion(w: Work, entered: Work, g: Gain, after: Work)
    requires entered.slots == w.slots && entered.record == w.record.(version := entered.record.version) && Follows(entered, g, after)
    ensures Follows(w, g, after)
  {
    hide Fill, FillRegistration, FillSettings, Open;
  }

  /** Leaving a component that collected for itself: its fields are emitted. */
  lemma LeaveCollector(path: seq<string>, element: string, attributes: seq<Attribute>, w: Work, entered: Work, g: Gain, filled: Work)
    requires KindOf(path, element).Some? && var kind := KindOf(path, element).value;
             && w.slots.Get(kind).None? && entered.record == w.record
             && entered.slots == w.slots.Set(kind, Some(Component(|path| + 1, StartFields(element, attributes))))
             && Collector(Open(entered.slots)) == Some(kind)
    requires Follows(entered, g, filled)
    ensures var kind := KindOf(path, element).value;
            Follows(w, OneMore(g.(values := []), kind, Fill(StartFields(element, attributes), g.values)),
                    LeaveElement(path, element, w.slots, filled))
  {
    hide Open, KindOf, StartFields, InsertRepeated, Join;
    CollectorIsOpen(w.slots);
    NoValues(w);
    var kind := KindOf(path, element).value;
    SetBack(w.slots, kind, Some(Component(|path| + 1, StartFields(element, attributes))));
  }

  lemma NoValues(w: Work)
    ensures FillRegistration(w.record.registration, []) == w.record.registration && FillSettings(w.record.settings, []) == w.record.settings
    ensures forall kind: Kind :: w.slots.Get(kind).Some? ==>
              var c := w.slots.Get(kind).value;
              Fill(c.fields, []) == c.fields && w.slots.Set(kind, Some(c.(fields := Fill(c.fields, [])))) == w.slots
  {
  }

  /** Setting and clearing a slot that was empty gives back the slots. */
  lemma SetBack(slots: Slots, kind: Kind, c: Option<Component>)
    requires slots.Get(kind).None?
    ensures slots.Set(kind, c).Get(kind) == c && slots.Set(kind, c).Set(kind, None) == slots
    ensures forall d :: slots.Set(kind, c).Set(kind, d).Set(kind, None) == slots && slots.Set(kind, c).Set(kind, d).Get(kind) == d
  {
  }

  lemma SetOther(slots: Slots, kind: Kind, c: Option<Component>, other: Kind, d: Option<Component>)
    requires other != kind && slots.Get(kind).None?
    ensures slots.Set(kind, c).Get(other) == slots.Get(other) && slots.Set(kind, c).Set(other, d).Get(kind) == c
    ensures slots.Set(kind, c).Set(other, d).Set(kind, None) == slots.Set(other, d)
  {
    if kind == Principal {
      assert other == Trigger || other == Action;
    } else if kind == Trigger {
      assert other == Principal || other == Action;
    } else {
      assert other == Principal || other == Trigger;
    }
  }

  /** Leaving a component inside another that collects: it is emitted as it started. */
  lemma LeaveOther(path: seq<string>, element: string, attributes: seq<Attribute>, w: Work, entered: Work, g: Gain, filled: Work)
    requires KindOf(path, element).Some? && var kind := KindOf(path, element).value;
             && w.slots.Get(kind).None? && entered.record == w.record
             && entered.slots == w.slots.Set(kind, Some(Component(|path| + 1, StartFields(element, attributes))))
             && Collector(Open(entered.slots)) == Collector(Open(w.slots)) && Collector(Open(w.slots)).Some?
    requires Follows(entered, g, filled)
    ensures var kind := KindOf(path, element).value;
            Follows(w, OneMore(g, kind, StartFields(element, attributes)), LeaveElement(path, element, w.slots, filled))
  {
    hide Open, KindOf, StartFields, InsertRepeated, Join, Fill;
    var kind, top := KindOf(path, element).value, Collector(Open(w.slots)).value;
    CollectorIsOpen(w.slots);
    var started := Some(Component(|path| + 1, StartFields(element, attributes)));
    SetBack(w.slots, kind, started);
    var c := w.slots.Get(top).value;
    SetOther(w.slots, kind, started, top, Some(c.(fields := Fill(c.fields, g.values))));
  }

  /** A component whose kind is not open yet collects for itself, or something around it does. */
  lemma CollectorInside(open: set<Kind>, kind: Kind)
    requires kind !in open
    ensures Collector(open + {kind}) == Some(kind) || (Collector(open + {kind}) == Collector(open) && Collector(open).Some?)
  {
  }

  /** The recursion over one node adds what the node adds. */
  lemma {:induction false} NodeFollows(path: seq<string>, w: Work, node: Node)
    requires Within(w.slots, |path|) && Unnested(path, Open(w.slots), node) && Meaning(path, w, node).Ok?
    ensures Follows(w, Gains(path, Open(w.slots), Names(w, path), node), Meaning(path, w, node).value)
    decreases node
  {
    hide OpenElement, AssignText, LeaveElement, PointWork, KindOf, Within, SameShape, Open, Follows, Names, StartFields, Collector,
         Fill, OwnValue, OneMore, Plus;
    match node
    case Leaf(point) => PointFollows(path, point, w, Names(w, path));
    case Element(name, attributes, children) =>
      var element := LocalName(name);
      var deeper, entered := path + [element], OpenElement(path, element, attributes, w).value;
      var kind := KindOf(path, element);
      OpenShape(path, element, attributes, w);
      if kind.Some? {
        OpenHas(w.slots, kind.value);
        EnterComponent(path, element, attributes, w);
        CollectorInside(Open(w.slots), kind.value);
      } else {
        EnterPlain(path, element, attributes, w);
        assert Open(w.slots) + {} == Open(w.slots);
      }
      ChildrenFollow(deeper, entered, children);
      var inside := MeaningAll(deeper, entered, children).value;
      var names := Names(entered, deeper);
      var g := GainsAll(deeper, Open(entered.slots), names, children);
      FollowsOpen(entered, g, inside);
      ShapeMeans(inside.slots, entered.slots, |deeper|);
      AssignFollows(deeper, children, inside);
      var filled, own := AssignText(deeper, OwnText(children), inside), Gain([], [], [], OwnValue(names, children));
      FollowsThen(entered, g, inside, own, filled);
      if kind.None? {
        SameVersion(w, entered, Plus(g, own), filled);
        LeavePlain(path, element, w.slots, filled);
      } else if Collector(Open(entered.slots)) == kind {
        LeaveCollector(path, element, attributes, w, entered, Plus(g, own), filled);
      } else {
        LeaveOther(path, element, attributes, w, entered, Plus(g, own), filled);
      }
  }

  lemma LeavePlain(path: seq<string>, element: string, outer: Slots, w: Work)
    requires KindOf(path, element).None?
    ensures LeaveElement(path, element, outer, w) == w
  {
  }

  lemma {:induction false} ChildrenFollow(path: seq<string>, w: Work, nodes: seq<Node>)
    requires Within(w.slots, |path|) && UnnestedAll(path, Open(w.slots), nodes) && MeaningAll(path, w, nodes).Ok?
    ensures Follows(w, GainsAll(path, Open(w.slots), Names(w, path), nodes), MeaningAll(path, w, nodes).value)
    decreases nodes
  {
    hide Meaning, Unnested, Within, Open, Follows, Names, Gains, SameShape;
    if nodes == [] {
      NothingFollows(w);
    } else {
      NodeFollows(path, w, nodes[0]);
      var next, g := Meaning(path, w, nodes[0]).value, Gains(path, Open(w.slots), Names(w, path), nodes[0]);
      FollowsOpen(w, g, next);
      ShapeMeans(next.slots, w.slots, |path|);
      ChildrenFollow(path, next, nodes[1..]);
      FollowsThen(w, g, next, GainsAll(path, Open(w.slots), Names(w, path), nodes[1..]), MeaningAll(path, w, nodes).value);
    }
  }

  // ---------------------------------------------------------------- what the parser returns

  /** The record of an accepted definition without nested components, element by element. */
  lemma RecordIs(nodes: seq<Node>)
    requires UnnestedAll([], {}, nodes) && Parse(FlattenAll(nodes)).Ok?
    ensures var g := GainsAll([], {}, [], nodes);
            Parse(FlattenAll(nodes)).value
            == Record(VersionAfter(0, None, FlattenAll(nodes)), FillRegistration(map[], g.values), g.principals,
                      FillSettings(map[], g.values), g.triggers, g.actions)
  {
    hide Run, MeaningAll, UnnestedAll, FlattenAll, GainsAll, VersionAfter, RecordBounded;
    ParserIsRecursion(nodes);
    ParsedIsBounded(FlattenAll(nodes));
    NothingOpen();
    var none: seq<string> := [];
    assert Names(NO_WORK, none) == none;
    ChildrenFollow(none, NO_WORK, nodes);
  }

  /** Which elements are components: by the element around them and their own name. */
  lemma KindMeans(path: seq<string>, element: string)
    ensures var parent := if path == [] then "" else path[|path| - 1];
            && (KindOf(path, element) == Some(Principal) <==> parent == "principals" && element == "principal")
            && (KindOf(path, element) == Some(Trigger) <==>
                  parent == "triggers" && |element| >= 7 && element[|element| - 7..] == "trigger")
            && (KindOf(path, element) == Some(Action) <==>
                  && parent == "actions"
                  && (element == "exec" || element == "comhandler" || element == "sendemail" || element == "showmessage"))
  {
  }

  // ---------------------------------------------------------------- keys

  predicate Undotted(names: seq<string>) {
    forall name <- names :: '.' !in name
  }

  /** The pieces of a key between its dots. */
  function SplitDots(key: string): (names: seq<string>)
    ensures names != []
  {
    if key == "" then [""]
    else
      var last, rest := key[|key| - 1], SplitDots(key[..|key| - 1]);
      if last == '.' then rest + [""] else rest[..|rest| - 1] + [rest[|rest| - 1] + [last]]
  }

  lemma SplitChar(key: string, c: char)
    ensures var names := SplitDots(key);
            SplitDots(key + [c]) == if c == '.' then names + [""] else names[..|names| - 1] + [names[|names| - 1] + [c]]
  {
    assert (key + [c])[..|key|] == key;
  }

  lemma JoinMore(names: seq<string>, last: string)
    requires names != []
    ensures Join(names + [last], ".") == (Join(names, ".") + ['.']) + last
  {
    assert (names + [last])[..|names|] == names;
  }

  /** A key splits at its dots into exactly the names it was made of. */
  lemma {:induction false} KeySplits(names: seq<string>)
    requires Undotted(names) && names != []
    ensures SplitDots(Join(names, ".")) == names
  {
    hide Join, SplitDots, Undotted;
    UndottedParts(names);
    var init, last := names[..|names| - 1], names[|names| - 1];
    assert names == init + [last];
    if init == [] {
      OneName(last);
      SplitAppend("", last);
      Refilled([], last);
      assert "" + last == last && [] + [""] == [""];
    } else {
      KeySplits(init);
      JoinMore(init, last);
      SplitChar(Join(init, "."), '.');
      SplitAppend(Join(init, ".") + ['.'], last);
      Refilled(init, last);
    }
  }

  lemma UndottedParts(names: seq<string>)
    requires Undotted(names) && names != []
    ensures Undotted(names[..|names| - 1]) && '.' !in names[|names| - 1]
  {
  }

  lemma Refilled(init: seq<string>, last: string)
    ensures var names := init + [""]; names[..|names| - 1] + [names[|names| - 1] + last] == init + [last]
  {
    assert "" + last == last;
  }

  lemma OneName(name: string)
    ensures Join([name], ".") == name && SplitDots("") == [""]
  {
  }

  lemma {:induction false} SplitAppend(key: string, name: string)
    requires '.' !in name
    ensures var names := SplitDots(key); SplitDots(key + name) == names[..|names| - 1] + [names[|names| - 1] + name]
    decreases |name|
  {
    hide SplitDots;
    var names := SplitDots(key);
    if name == "" {
      assert key + name == key && names[|names| - 1] + name == names[|names| - 1];
    } else {
      var init, last := name[..|name| - 1], name[|name| - 1];
      SplitAppend(key, init);
      SplitChar(key + init, last);
      assert (key + init) + [last] == key + name;
      assert (names[|names| - 1] + init) + [last] == names[|names| - 1] + name;
    }
  }

  lemma SameKeySameNames(a: seq<string>, b: seq<string>)
    requires Undotted(a) && Undotted(b) && a != [] && b != []
    ensures Join(a, ".") == Join(b, ".") ==> a == b
  {
    KeySplits(a);
    KeySplits(b);
  }

  lemma {:induction false} KeyNotEmpty(names: seq<string>)
    requires names != [] && names[|names| - 1] != ""
    ensures Join(names, ".") != ""
  {
  }

  /** A text is found under its names, if no other text has the same names and the component does not start with that key. */
  lemma {:induction false} FoundUnderNames(fields: Fields, values: seq<Value>, i: nat)
    requires i < |values| && values[i].names != [] && values[i].names[|values[i].names| - 1] != ""
    requires forall value <- values :: Undotted(value.names)
    requires Join(values[i].names, ".") !in fields
    requires forall j :: 0 <= j < |values| && j != i ==> values[j].names != values[i].names
    ensures var key := Join(values[i].names, "."); key in Fill(fields, values) && Fill(fields, values)[key] == values[i].text
    ensures SplitDots(Join(values[i].names, ".")) == values[i].names
  {
    hide InsertRepeated, Join, SplitDots, Undotted;
    var key, init, last := Join(values[i].names, "."), values[..|values| - 1], values[|values| - 1];
    assert values[i] in values && last in values;
    KeySplits(values[i].names);
    KeyNotEmpty(values[i].names);
    InsertKeeps(Fill(fields, init), Join(last.names, "."), last.text);
    if i == |values| - 1 {
      NotYet(fields, init, values[i].names);
    } else {
      FoundUnderNames(fields, init, i);
      OtherKey(last.names, values[i].names);
    }
  }

  lemma OtherKey(a: seq<string>, b: seq<string>)
    requires Undotted(a) && Undotted(b) && b != [] && b[|b| - 1] != "" && a != b
    ensures Join(a, ".") != Join(b, ".")
  {
    KeyNotEmpty(b);
    if a != [] {
      SameKeySameNames(a, b);
    }
  }

  lemma {:induction false} NotYet(fields: Fields, values: seq<Value>, names: seq<string>)
    requires names != [] && names[|names| - 1] != "" && Undotted(names)
    requires forall value <- values :: Undotted(value.names) && value.names != names
    requires Join(names, ".") !in fields
    ensures Join(names, ".") !in Fill(fields, values)
  {
    hide InsertRepeated, Join, Undotted;
    if values != [] {
      var init, last := values[..|values| - 1], values[|values| - 1];
      NotYet(fields, init, names);
      OtherKey(last.names, names);
      InsertKeeps(Fill(fields, init), Join(last.names, "."), last.text);
    }
  }

  /** The texts below the settings, under the names below the settings. */
  function InSettings(values: seq<Value>): seq<Value> {
    if values == [] then []
    else
      var last := values[|values| - 1];
      InSettings(values[..|values| - 1])
      + if |last.names| >= 2 && last.names[0] == "task" && last.names[1] == "settings" then [Value(last.names[2..], last.text)] else []
  }

  /** The texts below the registration information, under their own names. */
  function InRegistration(values: seq<Value>): seq<Value> {
    if values == [] then []
    else
      var last := values[|values| - 1];
      InRegistration(values[..|values| - 1])
      + if |last.names| >= 2 && last.names[0] == "task" && last.names[1] == "registrationinfo"
        then [Value([last.names[|last.names| - 1]], last.text)] else []
  }

  lemma FillMore(fields: Fields, values: seq<Value>, value: Value)
    ensures Fill(fields, values + [value]) == InsertRepeated(Fill(fields, values), Join(value.names, "."), value.text)
    ensures Fill(fields, values + []) == Fill(fields, values)
    ensures Join([Parent(value.names)], ".") == Parent(value.names)
  {
    hide InsertRepeated;
    assert (values + [value])[..|values|] == values && values + [] == values;
  }

  lemma {:induction false} SectionsAreFilled(fields: Fields, values: seq<Value>)
    ensures FillSettings(fields, values) == Fill(fields, InSettings(values))
    ensures FillRegistration(fields, values) == Fill(fields, InRegistration(values))
  {
    hide InsertRepeated, Join, Fill;
    if values == [] {
      NoneFilled(fields);
    } else {
      var init, last := values[..|values| - 1], values[|values| - 1];
      SectionsAreFilled(fields, init);
      FillMore(fields, InSettings(init), Value(if |last.names| >= 2 then last.names[2..] else [], last.text));
      FillMore(fields, InRegistration(init), last);
      FillMore(fields, InRegistration(init), Value([Parent(last.names)], last.text));
    }
  }

  lemma NoneFilled(fields: Fields)
    ensures Fill(fields, []) == fields
  {
  }

  lemma {:induction false} OwnTextConcat(a: seq<Node>, b: seq<Node>)
    ensures OwnText(a + b) == OwnText(a) + OwnText(b)
  {
    hide NodeText;
    if a == [] {
      assert a + b == b;
    } else {
      assert (a + b)[0] == a[0] && (a + b)[1..] == a[1..] + b;
      OwnTextConcat(a[1..], b);
    }
  }

  lemma OneText(node: Node)
    ensures OwnText([node]) == if node.Leaf? && node.point.Text? then node.point.text else ""
    ensures OwnText([]) == ""
  {
    assert [node][1..] == [];
    assert NodeText(node) + "" == NodeText(node);
  }

  /** An element's own text is all text directly in it, of every kind and in order; elements and other markup add none. */
  lemma OwnTextParts(before: seq<Node>, node: Node, after: seq<Node>)
    ensures OwnText(before + [node] + after)
         == OwnText(before) + (if node.Leaf? && node.point.Text? then node.point.text else "") + OwnText(after)
    ensures OwnText([]) == ""
  {
    hide OwnText;
    OwnTextConcat(before + [node], after);
    OwnTextConcat(before, [node]);
    OneText(node);
  }

  // ---------------------------------------------------------------- where a text ends up

  /** Below the node, and in no component there, an element with these names has this text. */
  ghost predicate HasText(path: seq<string>, names: seq<string>, node: Node, value: Value)
    decreases node
  {
    node.Element? && KindOf(path, LocalName(node.name)).None?
    && var below := names + [LocalName(node.name)];
       || (value.names == below && Trim(OwnText(node.children)) != ""
           && value.text == Truncated(Trim(OwnText(node.children)), 65_536))
       || AnyHasText(path + [LocalName(node.name)], below, node.children, value)
  }

  ghost predicate AnyHasText(path: seq<string>, names: seq<string>, nodes: seq<Node>, value: Value)
    decreases nodes
  {
    nodes != [] && (HasText(path, names, nodes[0], value) || AnyHasText(path, names, nodes[1..], value))
  }

  /** Every such text is among those that are collected around the node. */
  lemma {:induction false} TextIsCollected(path: seq<string>, open: set<Kind>, names: seq<string>, node: Node, value: Value)
    requires HasText(path, names, node, value)
    ensures value in Gains(path, open, names, node).values
    decreases node
  {
    hide KindOf, LocalName;
    var element := LocalName(node.name);
    if AnyHasText(path + [element], names + [element], node.children, value) {
      TextsAreCollected(path + [element], open, names + [element], node.children, value);
    }
  }

  lemma {:induction false} TextsAreCollected(path: seq<string>, open: set<Kind>, names: seq<string>, nodes: seq<Node>, value: Value)
    requires AnyHasText(path, names, nodes, value)
    ensures value in GainsAll(path, open, names, nodes).values
    decreases nodes
  {
    hide HasText, Gains;
    if HasText(path, names, nodes[0], value) {
      TextIsCollected(path, open, names, nodes[0], value);
    } else {
      TextsAreCollected(path, open, names, nodes[1..], value);
    }
  }

  function EmittedBy(g: Gain, kind: Kind): seq<Fields> {
    match kind case Principal => g.principals case Trigger => g.triggers case Action => g.actions
  }

  /** A component that collects for itself is emitted with every text below it, under the names below it. */
  lemma ComponentHasText(path: seq<string>, open: set<Kind>, names: seq<string>, node: Node, kind: Kind, value: Value)
    returns (values: seq<Value>)
    requires node.Element? && KindOf(path, LocalName(node.name)) == Some(kind) && Collector(open + {kind}) == Some(kind)
    requires AnyHasText(path + [LocalName(node.name)], [], node.children, value)
    ensures value in values
    ensures Fill(StartFields(LocalName(node.name), node.attributes), values) in EmittedBy(Gains(path, open, names, node), kind)
  {
    hide KindOf, LocalName, Fill;
    var element, inner := LocalName(node.name), open + {kind};
    TextsAreCollected(path + [element], inner, [], node.children, value);
    values := GainsAll(path + [element], inner, [], node.children).values + OwnValue([], node.children);
  }

  /** A text below the settings of a task is in the settings of the record, under the names below the settings. */
  lemma SettingIsFound(nodes: seq<Node>, value: Value)
    requires UnnestedAll([], {}, nodes) && Parse(FlattenAll(nodes)).Ok?
    requires AnyHasText([], [], nodes, value) && |value.names| > 2 && value.names[0] == "task" && value.names[1] == "settings"
    ensures var g := GainsAll([], {}, [], nodes);
            && Value(value.names[2..], value.text) in InSettings(g.values)
            && Parse(FlattenAll(nodes)).value.settings == Fill(map[], InSettings(g.values))
  {
    hide GainsAll, UnnestedAll, FlattenAll, Parse, Fill, InSettings;
    var none: seq<string> := [];
    RecordIs(nodes);
    TextsAreCollected(none, {}, none, nodes, value);
    SectionsAreFilled(map[], GainsAll([], {}, [], nodes).values);
    IsInSettings(GainsAll([], {}, [], nodes).values, value);
  }

  lemma {:induction false} IsInSettings(values: seq<Value>, value: Value)
    requires value in values && |value.names| >= 2 && value.names[0] == "task" && value.names[1] == "settings"
    ensures Value(value.names[2..], value.text) in InSettings(values)
  {
    if value != values[|values| - 1] {
      IsInSettings(values[..|values| - 1], value);
    }
  }
}
