// What every run of the scheduled-task parser keeps: no field grows past its limit, and a repeated value is
// kept once.
module TaskFields {
  import opened Basics
  import opened Texts
  import opened TaskSteps

  /** Every value fits the limit, apart from the type, which is an element's name. */
  predicate Bounded(fields: Fields) {
    forall key <- fields :: key != "type" ==> ByteLength(fields[key]) <= MAX_FIELD_CHARS
  }

  predicate AllBounded(list: seq<Fields>) {
    forall fields <- list :: Bounded(fields)
  }

  predicate RecordBounded(record: Record) {
    && Bounded(record.registration) && Bounded(record.settings)
    && AllBounded(record.principals) && AllBounded(record.triggers) && AllBounded(record.actions)
  }

  predicate WorkBounded(w: Work) {
    RecordBounded(w.record) && forall kind: Kind :: w.slots.Get(kind).Some? ==> Bounded(w.slots.Get(kind).value.fields)
  }

  lemma InsertBounded(fields: Fields, key: string, value: string)
    requires Bounded(fields) && ByteLength(value) <= MAX_FIELD_CHARS
    ensures Bounded(InsertRepeated(fields, key, value))
  {
    hide ByteLength, Truncated;
    if key in fields {
      TruncatedIsLongest(fields[key] + " | " + value, MAX_FIELD_CHARS);
    }
  }

  /** A value that a key already has changes nothing, and no other key is touched. */
  lemma InsertKeeps(fields: Fields, key: string, value: string)
    ensures key != "" && key !in fields ==> InsertRepeated(fields, key, value)[key] == value
    ensures key in fields && fields[key] == value ==> InsertRepeated(fields, key, value) == fields
    ensures key != "" && key in fields && fields[key] != value && ByteLength(fields[key] + " | " + value) <= 65_536 ==>
              InsertRepeated(fields, key, value)[key] == fields[key] + " | " + value
    ensures forall other <- fields :: other != key ==>
              other in InsertRepeated(fields, key, value) && InsertRepeated(fields, key, value)[other] == fields[other]
    ensures InsertRepeated(fields, key, value).Keys == fields.Keys + (if key == "" then {} else {key})
  {
    hide ByteLength;
  }

  lemma ComponentBounded(startDepth: nat, kind: string, attributes: seq<Attribute>)
    requires NewComponent(startDepth, kind, attributes).Ok?
    ensures Bounded(NewComponent(startDepth, kind, attributes).value.fields)
  {
    hide ByteLength, Truncated;
    var id := Lookup(attributes, "id").value;
    if id.Some? {
      TruncatedIsLongest(id.value, MAX_FIELD_CHARS);
    }
  }

  lemma EmitBounded(record: Record, kind: Kind, fields: Fields)
    requires RecordBounded(record) && Bounded(fields)
    ensures RecordBounded(Emit(record, kind, fields))
  {
    hide Bounded;
  }

  lemma SetBounded(w: Work, kind: Kind, component: Option<Component>)
    requires WorkBounded(w) && (component.Some? ==> Bounded(component.value.fields))
    ensures WorkBounded(w.(slots := w.slots.Set(kind, component)))
  {
    hide Bounded, RecordBounded;
    var after := w.slots.Set(kind, component);
    forall k: Kind | after.Get(k).Some? ensures Bounded(after.Get(k).value.fields) {
      assert w.slots.Get(k).Some? ==> Bounded(w.slots.Get(k).value.fields);
    }
  }

  lemma InsertFieldBounded(w: Work, kind: Kind, path: seq<string>, value: string)
    requires WorkBounded(w) && w.slots.Get(kind).Some? && ByteLength(value) <= MAX_FIELD_CHARS
    ensures WorkBounded(InsertField(w, kind, path, value))
  {
    hide Bounded, RecordBounded, InsertRepeated, ByteLength, RelativeKey;
    var c := w.slots.Get(kind).value;
    InsertBounded(c.fields, RelativeKey(path, c.startDepth), value);
    SetBounded(w, kind, Some(c.(fields := InsertRepeated(c.fields, RelativeKey(path, c.startDepth), value))));
  }

  lemma AssignBounded(path: seq<string>, text: string, w: Work)
    requires WorkBounded(w)
    ensures WorkBounded(AssignText(path, text, w))
  {
    hide Bounded, AllBounded, InsertRepeated, InsertField, ByteLength, RelativeKey, Trim, Truncated, WorkBounded;
    var value := Truncated(Trim(text), MAX_FIELD_CHARS);
    TruncatedIsLongest(Trim(text), MAX_FIELD_CHARS);
    if Trim(text) == "" {
    } else if w.slots.action.Some? {
      InsertFieldBounded(w, Action, path, value);
    } else if w.slots.trigger.Some? {
      InsertFieldBounded(w, Trigger, path, value);
    } else if w.slots.principal.Some? {
      InsertFieldBounded(w, Principal, path, value);
    } else {
      FieldsBounded(w, Parent(path), RelativeKey(path, 2), value);
    }
  }

  lemma FieldsBounded(w: Work, leaf: string, key: string, value: string)
    requires WorkBounded(w) && ByteLength(value) <= MAX_FIELD_CHARS
    ensures WorkBounded(w.(record := w.record.(registration := InsertRepeated(w.record.registration, leaf, value))))
    ensures WorkBounded(w.(record := w.record.(settings := InsertRepeated(w.record.settings, key, value))))
  {
    hide Bounded, AllBounded, InsertRepeated, ByteLength;
    InsertBounded(w.record.registration, leaf, value);
    InsertBounded(w.record.settings, key, value);
  }

  lemma CloseBounded(w: Work, kind: Kind, depth: nat)
    requires WorkBounded(w)
    ensures WorkBounded(CloseOne(w, kind, depth))
  {
    hide Bounded, RecordBounded, Emit;
    var slot := w.slots.Get(kind);
    if slot.Some? {
      EmitBounded(w.record, kind, slot.value.fields);
      SetBounded(w, kind, None);
    }
  }

  lemma OpenBounded(path: seq<string>, element: string, attributes: seq<Attribute>, w: Work)
    requires WorkBounded(w) && OpenElement(path, element, attributes, w).Ok?
    ensures WorkBounded(OpenElement(path, element, attributes, w).value)
  {
    hide Bounded, AllBounded, KindOf, NewComponent, Lookup;
    if !(path == [] && element == "task") && KindOf(path, element).Some? {
      ComponentBounded(|path| + 1, element, attributes);
      SetBounded(w, KindOf(path, element).value, Some(NewComponent(|path| + 1, element, attributes).value));
    }
  }

  lemma PointBounded(path: seq<string>, outside: bool, point: Point, w: Work)
    requires WorkBounded(w) && PointWork(path, outside, point, w).Ok?
    ensures WorkBounded(PointWork(path, outside, point, w).value)
  {
    hide Bounded, RecordBounded, KindOf, NewComponent, Emit;
    if point.Empty? {
      var element := LocalName(point.name);
      var kind := KindOf(path, element);
      if kind.Some? && kind.value != Principal {
        ComponentBounded(|path| + 1, element, point.attributes);
        EmitBounded(w.record, kind.value, NewComponent(|path| + 1, element, point.attributes).value.fields);
      }
    }
  }

  /** Every field stays within the limit after any number of events. */
  lemma {:induction false} RunBounded(s: State, events: seq<Event>)
    requires WorkBounded(s.work)
    ensures Run(s, events).Ok? ==> WorkBounded(Run(s, events).value.work)
    decreases |events|
  {
    hide WorkBounded, OpenElement, PointWork, AssignText, CloseOne;
    if events != [] && Step(s, events[0]).Ok? {
      match events[0] {
        case Start(name, attributes) => OpenBounded(s.stack, LocalName(name), attributes, s.work);
        case At(point) => PointBounded(s.stack, s.texts == [], point, s.work);
        case End =>
          var w, depth := AssignText(s.stack, s.texts[|s.texts| - 1], s.work), |s.stack|;
          AssignBounded(s.stack, s.texts[|s.texts| - 1], s.work);
          CloseBounded(w, Action, depth);
          CloseBounded(CloseOne(w, Action, depth), Trigger, depth);
          CloseBounded(CloseOne(CloseOne(w, Action, depth), Trigger, depth), Principal, depth);
      }
      RunBounded(Step(s, events[0]).value, events[1..]);
    }
  }

  // ---------------------------------------------------------------- the version, which has no limit

  /** The version attribute of the last outermost task element, when `depth` elements are open. */
  function VersionAfter(depth: nat, version: Option<string>, events: seq<Event>): Option<string>
    decreases |events|
  {
    if events == [] then version
    else
      match events[0]
      case Start(name, attributes) =>
        var found := Lookup(attributes, "version");
        VersionAfter(depth + 1, if depth == 0 && LocalName(name) == "task" && found.Ok? then found.value else version, events[1..])
      case End => VersionAfter(SatSub(depth, 1), version, events[1..])
      case At(point) => VersionAfter(depth, version, events[1..])
  }

  /** No other step changes the version. */
  lemma StepVersion(s: State, event: Event)
    requires Step(s, event).Ok?
    ensures var next := Step(s, event).value;
            forall rest :: VersionAfter(|s.stack|, s.work.record.version, [event] + rest)
                        == VersionAfter(|next.stack|, next.work.record.version, rest)
  {
    hide LocalName, Lookup, NewComponent, KindOf, Trim, Truncated, InsertRepeated, RelativeKey;
    forall rest
      ensures VersionAfter(|s.stack|, s.work.record.version, [event] + rest)
           == VersionAfter(|Step(s, event).value.stack|, Step(s, event).value.work.record.version, rest)
    {
      assert ([event] + rest)[1..] == rest;
    }
  }

  lemma {:induction false} RunVersion(s: State, events: seq<Event>)
    ensures Run(s, events).Ok? ==> Run(s, events).value.work.record.version == VersionAfter(|s.stack|, s.work.record.version, events)
    decreases |events|
  {
    hide Step, VersionAfter;
    if events == [] {
      NoMoreEvents(s);
    } else if Step(s, events[0]).Ok? {
      assert events == [events[0]] + events[1..];
      StepVersion(s, events[0]);
      RunVersion(Step(s, events[0]).value, events[1..]);
    }
  }

  lemma NoMoreEvents(s: State)
    ensures VersionAfter(|s.stack|, s.work.record.version, []) == s.work.record.version
  {
  }

  /**
   * So every field of every parsed record fits 65,536 bytes, apart from component types and from
   * the version, which is the attribute as it stands and fits exactly if the attribute does.
   */
  lemma ParsedIsBounded(events: seq<Event>)
    requires Parse(events).Ok?
    ensures RecordBounded(Parse(events).value)
    ensures Parse(events).value.version == VersionAfter(0, None, events)
  {
    hide Run, Bounded, AllBounded;
    assert WorkBounded(NO_WORK) by {
      NothingBounded();
    }
    RunBounded(START, events);
    RunVersion(START, events);
  }

  /** A task element with this version and nothing else. */
  function OnlyVersion(version: string): seq<Event> {
    [Start("task", [Attribute("version", Some(version))]), End]
  }

  /** A version of any length is accepted and kept. */
  lemma AnyVersionIsKept(version: string)
    ensures Parse(OnlyVersion(version)).Ok? && Parse(OnlyVersion(version)).value.version == Some(version)
  {
    hide Step, LocalName;
    var events := OnlyVersion(version);
    var inside := OpensTask(version);
    assert events[1..] == [End] && events[1..][1..] == [];
    ClosesTask(inside);
    RunOne(inside, End);
    assert Run(START, events) == Run(inside, events[1..]);
  }

  lemma OpensTask(version: string) returns (inside: State)
    ensures Step(START, OnlyVersion(version)[0]) == Ok(inside) && inside.stack == ["task"] && inside.texts == [""]
    ensures inside.work == NO_WORK.(sawTask := true, record := NO_RECORD.(version := Some(version)))
  {
    hide LocalName;
    PlainName("task");
    PlainName("version");
    inside := Step(START, OnlyVersion(version)[0]).value;
  }

  lemma ClosesTask(inside: State)
    requires inside.stack == ["task"] && inside.texts == [""] && inside.work.slots == Slots(None, None, None)
    ensures Step(inside, End) == Ok(State([], [], inside.work))
  {
    hide Truncated, InsertField, InsertRepeated;
    assert Trim("") == "";
    assert AssignText(inside.stack, "", inside.work) == inside.work;
  }

  lemma {:induction false} LongText(n: nat)
    ensures ByteLength(seq(n, _ => 'x')) == n
  {
    if n > 0 {
      assert seq(n, _ => 'x')[..n - 1] == seq(n - 1, _ => 'x');
      LongText(n - 1);
    }
  }

  /** So a record's version has no limit. */
  lemma VersionIsUnbounded(n: nat)
    ensures var version := seq(n, _ => 'x');
            && ByteLength(version) == n
            && Parse(OnlyVersion(version)).Ok? && Parse(OnlyVersion(version)).value.version == Some(version)
  {
    LongText(n);
    AnyVersionIsKept(seq(n, _ => 'x'));
  }

  lemma NothingBounded()
    ensures WorkBounded(NO_WORK)
  {
  }
}
