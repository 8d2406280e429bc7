// Task Scheduler definitions: records, XML events, and what one event does to the parser's state.
module TaskSteps {
  import opened Basics
  import opened Texts

  const MAX_FIELD_CHARS: nat := 65_536

  type Fields = map<string, string>

  datatype Record = Record(version: Option<string>, registration: Fields, principals: seq<Fields>,
                           settings: Fields, triggers: seq<Fields>, actions: seq<Fields>)

  datatype Kind = Principal | Trigger | Action

  datatype Component = Component(startDepth: nat, fields: Fields)

  /** The open component of each kind. */
  datatype Slots = Slots(principal: Option<Component>, trigger: Option<Component>, action: Option<Component>) {
    function Get(kind: Kind): Option<Component> {
      match kind case Principal => principal case Trigger => trigger case Action => action
    }

    function Set(kind: Kind, component: Option<Component>): Slots {
      match kind
      case Principal => this.(principal := component)
      case Trigger => this.(trigger := component)
      case Action => this.(action := component)
    }
  }

  datatype Attribute = Attribute(key: string, value: Option<string>) | Malformed

  datatype TextKind = Plain | Entity | Section

  /** What is not an opening or a closing tag. `Broken` is markup that cannot be read or decoded. */
  datatype Point = Empty(name: string, attributes: seq<Attribute>) | Text(kind: TextKind, text: string) | DocType | Broken | Other

  datatype Event = Start(name: string, attributes: seq<Attribute>) | End | At(point: Point)

  datatype TaskError = BadMarkup | OutsideRoot(kind: TextKind) | UnexpectedClose | DocumentType | Unclosed | NotATask

  type TaskResult<+T> = Result<T, TaskError>

  /** What is collected so far. */
  datatype Work = Work(record: Record, sawTask: bool, slots: Slots)

  datatype State = State(stack: seq<string>, texts: seq<string>, work: Work)

  // ---------------------------------------------------------------- fields

  /** The first attribute with this local name; a malformed one before it is an error. */
  function Lookup(attributes: seq<Attribute>, wanted: string): TaskResult<Option<string>> {
    if attributes == [] then Ok(None)
    else
      match attributes[0]
      case Malformed => Err(BadMarkup)
      case Attribute(key, value) =>
        if LocalName(key) != wanted then Lookup(attributes[1..], wanted)
        else if value.Some? then Ok(value) else Err(BadMarkup)
  }

  function NewComponent(startDepth: nat, kind: string, attributes: seq<Attribute>): TaskResult<Component> {
    match Lookup(attributes, "id")
    case Err(error) => Err(error)
    case Ok(None) => Ok(Component(startDepth, map["type" := kind]))
    case Ok(Some(id)) => Ok(Component(startDepth, map["type" := kind, "id" := Truncated(id, MAX_FIELD_CHARS)]))
  }

  /** The names below depth `startDepth`, joined by dots. */
  function RelativeKey(stack: seq<string>, startDepth: nat): string {
    Join(if startDepth <= |stack| then stack[startDepth..] else [], ".")
  }

  /** A repeated value is dropped, another value for the same key is appended. */
  function InsertRepeated(fields: Fields, key: string, value: string): Fields {
    if key == "" then fields
    else if key !in fields then fields[key := value]
    else if fields[key] == value then fields
    else fields[key := Truncated(fields[key] + " | " + value, MAX_FIELD_CHARS)]
  }

  // ---------------------------------------------------------------- one event

  function Parent(path: seq<string>): string {
    if path == [] then "" else path[|path| - 1]
  }

  function KindOf(path: seq<string>, element: string): Option<Kind> {
    var parent := Parent(path);
    if parent == "principals" && element == "principal" then Some(Principal)
    else if parent == "triggers" && EndsWith(element, "trigger") then Some(Trigger)
    else if parent == "actions" && element in ["exec", "comhandler", "sendemail", "showmessage"] then Some(Action)
    else None
  }

  /** `path` is the stack without the element. */
  function OpenElement(path: seq<string>, element: string, attributes: seq<Attribute>, w: Work): TaskResult<Work> {
    if path == [] && element == "task" then
      match Lookup(attributes, "version")
      case Err(error) => Err(error)
      case Ok(version) => Ok(w.(sawTask := true, record := w.record.(version := version)))
    else
      match KindOf(path, element)
      case None => Ok(w)
      case Some(kind) =>
        match NewComponent(|path| + 1, element, attributes)
        case Err(error) => Err(error)
        case Ok(component) => Ok(w.(slots := w.slots.Set(kind, Some(component))))
  }

  function Emit(record: Record, kind: Kind, fields: Fields): Record {
    match kind
    case Principal => record.(principals := record.principals + [fields])
    case Trigger => record.(triggers := record.triggers + [fields])
    case Action => record.(actions := record.actions + [fields])
  }

  function EmptyElement(path: seq<string>, element: string, attributes: seq<Attribute>, w: Work): TaskResult<Work> {
    match KindOf(path, element)
    case None => Ok(w)
    case Some(Principal) => Ok(w)
    case Some(kind) =>
      match NewComponent(|path| + 1, element, attributes)
      case Err(error) => Err(error)
      case Ok(component) => Ok(w.(record := Emit(w.record, kind, component.fields)))
  }

  function PointWork(path: seq<string>, outside: bool, point: Point, w: Work): TaskResult<Work> {
    match point
    case Empty(name, attributes) => EmptyElement(path, LocalName(name), attributes, w)
    case Text(kind, text) =>
      if outside && (kind != Plain || Trim(text) != "") then Err(OutsideRoot(kind)) else Ok(w)
    case DocType => Err(DocumentType)
    case Broken => Err(BadMarkup)
    case Other => Ok(w)
  }

  function PointText(point: Point): string {
    if point.Text? then point.text else ""
  }

  /** Text is added to the innermost open element. */
  function AppendText(texts: seq<string>, text: string): seq<string> {
    if texts == [] then [] else texts[..|texts| - 1] + [texts[|texts| - 1] + text]
  }

  function InsertField(w: Work, kind: Kind, path: seq<string>, value: string): Work
    requires w.slots.Get(kind).Some?
  {
    var c := w.slots.Get(kind).value;
    w.(slots := w.slots.Set(kind, Some(c.(fields := InsertRepeated(c.fields, RelativeKey(path, c.startDepth), value)))))
  }

  /** An element's text goes to the open action, else trigger, else principal, else registration or settings. */
  function AssignText(path: seq<string>, text: string, w: Work): Work {
    var value := Truncated(Trim(text), MAX_FIELD_CHARS);
    if Trim(text) == "" then w
    else if w.slots.action.Some? then InsertField(w, Action, path, value)
    else if w.slots.trigger.Some? then InsertField(w, Trigger, path, value)
    else if w.slots.principal.Some? then InsertField(w, Principal, path, value)
    else if ["task", "registrationinfo"] <= path then
      w.(record := w.record.(registration := InsertRepeated(w.record.registration, Parent(path), value)))
    else if ["task", "settings"] <= path then
      w.(record := w.record.(settings := InsertRepeated(w.record.settings, RelativeKey(path, 2), value)))
    else w
  }

  /** Emits the open component of this kind if it was opened at this depth. */
  function CloseOne(w: Work, kind: Kind, depth: nat): Work {
    var slot := w.slots.Get(kind);
    if slot.Some? && slot.value.startDepth == depth then
      w.(record := Emit(w.record, kind, slot.value.fields), slots := w.slots.Set(kind, None))
    else w
  }

  function CloseAll(w: Work, depth: nat): Work {
    CloseOne(CloseOne(CloseOne(w, Action, depth), Trigger, depth), Principal, depth)
  }

  function Step(s: State, event: Event): TaskResult<State> {
    match event
    case Start(name, attributes) =>
      var element := LocalName(name);
      (match OpenElement(s.stack, element, attributes, s.work)
       case Err(error) => Err(error)
       case Ok(w) => Ok(State(s.stack + [element], s.texts + [""], w)))
    case End =>
      if s.texts == [] then Err(UnexpectedClose)
      else
        var w := CloseAll(AssignText(s.stack, s.texts[|s.texts| - 1], s.work), |s.stack|);
        Ok(State(if s.stack == [] then [] else s.stack[..|s.stack| - 1], s.texts[..|s.texts| - 1], w))
    case At(point) =>
      match PointWork(s.stack, s.texts == [], point, s.work)
      case Err(error) => Err(error)
      case Ok(w) => Ok(State(s.stack, AppendText(s.texts, PointText(point)), w))
  }

  function Run(s: State, events: seq<Event>): TaskResult<State>
    decreases |events|
  {
    if events == [] then Ok(s)
    else
      match Step(s, events[0])
      case Err(error) => Err(error)
      case Ok(next) => Run(next, events[1..])
  }

  const NO_RECORD := Record(None, map[], [], map[], [], [])
  const NO_WORK := Work(NO_RECORD, false, Slots(None, None, None))
  const START := State([], [], NO_WORK)

  /** The result once the events, which the reader ends with an end-of-file event, are used up. */
  function Finish(s: State): TaskResult<Record> {
    if s.stack != [] || s.texts != [] then Err(Unclosed)
    else if !s.work.sawTask then Err(NotATask)
    else Ok(s.work.record)
  }

  function Parse(events: seq<Event>): TaskResult<Record> {
    match Run(START, events)
    case Err(error) => Err(error)
    case Ok(s) => Finish(s)
  }

  lemma {:induction false} RunConcat(s: State, a: seq<Event>, b: seq<Event>)
    ensures Run(s, a + b) == match Run(s, a) case Err(error) => Err(error) case Ok(next) => Run(next, b)
    decreases |a|
  {
    hide Step;
    if a == [] {
      assert a + b == b;
    } else {
      assert (a + b)[0] == a[0] && (a + b)[1..] == a[1..] + b;
      if Step(s, a[0]).Ok? {
        RunConcat(Step(s, a[0]).value, a[1..], b);
      }
    }
  }

  lemma RunOne(s: State, event: Event)
    ensures Run(s, [event]) == Step(s, event)
  {
    hide Step;
    if Step(s, event).Ok? {
      assert Run(Step(s, event).value, [event][1..]) == Step(s, event);
    }
  }

  /** The element stack and the text stack have the same height after any number of events. */
  lemma {:induction false} SameHeight(s: State, events: seq<Event>)
    requires |s.stack| == |s.texts|
    ensures Run(s, events).Ok? ==> |Run(s, events).value.stack| == |Run(s, events).value.texts|
    decreases |events|
  {
    if events != [] && Step(s, events[0]).Ok? {
      SameHeight(Step(s, events[0]).value, events[1..]);
    }
  }
}
