// The one-pass parser of task definitions: two stacks, three component slots, one event at a time.
module ScheduledTask {
  import opened Basics
  import opened Texts
  import opened TaskSteps
  import opened TaskTree
  import opened TaskNesting

  class TaskParser {
    var stack: seq<string>
    var textStack: seq<string>
    var record: Record
    var sawTask: bool
    var principal: Option<Component>
    var trigger: Option<Component>
    var action: Option<Component>

    constructor ()
      ensures View() == START
    {
      stack, textStack, record, sawTask := [], [], NO_RECORD, false;
      principal, trigger, action := None, None, None;
    }

    ghost function View(): State
      reads this
    {
      State(stack, textStack, Work(record, sawTask, Slots(principal, trigger, action)))
    }

    method OnStart(name: string, attributes: seq<Attribute>) returns (error: Option<TaskError>)
      modifies this
      ensures Step(old(View()), Start(name, attributes)) == if error.Some? then Err(error.value) else Ok(View())
    {
      hide LocalName, Lookup, EndsWith;
      error := None;
      var element := LocalName(name);
      var parent := if stack == [] then "" else stack[|stack| - 1];
      stack := stack + [element];
      textStack := textStack + [""];
      if |stack| == 1 && element == "task" {
        sawTask := true;
        match Lookup(attributes, "version")
        case Err(e) => error := Some(e);
        case Ok(version) => record := record.(version := version);
      } else if parent == "principals" && element == "principal" {
        match NewComponent(|stack|, "principal", attributes)
        case Err(e) => error := Some(e);
        case Ok(component) => principal := Some(component);
      } else if parent == "triggers" && EndsWith(element, "trigger") {
        match NewComponent(|stack|, element, attributes)
        case Err(e) => error := Some(e);
        case Ok(component) => trigger := Some(component);
      } else if parent == "actions" && element in ["exec", "comhandler", "sendemail", "showmessage"] {
        match NewComponent(|stack|, element, attributes)
        case Err(e) => error := Some(e);
        case Ok(component) => action := Some(component);
      }
    }

    method OnEmpty(name: string, attributes: seq<Attribute>) returns (error: Option<TaskError>)
      modifies this`record
      ensures Step(old(View()), At(Empty(name, attributes))) == if error.Some? then Err(error.value) else Ok(View())
    {
      hide LocalName, EndsWith, NewComponent, AppendText;
      error := None;
      var element := LocalName(name);
      var parent := if stack == [] then "" else stack[|stack| - 1];
      AppendEmpty(textStack, "");
      if parent == "triggers" && EndsWith(element, "trigger") {
        match NewComponent(|stack| + 1, element, attributes)
        case Err(e) => error := Some(e);
        case Ok(component) => record := record.(triggers := record.triggers + [component.fields]);
      } else if parent == "actions" && element in ["exec", "comhandler", "sendemail", "showmessage"] {
        match NewComponent(|stack| + 1, element, attributes)
        case Err(e) => error := Some(e);
        case Ok(component) => record := record.(actions := record.actions + [component.fields]);
      }
    }

    method OnText(kind: TextKind, text: string) returns (error: Option<TaskError>)
      modifies this`textStack
      ensures Step(old(View()), At(Text(kind, text))) == if error.Some? then Err(error.value) else Ok(View())
    {
      error := None;
      if kind == Plain {
        if Trim(text) != "" && textStack == [] {
          return Some(OutsideRoot(kind));
        }
      } else if textStack == [] {
        return Some(OutsideRoot(kind));
      }
      if textStack != [] {
        textStack := textStack[..|textStack| - 1] + [textStack[|textStack| - 1] + text];
      }
    }

    /** The text of an element that ends goes to its owner. */
    method StoreText(decoded: string)
      modifies this`record, this`principal, this`trigger, this`action
      ensures View() == State(old(stack), old(textStack), AssignText(old(stack), decoded, old(View().work)))
    {
      hide Trim, Truncated, RelativeKey, InsertRepeated;
      var trimmed := Trim(decoded);
      if trimmed != "" {
        var value := Truncated(trimmed, MAX_FIELD_CHARS);
        var leaf := if stack == [] then "" else stack[|stack| - 1];
        if action.Some? {
          var c := action.value;
          action := Some(c.(fields := InsertRepeated(c.fields, RelativeKey(stack, c.startDepth), value)));
        } else if trigger.Some? {
          var c := trigger.value;
          trigger := Some(c.(fields := InsertRepeated(c.fields, RelativeKey(stack, c.startDepth), value)));
        } else if principal.Some? {
          var c := principal.value;
          principal := Some(c.(fields := InsertRepeated(c.fields, RelativeKey(stack, c.startDepth), value)));
        } else if ["task", "registrationinfo"] <= stack {
          record := record.(registration := InsertRepeated(record.registration, leaf, value));
        } else if ["task", "settings"] <= stack {
          record := record.(settings := InsertRepeated(record.settings, RelativeKey(stack, 2), value));
        }
      }
    }

    method CloseComponents()
      modifies this`record, this`principal, this`trigger, this`action
      ensures View() == State(old(stack), old(textStack), CloseAll(old(View().work), |old(stack)|))
    {
      if action.Some? && |stack| == action.value.startDepth {
        record := record.(actions := record.actions + [action.value.fields]);
        action := None;
      }
      if trigger.Some? && |stack| == trigger.value.startDepth {
        record := record.(triggers := record.triggers + [trigger.value.fields]);
        trigger := None;
      }
      if principal.Some? && |stack| == principal.value.startDepth {
        record := record.(principals := record.principals + [principal.value.fields]);
        principal := None;
      }
    }

    method OnEnd() returns (error: Option<TaskError>)
      modifies this
      ensures Step(old(View()), End) == if error.Some? then Err(error.value) else Ok(View())
    {
      hide AssignText, CloseAll;
      error := None;
      if textStack == [] {
        return Some(UnexpectedClose);
      }
      var decoded := textStack[|textStack| - 1];
      textStack := textStack[..|textStack| - 1];
      StoreText(decoded);
      CloseComponents();
      stack := if stack == [] then [] else stack[..|stack| - 1];
    }

    method OnEvent(event: Event) returns (error: Option<TaskError>)
      modifies this
      ensures Step(old(View()), event) == if error.Some? then Err(error.value) else Ok(View())
    {
      hide OpenElement, EmptyElement, AssignText, CloseAll;
      AppendEmpty(textStack, "");
      match event
      case Start(name, attributes) => error := OnStart(name, attributes);
      case End => error := OnEnd();
      case At(Empty(name, attributes)) => error := OnEmpty(name, attributes);
      case At(Text(kind, text)) => error := OnText(kind, text);
      case At(DocType) => error := Some(DocumentType);
      case At(Broken) => error := Some(BadMarkup);
      case At(Other) => error := None;
    }

    method AtEnd() returns (r: TaskResult<Record>)
      ensures r == Finish(View())
    {
      if stack != [] || textStack != [] {
        return Err(Unclosed);
      }
      if !sawTask {
        return Err(NotATask);
      }
      return Ok(record);
    }
  }

  /**
   * The record of a task definition, or the first error. The result is the meaning of the element
   * tree unless a component is nested in another of the same kind.
   */
  method ParseScheduledTask(events: seq<Event>) returns (r: TaskResult<Record>)
    ensures r == Parse(events)
    ensures forall nodes | FlattenAll(nodes) == events ::
              r == TaskMeaning(nodes) <==> UnnestedAll([], {}, nodes) || TaskMeaning(nodes).Err?
  {
    hide Step, Run, FlattenAll, TaskMeaning, UnnestedAll, Finish;
    forall nodes | FlattenAll(nodes) == events
      ensures Parse(events) == TaskMeaning(nodes) <==> UnnestedAll([], {}, nodes) || TaskMeaning(nodes).Err?
    {
      ParserIsRecursion(nodes);
    }
    var parser := new TaskParser();
    assert events[0..] == events;
    for i := 0 to |events|
      invariant Run(START, events) == Run(parser.View(), events[i..])
    {
      RunStep(parser.View(), events[i..]);
      assert events[i..][1..] == events[i + 1..];
      var error := parser.OnEvent(events[i]);
      if error.Some? {
        return Err(error.value);
      }
    }
    RunNothing(parser.View());
    r := parser.AtEnd();
  }

  lemma RunStep(s: State, events: seq<Event>)
    requires events != []
    ensures Run(s, events) == match Step(s, events[0]) case Err(error) => Err(error) case Ok(next) => Run(next, events[1..])
  {
  }
}
