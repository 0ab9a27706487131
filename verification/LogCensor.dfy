/** The log record censor: an allowlist of keys at any depth, and errors reduced to name and frames. */
module LogCensor {
  import opened Options
  import opened Texts

  /** An error: its own string properties, where they read as strings, and whatever else hangs off it. */
  datatype ErrorValue = ErrorValue(
    name: Option<string>, message: Option<string>, stack: Option<string>, own: seq<Field>)

  /**
   `plain` is an object whose prototype is `Object.prototype` or null, as opposed to an instance. The
   number that is not identical to itself is kept apart from the other scalars.
   */
  datatype Value =
    | Undefined
    | NaN
    | Scalar(text: string)
    | Err(error: ErrorValue)
    | Arr(elements: seq<Value>)
    | Obj(plain: bool, fields: seq<Field>)

  datatype Field = Field(key: string, value: Value)

  const LOGGABLE_FIELDS := {
    "attempt", "attempts", "boot_precondition", "code", "duration_ms", "err_message", "err_name", "err_stack",
    "link_id", "msg", "request_id", "retry_in_ms", "route", "status", "template", "tenant_id"}

  const REDACT_CENSOR := "[redacted]"
  const CENSORED := Scalar(REDACT_CENSOR)
  const ERROR_KEY := "err"
  const MAX_SCAN_DEPTH := 4

  /** The keys that are logged. */
  lemma LoggableKeys(key: string)
    ensures key in LOGGABLE_FIELDS <==>
              || key in ["attempt", "attempts", "boot_precondition", "code", "duration_ms", "link_id", "msg"]
              || key in ["err_message", "err_name", "err_stack", "request_id", "retry_in_ms", "route", "status"]
              || key in ["template", "tenant_id"]
  {
  }

  // ---------------------------------------------------------------------------------------------
  // Errors
  // ---------------------------------------------------------------------------------------------

  const UNREADABLE := "unreadable"

  /** JavaScript's `\s`, but for the line feed, which no line of a split text holds. */
  predicate IsSpace(c: char) {
    || c == '\t' || c == '\U{B}' || c == '\U{C}' || c == '\r' || c == ' ' || c == '\U{A0}' || c == '\U{1680}'
    || '\U{2000}' <= c <= '\U{200A}' || c == '\U{2028}' || c == '\U{2029}' || c == '\U{202F}' || c == '\U{205F}'
    || c == '\U{3000}' || c == '\U{FEFF}'
  }

  /** White space, then `at `, then anything. */
  predicate IsFrame(line: string) {
    exists i :: 1 <= i <= |line| && StartsWith(line[i..], "at ") && forall j :: 0 <= j < i ==> IsSpace(line[j])
  }

  lemma SpacesAre(c: char)
    ensures IsSpace(c) <==>
              || c as int in {9, 11, 12, 13, 32, 160, 5760, 8232, 8233, 8239, 8287, 12288, 65279}
              || 8192 <= c as int <= 8202
  {
  }

  /** A frame: what follows the line's white space, of which there is some, begins with `at `. */
  lemma FrameMeans(line: string, indent: nat)
    requires indent <= |line| && (forall j :: 0 <= j < indent ==> IsSpace(line[j]))
    requires indent < |line| ==> !IsSpace(line[indent])
    ensures IsFrame(line) <==>
              && indent >= 1 && indent + 3 <= |line|
              && line[indent] == 'a' && line[indent + 1] == 't' && line[indent + 2] == ' '
  {
    forall i | 1 <= i <= |line| && StartsWith(line[i..], "at ") && (forall j :: 0 <= j < i ==> IsSpace(line[j]))
      ensures i == indent && line[i] == 'a' && line[i + 1] == 't' && line[i + 2] == ' ' && i + 3 <= |line|
    {
      assert line[i..][..3] == "at " && line[i..][0] == line[i] && line[i..][1] == line[i + 1];
      assert line[i..][2] == line[i + 2];
    }
    if indent >= 1 && indent + 3 <= |line| {
      assert line[indent..][..3] == [line[indent], line[indent + 1], line[indent + 2]];
    }
  }

  function Joined(lines: seq<string>): string {
    if lines == [] then "" else if |lines| == 1 then lines[0] else lines[0] + "\n" + Joined(lines[1..])
  }

  function FramesIn(lines: seq<string>): seq<string> {
    if lines == [] then [] else (if IsFrame(lines[0]) then [lines[0]] else []) + FramesIn(lines[1..])
  }

  function Header(name: Option<string>, message: Option<string>): string {
    (if name.Some? then name.value else UNREADABLE) + ": " + (if message.Some? then message.value else "")
  }

  predicate StartsWith(s: string, prefix: string) {
    |prefix| <= |s| && s[..|prefix|] == prefix
  }

  /** The stack with its header taken off by prefix, where it stands there. */
  function Stripped(e: ErrorValue): string
    requires e.stack.Some?
  {
    var header := Header(e.name, e.message);
    if StartsWith(e.stack.value, header) then e.stack.value[|header|..] else e.stack.value
  }

  function StackFrames(e: ErrorValue): Option<string> {
    if e.stack.None? then None
    else
      var frames := FramesIn(Split(Stripped(e), '\n'));
      if frames == [] then None else Some(Joined(frames))
  }

  function ReducedTo(name: Option<string>, frames: Option<string>): Value {
    Obj(true, [Field("err_name", Scalar(if name.Some? then name.value else UNREADABLE))]
              + (if frames.Some? then [Field("err_stack", Scalar(frames.value))] else []))
  }

  /** `errorLogFields` with the message withheld, as every censored error is. */
  function Reduced(e: ErrorValue): Value {
    ReducedTo(e.name, StackFrames(e))
  }

  lemma {:induction false} SplitInvertsJoined(lines: seq<string>)
    requires lines != [] && forall l :: l in lines ==> Lacks(l, '\n')
    ensures Split(Joined(lines), '\n') == lines
  {
    SplitOne(lines[0], '\n');
    if |lines| == 1 {
      assert lines == [lines[0]];
    } else {
      SplitInvertsJoined(lines[1..]);
      SplitConcat(lines[0], Joined(lines[1..]), '\n');
    }
  }

  lemma {:induction false} FramesAreFrames(lines: seq<string>)
    ensures forall l :: l in FramesIn(lines) ==> IsFrame(l) && l in lines
    ensures FramesIn(lines) == [] <==> forall l :: l in lines ==> !IsFrame(l)
  {
    if lines != [] {
      FramesAreFrames(lines[1..]);
      assert forall l :: l in lines <==> l == lines[0] || l in lines[1..];
    }
  }

  lemma {:induction false} FramesConcat(a: seq<string>, b: seq<string>)
    ensures FramesIn(a + b) == FramesIn(a) + FramesIn(b)
  {
    if a == [] {
      assert a + b == b;
    } else {
      assert (a + b)[1..] == a[1..] + b;
      FramesConcat(a[1..], b);
    }
  }

  lemma {:induction false} FramesKept(lines: seq<string>, line: string)
    ensures multiset(FramesIn(lines))[line] == if IsFrame(line) then multiset(lines)[line] else 0
  {
    if lines != [] {
      FramesKept(lines[1..], line);
      var first := if IsFrame(lines[0]) then [lines[0]] else [];
      assert FramesIn(lines) == first + FramesIn(lines[1..]) && lines == [lines[0]] + lines[1..];
    }
  }

  /** What a text contributes to `err_stack`: its frames, one a line. */
  function FramesOf(body: string): Option<string> {
    var frames := FramesIn(Split(body, '\n'));
    if frames == [] then None else Some(Joined(frames))
  }

  lemma FramesOfLines(body: string)
    ensures FramesOf(body).Some? ==> Split(FramesOf(body).value, '\n') == FramesIn(Split(body, '\n'))
    ensures forall l :: l in FramesIn(Split(body, '\n')) ==> IsFrame(l)
  {
    SplitPieces(body, '\n');
    FramesAreFrames(Split(body, '\n'));
    if FramesIn(Split(body, '\n')) != [] {
      SplitInvertsJoined(FramesIn(Split(body, '\n')));
    }
  }

  /** Every line of a reduced error's stack is a frame. */
  lemma StackCarriesFramesOnly(e: ErrorValue)
    requires StackFrames(e).Some?
    ensures forall l :: l in Split(StackFrames(e).value, '\n') ==> IsFrame(l)
  {
    FramesOfLines(Stripped(e));
  }

  /** What the prefix strip leaves of `head`, the part of the stack ahead of the genuine frames. */
  function Remains(e: ErrorValue, head: string): string {
    var header := Header(e.name, e.message);
    if StartsWith(head, header) then head[|header|..] else head
  }

  /** No line of the text has a frame's shape. */
  predicate FrameFree(text: string) {
    forall l :: l in Split(text, '\n') ==> !IsFrame(l)
  }

  lemma StrippedParts(e: ErrorValue, head: string, rest: string)
    requires e.stack == Some(head + "\n" + rest)
    requires StartsWith(e.stack.value, Header(e.name, e.message)) ==> |Header(e.name, e.message)| <= |head|
    ensures Stripped(e) == Remains(e, head) + "\n" + rest
  {
    var stack, header := head + "\n" + rest, Header(e.name, e.message);
    assert stack == head + ("\n" + rest);
    if |header| <= |head| {
      assert stack[..|header|] == head[..|header|];
      assert stack[|header|..] == head[|header|..] + "\n" + rest;
    }
  }

  /**
   WHAT THE MESSAGE CANNOT REACH. Split a stack anywhere the header does not reach across: whatever
   stands ahead of the cut leaves no trace in the reduced error iff no line that the strip leaves of it
   has a frame's shape. The header is built from the name and message the error has now, and need not
   be the one its stack was captured under.
   */
  lemma ReducedIgnoresTheHeadIff(e: ErrorValue, head: string, rest: string)
    requires e.stack == Some(head + "\n" + rest)
    requires StartsWith(e.stack.value, Header(e.name, e.message)) ==> |Header(e.name, e.message)| <= |head|
    ensures Reduced(e) == ReducedTo(e.name, FramesOf(rest)) <==> FrameFree(Remains(e, head))
  {
    StrippedParts(e, head, rest);
    var left := Remains(e, head);
    SplitConcat(left, rest, '\n');
    FramesConcat(Split(left, '\n'), Split(rest, '\n'));
    FramesAreFrames(Split(left, '\n'));
    var frames := FramesIn(Split(left, '\n'));
    assert FramesIn(Split(Stripped(e), '\n')) == frames + FramesIn(Split(rest, '\n'));
    if frames == [] {
      assert [] + FramesIn(Split(rest, '\n')) == FramesIn(Split(rest, '\n'));
    } else {
      FramesOfLines(Stripped(e));
      FramesOfLines(rest);
      ReducedToInjective(e.name, FramesOf(Stripped(e)), FramesOf(rest));
    }
  }

  lemma ReducedToInjective(name: Option<string>, a: Option<string>, b: Option<string>)
    ensures ReducedTo(name, a) == ReducedTo(name, b) <==> a == b
  {
    if a.Some? && b.Some? {
      assert ReducedTo(name, a).fields[1] == Field("err_stack", Scalar(a.value));
      assert ReducedTo(name, b).fields[1] == Field("err_stack", Scalar(b.value));
    }
  }

  /** The text holds the frame lines of the lines, each as often as they do, and nothing else. */
  ghost predicate HoldsFrames(text: string, lines: seq<string>) {
    forall line :: multiset(Split(text, '\n'))[line] == if IsFrame(line) then multiset(lines)[line] else 0
  }

  lemma FramesOfHolds(body: string)
    ensures FramesOf(body).None? <==> FrameFree(body)
    ensures FramesOf(body).Some? ==> HoldsFrames(FramesOf(body).value, Split(body, '\n'))
  {
    FramesAreFrames(Split(body, '\n'));
    FramesOfLines(body);
    forall line {
      FramesKept(Split(body, '\n'), line);
    }
  }

  lemma ReducedToSays(name: Option<string>, text: string)
    ensures var first := Field("err_name", Scalar(if name.Some? then name.value else "unreadable"));
            && ReducedTo(name, None) == Obj(true, [first])
            && ReducedTo(name, Some(text)) == Obj(true, [first, Field("err_stack", Scalar(text))])
  {
    var first := Field("err_name", Scalar(if name.Some? then name.value else "unreadable"));
    assert [first] + [] == [first];
  }

  lemma SameHeader(e: ErrorValue)
    ensures Header(e.name, e.message) ==
            (if e.name.Some? then e.name.value else "unreadable") + ": "
            + (if e.message.Some? then e.message.value else "")
  {
  }

  /**
   A reduced error is its name and, when its stack holds any, its frames: of a stack captured under the
   name and message the error still has, each frame line of the rest, as often as it stands there.
   */
  lemma ReducedSays(e: ErrorValue, rest: string) returns (name: string, text: string)
    requires e.stack == Some((if e.name.Some? then e.name.value else "unreadable") + ": "
                             + (if e.message.Some? then e.message.value else "") + "\n" + rest)
    ensures name == if e.name.Some? then e.name.value else "unreadable"
    ensures Reduced(e) ==
            if FrameFree(rest) then Obj(true, [Field("err_name", Scalar(name))])
            else Obj(true, [Field("err_name", Scalar(name)), Field("err_stack", Scalar(text))])
    ensures !FrameFree(rest) ==> HoldsFrames(text, Split(rest, '\n'))
  {
    SameHeader(e);
    CapturedHeaderLeavesNothing(e, rest);
    FramesOfHolds(rest);
    name := if e.name.Some? then e.name.value else "unreadable";
    text := if FramesOf(rest).Some? then FramesOf(rest).value else "";
    ReducedToSays(e.name, text);
  }

  /** A stack captured under the name and message the error still has: nothing of them is left. */
  lemma CapturedHeaderLeavesNothing(e: ErrorValue, rest: string)
    requires e.stack == Some(Header(e.name, e.message) + "\n" + rest)
    ensures Reduced(e) == ReducedTo(e.name, FramesOf(rest))
  {
    var head := Header(e.name, e.message);
    assert Remains(e, head) == "";
    ReducedIgnoresTheHeadIff(e, head, rest);
  }

  /** Whose stack was captured under the name `Error`, before its constructor gave it another. */
  function Renamed(name: string, message: string, frames: string): ErrorValue {
    ErrorValue(Some(name), Some(message), Some("Error: " + message + "\n" + frames), [])
  }

  /** A name that begins unlike `Error`: the prefix strip then finds nothing to take. */
  predicate Unlike(name: string) { name == "" || name[0] != 'E' }

  lemma RenamedKeepsItsHead(name: string, message: string, frames: string)
    requires Unlike(name)
    ensures var e := Renamed(name, message, frames);
            Reduced(e) == ReducedTo(e.name, FramesOf(frames)) <==> FrameFree("Error: " + message)
  {
    var e, head := Renamed(name, message, frames), "Error: " + message;
    assert Header(e.name, e.message)[0] == (if name == "" then ':' else name[0]);
    assert head[0] == 'E' && e.stack.value[0] == 'E';
    assert e.stack.value == head + "\n" + frames;
    ReducedIgnoresTheHeadIff(e, head, frames);
  }

  lemma TwoLines(first: string, second: string)
    requires Lacks(first, '\n') && Lacks(second, '\n')
    ensures FrameFree(first) <==> !IsFrame(first)
    ensures FrameFree(first + "\n" + second) <==> !IsFrame(first) && !IsFrame(second)
  {
    SplitOne(first, '\n');
    SplitOne(second, '\n');
    SplitConcat(first, second, '\n');
    var lines := Split(first + "\n" + second, '\n');
    assert lines == [first, second] && lines[0] in lines && lines[1] in lines;
  }

  /** A line of its message with a frame's shape comes out under `err_stack`; without it, none does. */
  lemma RenamedErrorKeepsTheLine(name: string, first: string, line: string, frames: string)
    requires Unlike(name) && Lacks(first, '\n') && Lacks(line, '\n') && IsFrame(line)
    ensures var e, f := Renamed(name, first + "\n" + line, frames), Renamed(name, first, frames);
            && Reduced(f) == ReducedTo(f.name, FramesOf(frames))
            && Reduced(e) != ReducedTo(e.name, FramesOf(frames))
            && Reduced(e) != Reduced(f)
  {
    RenamedKeepsItsHead(name, first + "\n" + line, frames);
    RenamedKeepsItsHead(name, first, frames);
    HeadOfTwoLines(first, line);
  }

  lemma HeadOfTwoLines(first: string, line: string)
    requires Lacks(first, '\n') && Lacks(line, '\n') && IsFrame(line)
    ensures FrameFree("Error: " + first) && !FrameFree("Error: " + (first + "\n" + line))
  {
    var head := "Error: " + first;
    assert head[0] == 'E';
    TwoLines(head, line);
    assert "Error: " + (first + "\n" + line) == head + "\n" + line;
  }

  lemma RemnantOf(name: string, first: string, line: string, frames: string) returns (e: ErrorValue, f: ErrorValue)
    requires Unlike(name) && Lacks(first, '\n') && Lacks(line, '\n') && IsFrame(line)
    ensures e.name == f.name == Some(name)
    ensures e.message == Some(first + "\n" + line) && f.message == Some(first)
    ensures e.stack == Some("Error: " + (first + "\n" + line) + "\n" + frames)
    ensures f.stack == Some("Error: " + first + "\n" + frames)
    ensures Reduced(e) != Reduced(f)
  {
    RenamedErrorKeepsTheLine(name, first, line, frames);
    e, f := Renamed(name, first + "\n" + line, frames), Renamed(name, first, frames);
  }

  lemma FrameAtFour(line: string)
    requires |line| >= 7 && line[4] == 'a' && line[5] == 't' && line[6] == ' '
    requires forall j :: 0 <= j < 4 ==> line[j] == ' '
    ensures IsFrame(line)
  {
    assert line[4..][..3] == "at ";
  }

  /** The failing input: two boot failures, one with a message of two lines, and the reduced errors differ. */
  lemma RenamedErrorLeavesARemnant() returns (e: ErrorValue, f: ErrorValue)
    ensures e.name == f.name == Some("BootPreconditionError")
    ensures e.message == Some("x\n    at y") && e.stack == Some("Error: x\n    at y\n    at f")
    ensures f.message == Some("x") && f.stack == Some("Error: x\n    at f")
    ensures Reduced(e) != Reduced(f)
  {
    ExampleTexts();
    FrameAtFour("    at y");
    e, f := RemnantOf("BootPreconditionError", "x", "    at y", "    at f");
  }

  lemma ExampleTexts()
    ensures "x" + "\n" + "    at y" == "x\n    at y"
    ensures "Error: " + "x\n    at y" + "\n" + "    at f" == "Error: x\n    at y\n    at f"
    ensures "Error: " + "x" + "\n" + "    at f" == "Error: x\n    at f"
  {
  }

  // ---------------------------------------------------------------------------------------------
  // The rebuild, field by field
  // ---------------------------------------------------------------------------------------------

  function FieldCensored(f: Field, depth: nat): Value
    decreases f, 0
  {
    if (depth == 1 && f.key == ERROR_KEY) || f.value.Undefined? then f.value
    else if f.value.Err? then Reduced(f.value.error)
    else if f.key in LOGGABLE_FIELDS then ValueCensored(f.value, depth)
    else CENSORED
  }

  function FieldsCensored(fields: seq<Field>, depth: nat): seq<Field>
    decreases fields, 0
  {
    seq(|fields|, i requires 0 <= i < |fields| => Field(fields[i].key, FieldCensored(fields[i], depth)))
  }

  function ValueCensored(v: Value, depth: nat): Value
    decreases v, 0
  {
    match v
    case Err(e) => Reduced(e)
    case Arr(elements) => if depth >= MAX_SCAN_DEPTH then CENSORED else Arr(ElementsCensored(elements, depth + 1))
    case Obj(plain, fields) =>
      if depth >= MAX_SCAN_DEPTH || !plain then CENSORED else Obj(true, FieldsCensored(fields, depth + 1))
    case _ => v
  }

  function ElementsCensored(elements: seq<Value>, depth: nat): seq<Value>
    decreases elements, 0
  {
    seq(|elements|, i requires 0 <= i < |elements| => ValueCensored(elements[i], depth))
  }

  // ---------------------------------------------------------------------------------------------
  // The source's form: a container is copied at its first changed value
  // ---------------------------------------------------------------------------------------------

  /** A NaN that the scan comes to: it is not identical to the NaN it is replaced by. */
  predicate FieldsHoldNaN(fields: seq<Field>, depth: nat)
    decreases fields, 0
  {
    exists i :: 0 <= i < |fields| && FieldHoldsNaN(fields[i], depth)
  }

  predicate FieldHoldsNaN(f: Field, depth: nat)
    decreases f, 0
  {
    !(depth == 1 && f.key == ERROR_KEY) && f.key in LOGGABLE_FIELDS && ValueHoldsNaN(f.value, depth)
  }

  predicate ValueHoldsNaN(v: Value, depth: nat)
    decreases v, 0
  {
    match v
    case NaN => true
    case Arr(elements) => ElementsHoldNaN(elements, depth + 1)
    case Obj(_, fields) => FieldsHoldNaN(fields, depth + 1)
    case _ => false
  }

  predicate ElementsHoldNaN(elements: seq<Value>, depth: nat)
    decreases elements, 0
  {
    exists i :: 0 <= i < |elements| && ValueHoldsNaN(elements[i], depth)
  }

  /** `same` is the source's reference equality: the very container that came in. */
  method CensorFields(record: seq<Field>, depth: nat) returns (out: seq<Field>, same: bool)
    ensures out == FieldsCensored(record, depth)
    ensures same <==> out == record && !FieldsHoldNaN(record, depth)
    decreases record, 0
  {
    var replacement: Option<seq<Field>> := None;
    ghost var changed := 0;
    for i := 0 to |record|
      invariant replacement.None? ==>
                  forall j :: 0 <= j < i ==>
                    FieldCensored(record[j], depth) == record[j].value && !FieldHoldsNaN(record[j], depth)
      invariant replacement.Some? ==>
                  && |replacement.value| == |record|
                  && 0 <= changed < i
                  && (replacement.value[changed] != record[changed] || FieldHoldsNaN(record[changed], depth))
                  && (forall j :: 0 <= j < i ==>
                        replacement.value[j] == Field(record[j].key, FieldCensored(record[j], depth)))
                  && (forall j :: i <= j < |record| ==> replacement.value[j] == record[j])
    {
      var field := record[i];
      var value := field.value;
      if depth == 1 && field.key == ERROR_KEY {
        continue;
      }
      if value.Undefined? {
        continue;
      }
      var replaced, kept := CENSORED, value == CENSORED;
      if value.Err? {
        replaced, kept := Reduced(value.error), false;
      } else if field.key in LOGGABLE_FIELDS {
        replaced, kept := CensorValue(value, depth);
      }
      if !kept {
        var copy := if replacement.Some? then replacement.value else record;
        replacement := Some(copy[i := Field(field.key, replaced)]);
        changed := i;
      }
    }
    out := if replacement.Some? then replacement.value else record;
    same := replacement.None?;
    assert out == FieldsCensored(record, depth);
  }

  method CensorValue(value: Value, depth: nat) returns (out: Value, same: bool)
    ensures out == ValueCensored(value, depth)
    ensures same <==> out == value && !ValueHoldsNaN(value, depth)
    decreases value, 0
  {
    match value
    case Err(e) => out, same := Reduced(e), false;
    case NaN => out, same := value, false;
    case Undefined => out, same := value, true;
    case Scalar(_) => out, same := value, true;
    case Arr(elements) =>
      if depth >= MAX_SCAN_DEPTH {
        return CENSORED, false;
      }
      var censored;
      censored, same := CensorElements(elements, depth + 1);
      out := Arr(censored);
    case Obj(plain, fields) =>
      if depth >= MAX_SCAN_DEPTH || !plain {
        return CENSORED, false;
      }
      var censored;
      censored, same := CensorFields(fields, depth + 1);
      out := Obj(true, censored);
  }

  method CensorElements(elements: seq<Value>, depth: nat) returns (out: seq<Value>, same: bool)
    ensures out == ElementsCensored(elements, depth)
    ensures same <==> out == elements && !ElementsHoldNaN(elements, depth)
    decreases elements, 0
  {
    var replacement: Option<seq<Value>> := None;
    ghost var changed := 0;
    for i := 0 to |elements|
      invariant replacement.None? ==>
                  forall j :: 0 <= j < i ==>
                    ValueCensored(elements[j], depth) == elements[j] && !ValueHoldsNaN(elements[j], depth)
      invariant replacement.Some? ==>
                  && |replacement.value| == |elements|
                  && 0 <= changed < i
                  && (replacement.value[changed] != elements[changed] || ValueHoldsNaN(elements[changed], depth))
                  && (forall j :: 0 <= j < i ==> replacement.value[j] == ValueCensored(elements[j], depth))
                  && (forall j :: i <= j < |elements| ==> replacement.value[j] == elements[j])
    {
      var replaced, kept := CensorValue(elements[i], depth);
      if !kept {
        var copy := if replacement.Some? then replacement.value else elements;
        replacement := Some(copy[i := replaced]);
        changed := i;
      }
    }
    out := if replacement.Some? then replacement.value else elements;
    same := replacement.None?;
    assert out == ElementsCensored(elements, depth);
  }

  // ---------------------------------------------------------------------------------------------
  // What can reach a line
  // ---------------------------------------------------------------------------------------------

  /** A container the scan will not enter. */
  predicate Declined(v: Value, depth: nat) {
    (v.Obj? && !v.plain) || ((v.Arr? || v.Obj?) && depth >= MAX_SCAN_DEPTH)
  }

  /** Two records that differ only where nothing may show: under unnamed keys and inside declined containers. */
  ghost predicate FieldsAgree(a: seq<Field>, b: seq<Field>, depth: nat)
    decreases a, 0
  {
    |a| == |b| && forall i :: 0 <= i < |a| ==> a[i].key == b[i].key && FieldAgrees(a[i], b[i], depth)
  }

  ghost predicate FieldAgrees(f: Field, g: Field, depth: nat)
    decreases f, 0
  {
    if depth == 1 && f.key == ERROR_KEY then f.value == g.value
    else if f.value.Undefined? || g.value.Undefined? then f.value == g.value
    else if f.value.Err? || g.value.Err?
    then f.value.Err? && g.value.Err? && Reduced(f.value.error) == Reduced(g.value.error)
    else f.key in LOGGABLE_FIELDS ==> ValuesAgree(f.value, g.value, depth)
  }

  ghost predicate ValuesAgree(v: Value, w: Value, depth: nat)
    decreases v, 0
  {
    if Declined(v, depth) || Declined(w, depth) then Declined(v, depth) && Declined(w, depth)
    else match v
      case Err(e) => w.Err? && Reduced(e) == Reduced(w.error)
      case Arr(elements) => w.Arr? && ElementsAgree(elements, w.elements, depth + 1)
      case Obj(_, fields) => w.Obj? && FieldsAgree(fields, w.fields, depth + 1)
      case _ => v == w
  }

  ghost predicate ElementsAgree(a: seq<Value>, b: seq<Value>, depth: nat)
    decreases a, 0
  {
    |a| == |b| && forall i :: 0 <= i < |a| ==> ValuesAgree(a[i], b[i], depth)
  }

  /**
   NON-INTERFERENCE. Records that agree come out equal: nothing under an unnamed key, inside a class
   instance, below the depth bound or on an error beside its name and frames has any influence.
   */
  lemma {:induction false} AgreeingRecordsComeOutEqual(a: seq<Field>, b: seq<Field>, depth: nat)
    requires FieldsAgree(a, b, depth)
    ensures FieldsCensored(a, depth) == FieldsCensored(b, depth)
    decreases a, 0
  {
    forall i | 0 <= i < |a| ensures FieldCensored(a[i], depth) == FieldCensored(b[i], depth) {
      if a[i].key in LOGGABLE_FIELDS && !a[i].value.Undefined? && !a[i].value.Err?
         && !(depth == 1 && a[i].key == ERROR_KEY) {
        AgreeingValuesComeOutEqual(a[i].value, b[i].value, depth);
      }
    }
  }

  lemma {:induction false} AgreeingValuesComeOutEqual(v: Value, w: Value, depth: nat)
    requires ValuesAgree(v, w, depth)
    ensures ValueCensored(v, depth) == ValueCensored(w, depth)
    decreases v, 0
  {
    if !Declined(v, depth) {
      match v
      case Arr(elements) =>
        forall i | 0 <= i < |elements|
          ensures ValueCensored(elements[i], depth + 1) == ValueCensored(w.elements[i], depth + 1)
        {
          AgreeingValuesComeOutEqual(elements[i], w.elements[i], depth + 1);
        }
        assert ElementsCensored(elements, depth + 1) == ElementsCensored(w.elements, depth + 1);
      case Obj(_, fields) => AgreeingRecordsComeOutEqual(fields, w.fields, depth + 1);
      case _ =>
    }
  }

  /** The two fields of a reduced error, the second of which holds frames only. */
  ghost predicate IsReduced(v: Value) {
    && v.Obj? && v.plain && 1 <= |v.fields| <= 2
    && v.fields[0].key == "err_name" && v.fields[0].value.Scalar?
    && (|v.fields| == 2 ==>
          && v.fields[1].key == "err_stack" && v.fields[1].value.Scalar?
          && forall l :: l in Split(v.fields[1].value.text, '\n') ==> IsFrame(l))
  }

  /** Outside the top-level `err` key: named values, reduced errors, the censor, and nothing else. */
  ghost predicate FieldsClean(fields: seq<Field>, depth: nat)
    decreases fields, 0
  {
    forall i :: 0 <= i < |fields| ==> FieldClean(fields[i], depth)
  }

  ghost predicate FieldClean(f: Field, depth: nat)
    decreases f, 0
  {
    || (depth == 1 && f.key == ERROR_KEY)
    || f.value.Undefined? || f.value == CENSORED || IsReduced(f.value)
    || (f.key in LOGGABLE_FIELDS && ValueClean(f.value, depth))
  }

  ghost predicate ValueClean(v: Value, depth: nat)
    decreases v, 0
  {
    match v
    case Err(_) => false
    case Arr(elements) =>
      depth < MAX_SCAN_DEPTH && forall i :: 0 <= i < |elements| ==> ValueClean(elements[i], depth + 1)
    case Obj(plain, fields) => IsReduced(v) || (plain && depth < MAX_SCAN_DEPTH && FieldsClean(fields, depth + 1))
    case _ => true
  }

  lemma ReducedIsReduced(e: ErrorValue)
    ensures IsReduced(Reduced(e))
  {
    if StackFrames(e).Some? {
      StackCarriesFramesOnly(e);
    }
  }

  /** Every key stays, in its place, and what it holds is what it may hold. */
  lemma {:induction false} CensoredIsClean(fields: seq<Field>, depth: nat)
    ensures FieldsClean(FieldsCensored(fields, depth), depth)
    ensures |FieldsCensored(fields, depth)| == |fields|
    ensures forall i :: 0 <= i < |fields| ==> FieldsCensored(fields, depth)[i].key == fields[i].key
    decreases fields, 0
  {
    forall i | 0 <= i < |fields| ensures FieldClean(FieldsCensored(fields, depth)[i], depth) {
      var f := fields[i];
      if f.value.Err? {
        ReducedIsReduced(f.value.error);
      } else if f.key in LOGGABLE_FIELDS && !f.value.Undefined? && !(depth == 1 && f.key == ERROR_KEY) {
        CensoredValueIsClean(f.value, depth);
      }
    }
  }

  lemma {:induction false} CensoredValueIsClean(v: Value, depth: nat)
    ensures ValueClean(ValueCensored(v, depth), depth)
    decreases v, 0
  {
    match v
    case Err(e) => ReducedIsReduced(e);
    case Arr(elements) =>
      forall i | 0 <= i < |elements| && depth < MAX_SCAN_DEPTH
        ensures ValueClean(ValueCensored(elements[i], depth + 1), depth + 1)
      {
        CensoredValueIsClean(elements[i], depth + 1);
      }
    case Obj(plain, fields) =>
      if plain && depth < MAX_SCAN_DEPTH {
        CensoredIsClean(fields, depth + 1);
      }
    case _ =>
  }

  /** A record of named scalars, NaN among them, keeps its values: the censor takes none it was told to keep. */
  lemma NamedScalarsSurvive(fields: seq<Field>, depth: nat)
    requires forall i :: 0 <= i < |fields| ==>
               fields[i].value.Undefined?
               || (fields[i].key in LOGGABLE_FIELDS && (fields[i].value.Scalar? || fields[i].value.NaN?))
    ensures FieldsCensored(fields, depth) == fields
  {
    forall i | 0 <= i < |fields| ensures FieldsCensored(fields, depth)[i] == fields[i] {
      assert !fields[i].value.Undefined? ==> ValueCensored(fields[i].value, depth) == fields[i].value;
      assert FieldCensored(fields[i], depth) == fields[i].value;
    }
  }

  // ---------------------------------------------------------------------------------------------
  // What keeps its place
  // ---------------------------------------------------------------------------------------------

  /** The value some hops inside another: a hop is the index of a field or of an element. */
  function Inside(v: Value, path: seq<nat>): Option<Value>
    decreases path
  {
    if path == [] then Some(v)
    else match v
      case Arr(elements) => if path[0] < |elements| then Inside(elements[path[0]], path[1..]) else None
      case Obj(_, fields) => if path[0] < |fields| then Inside(fields[path[0]].value, path[1..]) else None
      case _ => None
  }

  /** The way leads through arrays and plain objects only, and under named keys only. */
  predicate Named(v: Value, path: seq<nat>)
    decreases path
  {
    path == [] ||
    match v
    case Arr(elements) => path[0] < |elements| && Named(elements[path[0]], path[1..])
    case Obj(plain, fields) =>
      && plain && path[0] < |fields|
      && fields[path[0]].key in LOGGABLE_FIELDS && Named(fields[path[0]].value, path[1..])
    case _ => false
  }

  /** At the end of such a way, above the fourth level, a scalar is what it was and a container one of its size. */
  ghost predicate Survives(was: Value, now: Option<Value>, depth: nat) {
    match was
    case Scalar(_) => now == Some(was)
    case NaN => now == Some(was)
    case Arr(elements) => now.Some? && if depth < 4 then now.value.Arr? && |now.value.elements| == |elements|
                                       else now.value == Scalar("[redacted]")
    case Obj(plain, fields) =>
      now.Some? && if depth < 4 && plain then SameKeys(now.value, fields) else now.value == Scalar("[redacted]")
    case Err(e) => now == Some(Reduced(e))
    case Undefined => now == Some(Undefined)
  }

  ghost predicate SameKeys(v: Value, fields: seq<Field>) {
    && v.Obj? && v.plain && |v.fields| == |fields|
    && forall i :: 0 <= i < |fields| ==> v.fields[i].key == fields[i].key
  }

  /** One hop: the value there is censored as a value, one level down. */
  lemma HopCensored(v: Value, i: nat, depth: nat)
    requires Named(v, [i]) && 1 <= depth < 4
    ensures Inside(v, [i]).Some? && Inside(ValueCensored(v, depth), [i]).Some?
    ensures Inside(ValueCensored(v, depth), [i]).value == ValueCensored(Inside(v, [i]).value, depth + 1)
  {
    assert [i][1..] == [];
    if v.Obj? {
      var f := v.fields[i];
      assert FieldsCensored(v.fields, depth + 1)[i].value == FieldCensored(f, depth + 1);
      assert f.value.Undefined? ==> ValueCensored(f.value, depth + 1) == f.value;
    }
  }

  lemma FirstHop(v: Value, path: seq<nat>)
    requires path != []
    ensures Inside(v, path) ==
            if Inside(v, [path[0]]).Some? then Inside(Inside(v, [path[0]]).value, path[1..]) else None
    ensures Named(v, path) ==>
              Named(v, [path[0]]) && Inside(v, [path[0]]).Some? && Named(Inside(v, [path[0]]).value, path[1..])
  {
    assert [path[0]][1..] == [];
  }

  lemma {:induction false} NamedValueSurvives(v: Value, path: seq<nat>, depth: nat)
    requires Named(v, path) && Inside(v, path).Some? && 1 <= depth && depth + |path| <= 4
    ensures Survives(Inside(v, path).value, Inside(ValueCensored(v, depth), path), depth + |path|)
    decreases |path|
  {
    if path != [] {
      FirstHop(v, path);
      FirstHop(ValueCensored(v, depth), path);
      HopCensored(v, path[0], depth);
      NamedValueSurvives(Inside(v, [path[0]]).value, path[1..], depth + 1);
    }
  }

  /**
   WHAT IS NAMED SURVIVES, at every level. A scalar reached from the record's own fields through named
   keys, arrays and plain objects stands where it stood. A container so reached keeps its keys or its
   length down to the third level and is censored whole at the fourth, as an instance is at any.
   */
  lemma NamedSurvives(fields: seq<Field>, i: nat, path: seq<nat>)
    requires i < |fields| && fields[i].key in LOGGABLE_FIELDS && fields[i].key != "err"
    requires Named(fields[i].value, path) && Inside(fields[i].value, path).Some? && |path| <= 3
    ensures |FieldsCensored(fields, 1)| == |fields| && FieldsCensored(fields, 1)[i].key == fields[i].key
    ensures Survives(Inside(fields[i].value, path).value, Inside(FieldsCensored(fields, 1)[i].value, path), 1 + |path|)
  {
    NamedValueSurvives(fields[i].value, path, 1);
  }

  /** A field of a record logged, by its key and by what it holds; containers under named keys are above. */
  lemma FieldSays(fields: seq<Field>, i: nat, depth: nat)
    requires i < |fields|
    ensures var f, after := fields[i], FieldsCensored(fields, depth)[i];
            && after.key == f.key
            && (depth == 1 && f.key == "err" ==> after == f)
            && (!(depth == 1 && f.key == "err") ==>
                  match f.value
                  case Undefined => after == f
                  case Err(e) => after.value == Reduced(e)
                  case value =>
                    if f.key !in LOGGABLE_FIELDS then after.value == Scalar("[redacted]")
                    else value.Scalar? || value.NaN? ==> after == f)
  {
    assert FieldsCensored(fields, depth)[i] == Field(fields[i].key, FieldCensored(fields[i], depth));
  }
}
