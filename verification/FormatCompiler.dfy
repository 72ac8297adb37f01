/** Compiling a format string into parts, counting them beforehand, and running them. */
module FormatCompiler {
  import opened BraceMatching
  import opened CompiledFormat
  import opened DecimalText
  import opened FormatSpecs
  import opened FormatString
  import opened Options

  lemma SpecsMove(s: string)
    ensures Moves(s, SpecsFeedback(s))
  {
    hide SpecsAt;
  }

  lemma BracesMove(s: string)
    ensures Moves(s, BraceFeedback(s))
  {
  }

  /** What the parser tells a handler that parses the specifiers. */
  function Trace(s: string): seq<Event> {
    SpecsMove(s);
    Run(s, 0, 0, SpecsFeedback(s))
  }

  /** What it tells the counter, which matches braces instead. */
  function BraceTrace(s: string): seq<Event> {
    BracesMove(s);
    Run(s, 0, 0, BraceFeedback(s))
  }

  const COMPILER_START: Compiler := Compiler(0, ByIndex(0), [])
  const DIRECT_START: Direct := Direct(0, 0, "")

  function Compiled(s: string): Option<seq<Part>> {
    CompiledParts(s, Trace(s), Some(COMPILER_START))
  }

  function FormattedDirectly<V>(env: Env<V>, s: string): Option<string> {
    DirectText(env, s, Trace(s), Some(DIRECT_START))
  }

  /** Nothing but a missing argument stops a part: the arguments of its specifiers will do, and its
      value, if it is there, can be written. */
  predicate GoesThrough<V>(env: Env<V>, part: Part) {
    part.SpecsPart? ==>
      var arg := Lookup(env, part.ref);
      var layout := Finish(env, arg, part.saved);
      layout.Some? && (arg.Some? ==> env.render(arg.value, layout.value).Some?)
  }

  /** An argument is missing, assertions are off, and nothing else stops any part. */
  ghost predicate Unnoticed<V>(env: Env<V>, parts: seq<Part>) {
    !env.asserts && AnyMissing(env, parts) && forall i :: 0 <= i < |parts| ==> GoesThrough(env, parts[i])
  }

  lemma {:induction false} WritesWhen<V>(env: Env<V>, parts: seq<Part>)
    ensures PartsText(env, parts).Some? <==> forall i :: 0 <= i < |parts| ==> PartText(env, parts[i]).Some?
  {
    if parts == [] {
    } else {
      hide PartText;
      var n := |parts| - 1;
      WritesWhen(env, parts[..n]);
      assert forall i :: 0 <= i < n ==> parts[..n][i] == parts[i];
    }
  }

  lemma PartWrites<V>(env: Env<V>, part: Part)
    ensures PartText(env, part).Some? <==> GoesThrough(env, part) && !(env.asserts && IsMissing(env, part))
  {
    hide Finish;
  }

  lemma UnnoticedWhen<V>(env: Env<V>, parts: seq<Part>)
    ensures Unnoticed(env, parts) <==> !env.asserts && AnyMissing(env, parts) && PartsText(env, parts).Some?
  {
    hide PartText, PartsText, GoesThrough, IsMissing;
    WritesWhen(env, parts);
    forall i | 0 <= i < |parts|
      ensures PartText(env, parts[i]).Some? <==>
              GoesThrough(env, parts[i]) && !(env.asserts && IsMissing(env, parts[i]))
    {
      PartWrites(env, parts[i]);
    }
  }

  /** A string that cannot be compiled cannot be formatted directly. Otherwise running the parts
      writes the same text or fails too, except exactly where an argument is missing, assertions are
      off, and nothing else stops the parts. */
  lemma CompiledIsDirect<V>(env: Env<V>, s: string)
    ensures Compiled(s).None? ==> FormattedDirectly(env, s).None?
    ensures Compiled(s).Some? ==>
              var parts := Compiled(s).value;
              (FormattedDirectly(env, s) == PartsText(env, parts) <==> !Unnoticed(env, parts))
  {
    SpecsMove(s);
    RunPaired(s, 0, 0, SpecsFeedback(s));
    hide Run, SpecsFeedback, PartsText, Unnoticed, AnyMissing;
    StaysInStep(env, s, Trace(s), Some(DIRECT_START), Some(COMPILER_START));
    if Compiled(s).Some? {
      UnnoticedWhen(env, Compiled(s).value);
    }
  }

  /** With assertions off, one field without an argument writes nothing, where direct formatting
      fails. */
  lemma FieldUnnoticed<V>(env: Env<V>)
    requires env.args == [] && !env.asserts
    ensures Compiled("{}") == Some([ArgPart(ByIndex(0))])
    ensures PartsText(env, [ArgPart(ByIndex(0))]) == Some("") && FormattedDirectly(env, "{}") == None
  {
    var s, part := "{}", ArgPart(ByIndex(0));
    SpecsMove(s);
    assert Run(s, 2, 2, SpecsFeedback(s)) == [];
    var trace := Trace(s);
    assert trace == [OnArg(Auto), Field(1)];
    PairRun(s, trace, COMPILER_START, Compiler(1, ByIndex(0), []), Compiler(1, ByIndex(0), [] + [part]));
    assert CompileRun(s, trace[2..], Compiler(1, ByIndex(0), [part])) == Some(Compiler(1, ByIndex(0), [part]));
    assert DirectStep(env, s, trace[0], DIRECT_START) == Some(Direct(1, 0, ""));
    assert DirectRun(env, s, trace[1..], Direct(1, 0, "")).None?;
    PartsTextMore(env, [], part);
    assert [] + [part] == [part] && "" + "" == "";
    assert PartsText(env, [part]) == Some("");
  }

  // Empty text makes no difference to any handler.

  lemma ShownFirst(events: seq<Event>)
    requires events != []
    ensures var e := events[0];
            Shown(events) == (if e.Text? && e.begin == e.end then [] else [e]) + Shown(events[1..])
  {
    assert events == [events[0]] + events[1..];
    ShownConcat([events[0]], events[1..]);
    assert [events[0]][..0] == [];
  }

  lemma {:induction false} CompileShown(s: string, events: seq<Event>, st: Compiler)
    ensures CompileRun(s, Shown(events), st) == CompileRun(s, events, st)
  {
    if events == [] {
    } else {
      ShownFirst(events);
      var e, st' := events[0], CompileStep(s, events[0], st);
      if st'.Some? {
        CompileShown(s, events[1..], st'.value);
      }
      hide CompileStep, Shown;
      if e.Text? && e.begin == e.end {
        assert [] + Shown(events[1..]) == Shown(events[1..]);
        assert st' == Some(st);
      } else {
        assert ([e] + Shown(events[1..]))[1..] == Shown(events[1..]);
      }
    }
  }

  lemma {:induction false} DirectShown<V>(env: Env<V>, s: string, events: seq<Event>, st: Direct)
    ensures DirectRun(env, s, Shown(events), st) == DirectRun(env, s, events, st)
  {
    if events == [] {
    } else {
      ShownFirst(events);
      var e, st' := events[0], DirectStep(env, s, events[0], st);
      if st'.Some? {
        DirectShown(env, s, events[1..], st'.value);
      }
      if e.Text? && e.begin == e.end {
        assert [] + Shown(events[1..]) == Shown(events[1..]);
        assert st.out + Slice(s, e.begin, e.end) == st.out;
        assert st' == Some(st);
      } else {
        hide DirectStep, Shown;
        assert ([e] + Shown(events[1..]))[1..] == Shown(events[1..]);
      }
    }
  }

  // Counting

  function Count(events: seq<Event>): nat {
    if events == [] then 0
    else
      var e := events[0];
      (if e.OnArg? || (e.Text? && e.begin != e.end) then 1 else 0) + Count(events[1..])
  }

  lemma {:induction false} CountShown(events: seq<Event>)
    ensures Count(Shown(events)) == Count(events)
  {
    if events == [] {
    } else {
      ShownFirst(events);
      CountShown(events[1..]);
      var e := events[0];
      hide Shown;
      if e.Text? && e.begin == e.end {
        assert [] + Shown(events[1..]) == Shown(events[1..]);
      } else {
        assert ([e] + Shown(events[1..]))[1..] == Shown(events[1..]);
      }
    }
  }

  /** fmt's `count_parts`. */
  method CountParts(s: string) returns (count: nat)
    ensures count == Count(BraceTrace(s))
  {
    BracesMove(s);
    var events := ParseFormatString(s, BraceFeedback(s));
    CountShown(events);
    count := 0;
    var i := 0;
    while i < |events|
      invariant 0 <= i <= |events| && count + Count(events[i..]) == Count(events)
    {
      assert events[i..][1..] == events[i + 1..];
      match events[i] {
        case Text(begin, end) =>
          if begin != end {
            count := count + 1;
          }
        case OnArg(_) => count := count + 1;
        case _ =>
      }
      i := i + 1;
    }
  }

  /** The specifiers at a position take an opening brace for the type. */
  predicate TakesBrace(s: string, at: nat) {
    at <= |s| && SpecsAt(s, at).Parsed? && BRACE_TYPE in SpecsAt(s, at).calls
  }

  ghost predicate NoBraceType(s: string, events: seq<Event>) {
    forall e :: e in events && e.Specs? ==> !TakesBrace(s, e.at)
  }

  ghost predicate NoError(events: seq<Event>) {
    forall e :: e in events ==> !e.Error?
  }

  lemma FieldSame(s: string, i: nat)
    requires i < |s| && NoError(FieldAt(s, i, SpecsFeedback(s)).events)
    requires NoBraceType(s, FieldAt(s, i, SpecsFeedback(s)).events)
    ensures FieldAt(s, i, BraceFeedback(s)) == FieldAt(s, i, SpecsFeedback(s))
  {
    hide SpecsAt, ArgIdAt, BraceEnd;
    var fb := SpecsFeedback(s);
    var field := FieldAt(s, i, fb);
    if |field.events| >= 2 && field.events[1].Specs? {
      var at := field.events[1].at;
      assert field.events[1] in field.events;
      SpecsMove(s);
      if fb(at).End? {
        SameEnd(s, at);
      } else {
        assert field.events[2] in field.events;
      }
    } else {
      assert field.events[0] in field.events;
      if |field.events| >= 2 {
        assert field.events[1] in field.events;
      }
    }
  }

  lemma Within(a: seq<Event>, b: seq<Event>, c: seq<Event>)
    ensures forall e :: e in b || e in c ==> e in a + (b + c)
  {
  }

  lemma {:induction false} CompiledNoError(s: string, events: seq<Event>, st: Compiler)
    requires CompileRun(s, events, st).Some?
    ensures NoError(events)
  {
    if events == [] {
    } else {
      var st' := CompileStep(s, events[0], st);
      CompiledNoError(s, events[1..], st'.value);
      assert events == [events[0]] + events[1..];
    }
  }

  /** Each count is one part. */
  lemma {:induction false} CountIsEmitted(s: string, events: seq<Event>, st: Compiler)
    requires Paired(events) && CompileRun(s, events, st).Some?
    ensures |CompileRun(s, events, st).value.parts| == |st.parts| + Count(events)
    decreases |events|
  {
    if events == [] {
    } else {
      var e, st', rest := events[0], CompileStep(s, events[0], st), events[1..];
      if e.OnArg? {
        var st'' := CompileStep(s, rest[0], st'.value);
        assert rest[1..] == events[2..];
        assert CompileRun(s, rest, st'.value).Some?;
        CountIsEmitted(s, events[2..], st''.value);
      } else {
        CountIsEmitted(s, rest, st'.value);
      }
    }
  }

  /** fmt's `format_string_compiler`. Every part is handed on as soon as it is complete. */
  class StringCompiler {
    var next: int
    var pending: Ref
    ghost var emitted: seq<Part>

    ghost function State(): Compiler
      reads this
    {
      Compiler(next, pending, emitted)
    }

    constructor ()
      ensures State() == COMPILER_START
    {
      next, pending, emitted := 0, ByIndex(0), [];
    }

    method OnText(s: string, begin: nat, end: nat) returns (part: Option<Part>)
      modifies this
      ensures Some(State()) == CompileStep(s, Text(begin, end), old(State()))
      ensures part == if begin == end then None else Some(TextPart(Slice(s, begin, end)))
    {
      part := None;
      if begin != end {
        part := Some(TextPart(Slice(s, begin, end)));
        emitted := emitted + [part.value];
      }
    }

    method OnArgId(s: string, arg: ArgId) returns (ok: bool)
      modifies this
      ensures CompileStep(s, OnArg(arg), old(State())) == if ok then Some(State()) else None
      ensures emitted == old(emitted)
    {
      var r := Resolve(arg, next);
      ok := r.Some?;
      if ok {
        next, pending := r.value.next, r.value.ref;
      }
    }

    method OnReplacementField(s: string, at: nat) returns (part: Part)
      modifies this
      ensures Some(State()) == CompileStep(s, Field(at), old(State()))
      ensures emitted == old(emitted) + [part]
    {
      part := ArgPart(pending);
      emitted := emitted + [part];
    }

    method OnFormatSpecs(s: string, at: nat) returns (part: Option<Part>)
      modifies this
      ensures CompileStep(s, Specs(at), old(State())) == if part.Some? then Some(State()) else None
      ensures part.Some? ==> emitted == old(emitted) + [part.value]
    {
      if at > |s| {
        return None;
      }
      var specs := SpecsAt(s, at);
      if specs.Failed? {
        return None;
      }
      var saved := Deferred(PLAIN_LAYOUT, None, None, next);
      ghost var start := saved;
      var i := 0;
      while i < |specs.calls|
        invariant 0 <= i <= |specs.calls| && unchanged(this)
        invariant DeferRun(specs.calls[i..], saved) == DeferRun(specs.calls, start)
      {
        hide SpecsAt, DeferStep;
        assert specs.calls[i..][1..] == specs.calls[i + 1..];
        var st := DeferStep(specs.calls[i], saved);
        if st.None? {
          return None;
        }
        saved, i := st.value, i + 1;
      }
      next := saved.next;
      part := Some(SpecsPart(pending, saved));
      emitted := emitted + [part.value];
    }

    method Handle(s: string, e: Event) returns (ok: bool, part: Option<Part>)
      modifies this
      ensures CompileStep(s, e, old(State())) == if ok then Some(State()) else None
      ensures ok ==> emitted == if part.None? then old(emitted) else old(emitted) + [part.value]
    {
      hide SpecsAt, DeferRun;
      ok, part := true, None;
      match e {
        case Text(begin, end) => part := OnText(s, begin, end);
        case OnArg(arg) => ok := OnArgId(s, arg);
        case Field(at) =>
          var field := OnReplacementField(s, at);
          part := Some(field);
        case Specs(at) =>
          part := OnFormatSpecs(s, at);
          ok := part.Some?;
        case Error(_) => ok := false;
      }
    }
  }

  /** Compiling at run time, where a vector takes the parts. */
  method CompileFormat(s: string) returns (parts: Option<seq<Part>>)
    ensures parts == Compiled(s)
  {
    SpecsMove(s);
    var events := ParseFormatString(s, SpecsFeedback(s));
    CompileShown(s, events, COMPILER_START);
    var compiler := new StringCompiler();
    var compiled: seq<Part> := [];
    var i := 0;
    while i < |events|
      invariant 0 <= i <= |events| && fresh(compiler) && compiled == compiler.emitted
      invariant CompileRun(s, events[i..], compiler.State()) == CompileRun(s, events, COMPILER_START)
    {
      hide CompileStep;
      assert events[i..][1..] == events[i + 1..];
      var ok, part := compiler.Handle(s, events[i]);
      if !ok {
        return None;
      }
      if part.Some? {
        compiled := compiled + [part.value];
      }
      i := i + 1;
    }
    parts := Some(compiled);
  }

  /** fmt's `cf::vformat_to`. */
  method VformatTo<V>(env: Env<V>, parts: seq<Part>) returns (result: Option<string>)
    ensures result == PartsText(env, parts)
  {
    var out := "";
    var i := 0;
    while i < |parts|
      invariant 0 <= i <= |parts| && PartsText(env, parts[..i]) == Some(out)
    {
      hide PartsText, Finish;
      var part := parts[i];
      assert parts[..i] + [part] == parts[..i + 1];
      PartsTextMore(env, parts[..i], part);
      var text: Option<string> := None;
      match part {
        case TextPart(literal) => text := Some(literal);
        case ArgPart(ref) =>
          var arg := Lookup(env, ref);
          text := if arg.Some? then Some(env.plain(arg.value)) else if env.asserts then None else Some("");
        case SpecsPart(ref, saved) =>
          var arg := Lookup(env, ref);
          var layout := Finish(env, arg, saved);
          if layout.Some? {
            text := if arg.Some? then env.render(arg.value, layout.value)
                    else if env.asserts then None else Some("");
          }
      }
      if text.None? {
        PartsFail(env, parts, i + 1);
        return None;
      }
      out, i := out + text.value, i + 1;
    }
    assert parts[..i] == parts;
    result := Some(out);
  }

  /** fmt's `vformat_to`: the handler formats while the string is parsed. */
  method FormatTo<V>(env: Env<V>, s: string) returns (result: Option<string>)
    ensures result == FormattedDirectly(env, s)
  {
    SpecsMove(s);
    var events := ParseFormatString(s, SpecsFeedback(s));
    DirectShown(env, s, events, DIRECT_START);
    var handler := DIRECT_START;
    var i := 0;
    while i < |events|
      invariant 0 <= i <= |events|
      invariant DirectRun(env, s, events[i..], handler) == DirectRun(env, s, events, DIRECT_START)
    {
      hide DirectStep;
      assert events[i..][1..] == events[i + 1..];
      var step := DirectStep(env, s, events[i], handler);
      if step.None? {
        return None;
      }
      handler, i := step.value, i + 1;
    }
    result := Some(handler.out);
  }

  // A string where the counter is wrong: the first field has the type '{'.

  const MISCOUNTED: string := "{:1{}{}"

  lemma MiscountedSpecs()
    ensures SpecsAt(MISCOUNTED, 2) == Parsed([Width(1), Type('{')], 4)
  {
    var s := MISCOUNTED;
    assert DigitsEnd(s, 3) == 3 && DigitsEnd(s, 2) == 3;
    assert s[2..3] == ['1'] && s[2..3][..0] == [];
    assert ParseInt(s, 2) == Int(1, 3);
    assert WidthAt(s, 2) == Parsed([Width(1)], 3);
    assert AfterWidth(s, 3) == Parsed([Type('{')], 4);
    assert AfterZero(s, 2) == Parsed([Width(1), Type('{')], 4);
    assert AfterAlign(s, 2) == AfterZero(s, 2);
    assert AlignAt(s, 2) == Parsed([], 2);
    assert SpecsAt(s, 2).calls == [] + [Width(1), Type('{')];
  }

  lemma MiscountedTraces()
    ensures Trace(MISCOUNTED) == [OnArg(Auto), Specs(2), OnArg(Auto), Field(6)]
    ensures BraceTrace(MISCOUNTED) == [OnArg(Auto), Specs(2), Error("unknown format specifier")]
  {
    var s := MISCOUNTED;
    var specs, braces := SpecsFeedback(s), BraceFeedback(s);
    SpecsMove(s);
    BracesMove(s);
    MiscountedFields();
    hide FieldAt, SpecsFeedback, BraceFeedback;
    assert Run(s, 7, 7, specs) == [];
    assert Run(s, 5, 5, specs) == [OnArg(Auto), Field(6)];
    assert Trace(s) == [OnArg(Auto), Specs(2)] + [OnArg(Auto), Field(6)];
  }

  lemma MiscountedFields()
    ensures var specs, braces := SpecsFeedback(MISCOUNTED), BraceFeedback(MISCOUNTED);
            && FieldAt(MISCOUNTED, 0, specs) == FieldParse([OnArg(Auto), Specs(2)], 5, true)
            && FieldAt(MISCOUNTED, 5, specs) == FieldParse([OnArg(Auto), Field(6)], 7, true)
            && FieldAt(MISCOUNTED, 0, braces) ==
               FieldParse([OnArg(Auto), Specs(2), Error("unknown format specifier")], 7, false)
  {
    var s := MISCOUNTED;
    MiscountedSpecs();
    assert BraceEnd(s, 2, 0) == 7 by {
      assert BraceEnd(s, 4, 1) == 7 by {
        assert BraceEnd(s, 6, 1) == 7;
      }
    }
    hide SpecsAt, BraceEnd;
  }

  lemma PairRun(s: string, events: seq<Event>, start: Compiler, middle: Compiler, end: Compiler)
    requires |events| >= 2
    requires CompileStep(s, events[0], start) == Some(middle) && CompileStep(s, events[1], middle) == Some(end)
    ensures CompileRun(s, events, start) == CompileRun(s, events[2..], end)
  {
    hide CompileStep;
    assert events[1..][1..] == events[2..];
    assert CompileRun(s, events[1..], middle) == CompileRun(s, events[2..], end);
  }

  function MiscountedSaved(): Deferred {
    Deferred(PLAIN_LAYOUT.(width := 1, kind := '{'), None, None, 1)
  }

  lemma MiscountedDeferred()
    ensures DeferRun([Width(1), Type('{')], Deferred(PLAIN_LAYOUT, None, None, 1)) == Some(MiscountedSaved())
  {
    var calls := [Width(1), Type('{')];
    var start := Deferred(PLAIN_LAYOUT, None, None, 1);
    assert calls[1..] == [Type('{')];
    var middle := start.(layout := PLAIN_LAYOUT.(width := 1));
    assert DeferStep(calls[0], start) == Some(middle);
    assert DeferRun(calls[1..], middle) == Some(MiscountedSaved());
  }

  /** It compiles to two parts, one more than are counted. */
  lemma CountCanMiss()
    ensures Compiled(MISCOUNTED).Some? && |Compiled(MISCOUNTED).value| == 2
    ensures Count(BraceTrace(MISCOUNTED)) == 1
    ensures !NoBraceType(MISCOUNTED, Trace(MISCOUNTED))
  {
    var s := MISCOUNTED;
    MiscountedSpecs();
    MiscountedTraces();
    MiscountedDeferred();
    hide SpecsAt, DeferRun, Trace, BraceTrace;
    var trace := Trace(s);
    assert trace[1] in trace && TakesBrace(s, 2) by {
      assert [Width(1), Type('{')][1] == BRACE_TYPE;
    }
    var one := Compiler(1, ByIndex(0), [] + [SpecsPart(ByIndex(0), MiscountedSaved())]);
    var two := Compiler(2, ByIndex(1), one.parts + [ArgPart(ByIndex(1))]);
    PairRun(s, trace, COMPILER_START, Compiler(1, ByIndex(0), []), one);
    PairRun(s, trace[2..], one, Compiler(2, ByIndex(1), one.parts), two);
    assert trace[2..][2..] == [];
    assert Count(BraceTrace(s)[1..][1..][1..]) == 0;
    assert Count(BraceTrace(s)[1..]) == 0;
  }
}
