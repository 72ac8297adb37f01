/** Formatting a string directly against compiling it first: one handler resolves every argument
    while it parses, the other keeps references and resolves them when the parts are run. How a
    value is rendered is a parameter. */
module CompiledFormat {
  import opened FormatString
  import opened FormatSpecs
  import opened Options


  /** fmt's `basic_format_specs`. */
  datatype Layout = Layout(
    width: int, precision: int, kind: char, align: AlignKind, sign: SignKind, alt: bool, fill: string)

  const PLAIN_LAYOUT: Layout := Layout(0, -1, '\0', NoAlign, NoSign, false, " ")

  /** The arguments, what their types allow, and how values are rendered. `asserts` says whether
      failed assertions stop the program. */
  datatype Env<!V> = Env(
    args: seq<V>,
    names: map<string, nat>,
    numeric: V -> bool,
    signed: V -> bool,
    precise: V -> bool,
    width: V -> Option<nat>,
    precision: V -> Option<nat>,
    plain: V -> string,
    render: (V, Layout) -> Option<string>,
    asserts: bool)

  // Argument ids

  datatype Ref = ByIndex(index: nat) | ByName(name: string)

  /** A reference and the next automatic index; -1 after a manual one. */
  datatype Resolved = Resolved(ref: Ref, next: int)

  /** fmt's `next_arg_id` and `check_arg_id`. */
  function Resolve(arg: ArgId, next: int): Option<Resolved> {
    match arg
    case Auto => if next >= 0 then Some(Resolved(ByIndex(next), next + 1)) else None
    case Index(id) => if next > 0 then None else Some(Resolved(ByIndex(id), -1))
    case Name(name) => Some(Resolved(ByName(name), next))
    case BadArg(_) => None
  }

  function IndexOf<V>(env: Env<V>, ref: Ref): Option<nat> {
    match ref
    case ByIndex(i) => Some(i)
    case ByName(name) => if name in env.names then Some(env.names[name]) else None
  }

  function Lookup<V>(env: Env<V>, ref: Ref): Option<V> {
    var i := IndexOf(env, ref);
    if i.Some? && i.value < |env.args| then Some(env.args[i.value]) else None
  }

  // Specifiers

  /** fmt's `specs_setter`. */
  function Set(e: SpecCall, layout: Layout): Option<Layout> {
    match e
    case Fill(text) => if |text| > 4 then None else Some(layout.(fill := text))
    case Align(align) => Some(layout.(align := align))
    case Sign(sign) => Some(layout.(sign := sign))
    case Hash => Some(layout.(alt := true))
    case Zero =>
      Some(layout.(align := Numeric, fill := if layout.fill == "" then "" else "0" + layout.fill[1..]))
    case Width(width) => Some(layout.(width := width))
    case Precision(precision) => Some(layout.(precision := precision))
    case Type(c) => Some(layout.(kind := c))
    case DynamicWidth(_) => Some(layout)
    case DynamicPrecision(_) => Some(layout)
    case EndPrecision => Some(layout)
  }

  // fmt's `numeric_specs_checker`, for an argument that may be missing.

  predicate IsNumeric<V>(env: Env<V>, arg: Option<V>) {
    arg.Some? && env.numeric(arg.value)
  }

  predicate TakesSign<V>(env: Env<V>, arg: Option<V>) {
    IsNumeric(env, arg) && env.signed(arg.value)
  }

  predicate TakesPrecision<V>(env: Env<V>, arg: Option<V>) {
    arg.Some? ==> env.precise(arg.value)
  }

  /** What `specs_checker` asks of the argument at each call. */
  predicate Allowed<V>(env: Env<V>, arg: Option<V>, e: SpecCall) {
    match e
    case Align(align) => align == Numeric ==> IsNumeric(env, arg)
    case Sign(sign) => sign != NoSign ==> TakesSign(env, arg)
    case Hash => IsNumeric(env, arg)
    case Zero => IsNumeric(env, arg)
    case EndPrecision => TakesPrecision(env, arg)
    case _ => true
  }

  datatype Eager = Eager(layout: Layout, next: int)

  /** A width or precision taken from an argument. */
  function Dynamic<V>(env: Env<V>, measure: V -> Option<nat>, ref: Ref): Option<nat> {
    var arg := Lookup(env, ref);
    if arg.Some? then measure(arg.value) else None
  }

  /** One call of `specs_checker<specs_handler>`. */
  function EagerStep<V>(env: Env<V>, v: V, e: SpecCall, st: Eager): Option<Eager> {
    match e
    case DynamicWidth(arg) =>
      (match Resolve(arg, st.next)
       case None => None
       case Some(r) =>
         var w := Dynamic(env, env.width, r.ref);
         if w.Some? then Some(Eager(st.layout.(width := w.value), r.next)) else None)
    case DynamicPrecision(arg) =>
      (match Resolve(arg, st.next)
       case None => None
       case Some(r) =>
         var p := Dynamic(env, env.precision, r.ref);
         if p.Some? then Some(Eager(st.layout.(precision := p.value), r.next)) else None)
    case _ =>
      var layout := Set(e, st.layout);
      if Allowed(env, Some(v), e) && layout.Some? then Some(Eager(layout.value, st.next)) else None
  }

  function EagerRun<V>(env: Env<V>, v: V, calls: seq<SpecCall>, st: Eager): Option<Eager> {
    if calls == [] then Some(st)
    else
      var st' := EagerStep(env, v, calls[0], st);
      if st'.None? then None else EagerRun(env, v, calls[1..], st'.value)
  }

  /** fmt's `dynamic_format_specs`. */
  datatype Deferred = Deferred(layout: Layout, widthRef: Option<Ref>, precisionRef: Option<Ref>, next: int)

  /** One call of `dynamic_specs_handler`. */
  function DeferStep(e: SpecCall, st: Deferred): Option<Deferred> {
    match e
    case DynamicWidth(arg) =>
      var r := Resolve(arg, st.next);
      if r.None? then None else Some(st.(widthRef := Some(r.value.ref), next := r.value.next))
    case DynamicPrecision(arg) =>
      var r := Resolve(arg, st.next);
      if r.None? then None else Some(st.(precisionRef := Some(r.value.ref), next := r.value.next))
    case _ =>
      var layout := Set(e, st.layout);
      if layout.None? then None else Some(st.(layout := layout.value))
  }

  function DeferRun(calls: seq<SpecCall>, st: Deferred): Option<Deferred> {
    if calls == [] then Some(st)
    else
      var st' := DeferStep(calls[0], st);
      if st'.None? then None else DeferRun(calls[1..], st'.value)
  }

  /** fmt's `handle_dynamic_spec`. */
  function Measured<V>(env: Env<V>, measure: V -> Option<nat>, ref: Option<Ref>, otherwise: int): Option<int> {
    if ref.None? then Some(otherwise)
    else
      var n := Dynamic(env, measure, ref.value);
      if n.None? then None else Some(n.value)
  }

  predicate Checked<V>(env: Env<V>, arg: Option<V>, layout: Layout) {
    && (layout.align == Numeric ==> IsNumeric(env, arg))
    && (layout.sign != NoSign ==> TakesSign(env, arg))
    && (layout.alt ==> IsNumeric(env, arg))
    && (layout.precision >= 0 ==> TakesPrecision(env, arg))
  }

  /** What the compiled format does with saved specifiers once it has the arguments. */
  function Finish<V>(env: Env<V>, arg: Option<V>, st: Deferred): Option<Layout> {
    var width := Measured(env, env.width, st.widthRef, st.layout.width);
    var precision := Measured(env, env.precision, st.precisionRef, st.layout.precision);
    if width.None? || precision.None? then None
    else
      var layout := st.layout.(width := width.value, precision := precision.value);
      if Checked(env, arg, layout) then Some(layout) else None
  }

  /** Resolving now and resolving later come to the same. */
  predicate Matches<V>(env: Env<V>, v: V, now: Option<Eager>, later: Option<Deferred>) {
    if later.None? then now.None?
    else if now.None? then Finish(env, Some(v), later.value).None?
    else Finish(env, Some(v), later.value) == Some(now.value.layout) && now.value.next == later.value.next
  }

  /** Nothing has been set yet by calls above rank `k`. */
  predicate Clean(st: Deferred, k: nat) {
    && (k < 2 ==> st.layout.align == NoAlign)
    && (k < 3 ==> st.layout.sign == NoSign)
    && (k < 4 ==> !st.layout.alt)
    && (k < 6 ==> st.widthRef.None?)
    && (k < 7 ==> st.precisionRef.None? && st.layout.precision < 0)
  }

  lemma StaysClean(e: SpecCall, st: Deferred, k: nat)
    requires Clean(st, k) && k < Rank(e) && DeferStep(e, st).Some? && Set(e, st.layout).Some?
    ensures Clean(DeferStep(e, st).value, Rank(e))
  {
  }

  /** Failed checks stay failed: later calls set other fields. */
  lemma StaysDoomed<V>(env: Env<V>, v: V, e: SpecCall, st: Deferred, k: nat)
    requires Clean(st, k) && k < Rank(e) && Finish(env, Some(v), st).None?
    ensures Matches(env, v, None, DeferStep(e, st))
  {
    hide IsNumeric, TakesSign, TakesPrecision, Dynamic;
  }

  lemma StepMatches<V>(env: Env<V>, v: V, e: SpecCall, now: Eager, later: Deferred, k: nat)
    requires Clean(later, k) && k < Rank(e) && !(7 <= Rank(e) <= 8)
    requires Matches(env, v, Some(now), Some(later))
    ensures Matches(env, v, EagerStep(env, v, e, now), DeferStep(e, later))
  {
    hide IsNumeric, TakesSign, TakesPrecision, Dynamic;
  }

  /** A precision and its check, taken together. */
  lemma PrecisionMatches<V>(env: Env<V>, v: V, e: SpecCall, now: Eager, later: Deferred)
    requires Clean(later, 6) && Rank(e) == 7 && Matches(env, v, Some(now), Some(later))
    ensures var now' := EagerStep(env, v, e, now);
            var later' := DeferStep(e, later);
            && (later'.None? ==> now'.None?)
            && (later'.Some? ==>
                  Matches(env, v, if now'.None? then None else EagerStep(env, v, EndPrecision, now'.value),
                          DeferStep(EndPrecision, later'.value)))
  {
    hide IsNumeric, TakesSign, TakesPrecision, Dynamic;
  }

  lemma {:induction false} DoomedRun<V>(env: Env<V>, v: V, calls: seq<SpecCall>, later: Deferred, k: nat)
    requires InOrder(calls, k) && Clean(later, k) && Finish(env, Some(v), later).None?
    ensures Matches(env, v, None, DeferRun(calls, later))
  {
    if calls == [] {
    } else {
      var e := calls[0];
      StaysDoomed(env, v, e, later, k);
      var later' := DeferStep(e, later);
      if later'.Some? {
        StaysClean(e, later, k);
        hide Finish, Clean, DeferStep;
        DoomedRun(env, v, calls[1..], later'.value, Rank(e));
      }
    }
  }

  /** Checking and resolving at every call, or saving everything and doing it at the end: the same
      layout, the same next index, and failure in the same cases. */
  lemma {:induction false} RunMatches<V>(env: Env<V>, v: V, calls: seq<SpecCall>, now: Eager, later: Deferred, k: nat)
    requires InOrder(calls, k) && k != 7 && Clean(later, k) && Matches(env, v, Some(now), Some(later))
    ensures Matches(env, v, EagerRun(env, v, calls, now), DeferRun(calls, later))
    decreases |calls|, 0
  {
    if calls != [] {
      var e := calls[0];
      var now', later' := EagerStep(env, v, e, now), DeferStep(e, later);
      if later'.Some? {
        StaysClean(e, later, k);
      }
      if Rank(e) == 7 {
        PrecisionMatches(env, v, e, now, later);
        if later'.Some? {
          var now'' := if now'.None? then None else EagerStep(env, v, EndPrecision, now'.value);
          var later'' := DeferStep(EndPrecision, later'.value);
          assert later''.Some? && Clean(later''.value, 8);
          hide InOrder, EagerStep, DeferStep, Finish, Clean, Rank;
          NextMatches(env, v, calls[1..][1..], now'', later''.value, 8);
        }
      } else {
        StepMatches(env, v, e, now, later, k);
        if later'.Some? {
          hide InOrder, EagerStep, DeferStep, Finish, Clean, Rank;
          NextMatches(env, v, calls[1..], now', later'.value, Rank(e));
        }
      }
    }
  }

  lemma {:induction false} NextMatches<V>(
    env: Env<V>, v: V, calls: seq<SpecCall>, now: Option<Eager>, later: Deferred, k: nat)
    requires InOrder(calls, k) && k != 7 && Clean(later, k) && Matches(env, v, now, Some(later))
    ensures Matches(env, v, if now.None? then None else EagerRun(env, v, calls, now.value), DeferRun(calls, later))
    decreases |calls|, 1
  {
    if now.None? {
      DoomedRun(env, v, calls, later, k);
    } else {
      RunMatches(env, v, calls, now.value, later, k);
    }
  }

  // The handlers

  /** The text between two positions; those that a parse reports lie within the string. */
  function Slice(s: string, begin: nat, end: nat): string {
    if begin <= end <= |s| then s[begin..end] else ""
  }

  datatype Direct = Direct(next: int, arg: nat, out: string)

  /** fmt's `format_handler`; nothing stands for an exception. */
  function DirectStep<V>(env: Env<V>, s: string, e: Event, st: Direct): Option<Direct> {
    match e
    case Text(begin, end) => Some(st.(out := st.out + Slice(s, begin, end)))
    case OnArg(arg) =>
      (match Resolve(arg, st.next)
       case None => None
       case Some(r) =>
         var i := IndexOf(env, r.ref);
         if i.None? then None else Some(st.(next := r.next, arg := i.value)))
    case Field(_) =>
      if st.arg < |env.args| then Some(st.(out := st.out + env.plain(env.args[st.arg]))) else None
    case Specs(at) =>
      if st.arg >= |env.args| || at > |s| then None
      else
        (match SpecsAt(s, at)
         case Failed(_) => None
         case Parsed(calls, _) =>
           var v := env.args[st.arg];
           match EagerRun(env, v, calls, Eager(PLAIN_LAYOUT, st.next))
           case None => None
           case Some(r) =>
             var text := env.render(v, r.layout);
             if text.None? then None else Some(st.(next := r.next, out := st.out + text.value)))
    case Error(_) => None
  }

  function DirectRun<V>(env: Env<V>, s: string, events: seq<Event>, st: Direct): Option<Direct> {
    if events == [] then Some(st)
    else
      var st' := DirectStep(env, s, events[0], st);
      if st'.None? then None else DirectRun(env, s, events[1..], st'.value)
  }

  /** fmt's `format_part`. */
  datatype Part = TextPart(text: string) | ArgPart(ref: Ref) | SpecsPart(ref: Ref, saved: Deferred)

  datatype Compiler = Compiler(next: int, pending: Ref, parts: seq<Part>)

  /** fmt's `format_string_compiler`. */
  function CompileStep(s: string, e: Event, st: Compiler): Option<Compiler> {
    match e
    case Text(begin, end) =>
      Some(if begin == end then st else st.(parts := st.parts + [TextPart(Slice(s, begin, end))]))
    case OnArg(arg) =>
      var r := Resolve(arg, st.next);
      if r.None? then None else Some(st.(next := r.value.next, pending := r.value.ref))
    case Field(_) => Some(st.(parts := st.parts + [ArgPart(st.pending)]))
    case Specs(at) =>
      if at > |s| then None
      else
        (match SpecsAt(s, at)
         case Failed(_) => None
         case Parsed(calls, _) =>
           match DeferRun(calls, Deferred(PLAIN_LAYOUT, None, None, st.next))
           case None => None
           case Some(saved) =>
             Some(st.(next := saved.next, parts := st.parts + [SpecsPart(st.pending, saved)])))
    case Error(_) => None
  }

  function CompileRun(s: string, events: seq<Event>, st: Compiler): Option<Compiler> {
    if events == [] then Some(st)
    else
      var st' := CompileStep(s, events[0], st);
      if st'.None? then None else CompileRun(s, events[1..], st'.value)
  }

  /** What one part writes. A part without its argument breaks an assertion, and writes nothing
      where assertions are off. */
  function PartText<V>(env: Env<V>, part: Part): Option<string> {
    match part
    case TextPart(text) => Some(text)
    case ArgPart(ref) =>
      var arg := Lookup(env, ref);
      if arg.Some? then Some(env.plain(arg.value)) else if env.asserts then None else Some("")
    case SpecsPart(ref, saved) =>
      var arg := Lookup(env, ref);
      var layout := Finish(env, arg, saved);
      if layout.None? then None
      else if arg.Some? then env.render(arg.value, layout.value)
      else if env.asserts then None else Some("")
  }

  function PartsText<V>(env: Env<V>, parts: seq<Part>): Option<string> {
    if parts == [] then Some("")
    else
      var before := PartsText(env, parts[..|parts| - 1]);
      var last := PartText(env, parts[|parts| - 1]);
      if before.None? || last.None? then None else Some(before.value + last.value)
  }

  lemma PartsTextMore<V>(env: Env<V>, parts: seq<Part>, part: Part)
    ensures PartsText(env, parts + [part]) ==
              var before := PartsText(env, parts);
              var last := PartText(env, part);
              if before.None? || last.None? then None else Some(before.value + last.value)
  {
    assert (parts + [part])[..|parts|] == parts;
  }

  lemma {:induction false} PartsFail<V>(env: Env<V>, parts: seq<Part>, n: nat)
    requires n <= |parts| && PartsText(env, parts[..n]).None?
    ensures PartsText(env, parts).None?
  {
    if n == |parts| {
      assert parts[..n] == parts;
    } else {
      var before := parts[..|parts| - 1];
      assert before[..n] == parts[..n];
      PartsFail(env, before, n);
    }
  }

  lemma {:induction false} PartsGrow(s: string, events: seq<Event>, st: Compiler)
    requires CompileRun(s, events, st).Some?
    ensures st.parts <= CompileRun(s, events, st).value.parts
  {
    if events == [] {
    } else {
      PartsGrow(s, events[1..], CompileStep(s, events[0], st).value);
    }
  }

  // The shape of what the parser tells

  /** Every argument id is followed by its field or by an error, and fields come nowhere else. */
  predicate Paired(events: seq<Event>) {
    events == [] ||
    match events[0]
    case OnArg(_) =>
      |events| > 1 && if events[1].Error? then Paired(events[1..])
                      else (events[1].Field? || events[1].Specs?) && Paired(events[2..])
    case Field(_) => false
    case Specs(_) => false
    case _ => Paired(events[1..])
  }

  lemma {:induction false} PairedConcat(a: seq<Event>, b: seq<Event>)
    requires Paired(a) && Paired(b)
    ensures Paired(a + b)
    decreases |a|
  {
    if a == [] {
      assert a + b == b;
    } else {
      assert (a + b)[1..] == a[1..] + b;
      if a[0].OnArg? && !a[1].Error? {
        assert (a + b)[2..] == a[2..] + b;
        PairedConcat(a[2..], b);
      } else {
        PairedConcat(a[1..], b);
      }
    }
  }

  lemma PairedField(arg: ArgId, e: Event, tail: seq<Event>)
    requires (e.Field? || e.Specs?) && Paired(tail)
    ensures Paired([OnArg(arg), e] + tail)
    ensures Paired([OnArg(arg), e])
  {
    assert ([OnArg(arg), e] + tail)[2..] == tail;
    assert [OnArg(arg), e][2..] == [];
  }

  lemma PairedError(arg: ArgId, message: string)
    ensures Paired([Error(message)]) && Paired([OnArg(arg), Error(message)])
  {
    assert [Error(message)][1..] == [];
    assert [OnArg(arg), Error(message)][1..] == [Error(message)];
  }

  lemma FieldPaired(s: string, i: nat, fb: Feedback)
    requires i < |s|
    ensures Paired(FieldAt(s, i, fb).events)
  {
    hide ArgIdAt;
    var field := FieldAt(s, i, fb);
    var last := field.events[|field.events| - 1];
    if field.events[0].OnArg? {
      var arg := field.events[0].arg;
      if last.Error? {
        PairedError(arg, last.message);
        if |field.events| > 2 {
          assert field.events == [OnArg(arg), field.events[1]] + [last];
          PairedField(arg, field.events[1], [last]);
        }
      } else {
        PairedField(arg, last, []);
      }
    } else if last.Error? {
      PairedError(Auto, last.message);
    }
  }

  lemma {:induction false} RunPaired(s: string, begin: nat, p: nat, fb: Feedback)
    requires begin <= p <= |s| && Moves(s, fb)
    ensures Paired(Run(s, begin, p, fb))
    decreases |s| - p
  {
    hide FieldAt, Moves;
    if p == |s| {
    } else if s[p] == '{' {
      FieldMoves(s, p, fb);
      FieldPaired(s, p, fb);
      var field := FieldAt(s, p, fb);
      var rest := if field.ok then Run(s, field.next, field.next, fb) else [];
      if field.ok {
        RunPaired(s, field.next, field.next, fb);
      }
      PairedConcat(field.events, rest);
      PairedConcat(TextOf(begin, p), field.events + rest);
    } else if s[p] == '}' {
      if p + 1 < |s| && s[p + 1] == '}' {
        RunPaired(s, p + 2, p + 2, fb);
        PairedConcat(TextOf(begin, p + 1), Run(s, p + 2, p + 2, fb));
      }
    } else {
      RunPaired(s, begin, p + 1, fb);
    }
  }

  // Formatting directly and running the compiled parts

  predicate IsMissing<V>(env: Env<V>, part: Part) {
    !part.TextPart? && Lookup(env, part.ref).None?
  }

  ghost predicate AnyMissing<V>(env: Env<V>, parts: seq<Part>) {
    exists i :: 0 <= i < |parts| && IsMissing(env, parts[i])
  }

  /** The parts write the text that direct formatting gives. Where that fails, running them fails
      too, or an argument is missing and no assertion says so. */
  ghost predicate Agree<V>(env: Env<V>, direct: Option<string>, parts: seq<Part>) {
    if direct.None? then PartsText(env, parts).None? || (!env.asserts && AnyMissing(env, parts))
    else PartsText(env, parts) == direct && !AnyMissing(env, parts)
  }

  ghost predicate InStep<V>(env: Env<V>, direct: Option<Direct>, compiler: Option<Compiler>) {
    if compiler.None? then direct.None?
    else
      && Agree(env, if direct.None? then None else Some(direct.value.out), compiler.value.parts)
      && (direct.Some? ==> compiler.value.next == direct.value.next)
  }

  lemma OneMore<V>(env: Env<V>, parts: seq<Part>, part: Part)
    ensures AnyMissing(env, parts + [part]) <==> AnyMissing(env, parts) || IsMissing(env, part)
  {
    hide IsMissing;
    var more := parts + [part];
    if AnyMissing(env, parts) {
      var i :| 0 <= i < |parts| && IsMissing(env, parts[i]);
      assert IsMissing(env, more[i]);
    } else if IsMissing(env, part) {
      assert IsMissing(env, more[|parts|]);
    }
  }

  lemma TextInStep<V>(env: Env<V>, s: string, e: Event, direct: Direct, compiler: Compiler)
    requires e.Text? && InStep(env, Some(direct), Some(compiler))
    ensures InStep(env, DirectStep(env, s, e, direct), CompileStep(s, e, compiler))
  {
    hide AnyMissing, PartsText;
    if e.begin == e.end {
      assert direct.out + Slice(s, e.begin, e.end) == direct.out;
    } else {
      PartsTextMore(env, compiler.parts, TextPart(Slice(s, e.begin, e.end)));
      OneMore(env, compiler.parts, TextPart(Slice(s, e.begin, e.end)));
    }
  }

  /** Saved specifiers are finished as direct formatting would have had them. */
  lemma SpecsAgree<V>(env: Env<V>, s: string, at: nat, v: V, next: int)
    requires at <= |s| && SpecsAt(s, at).Parsed?
    ensures var calls := SpecsAt(s, at).calls;
            Matches(env, v, EagerRun(env, v, calls, Eager(PLAIN_LAYOUT, next)),
                    DeferRun(calls, Deferred(PLAIN_LAYOUT, None, None, next)))
  {
    hide SpecsAt;
    RunMatches(env, v, SpecsAt(s, at).calls, Eager(PLAIN_LAYOUT, next), Deferred(PLAIN_LAYOUT, None, None, next), 0);
  }

  /** A field whose argument has been found. */
  lemma FoundInStep<V>(env: Env<V>, s: string, e: Event, direct: Direct, compiler: Compiler)
    requires (e.Field? || e.Specs?) && InStep(env, Some(direct), Some(compiler))
    requires IndexOf(env, compiler.pending) == Some(direct.arg)
    ensures InStep(env, DirectStep(env, s, e, direct), CompileStep(s, e, compiler))
  {
    var c := CompileStep(s, e, compiler);
    if c.Some? {
      PartsTextMore(env, compiler.parts, c.value.parts[|compiler.parts|]);
      OneMore(env, compiler.parts, c.value.parts[|compiler.parts|]);
    }
    hide SpecsAt, EagerRun, DeferRun, PartsText, Finish, AnyMissing;
    if e.Specs? && direct.arg < |env.args| && e.at <= |s| && SpecsAt(s, e.at).Parsed? {
      SpecsAgree(env, s, e.at, env.args[direct.arg], direct.next);
    }
  }

  /** A field whose argument does not exist. */
  lemma MissingInStep<V>(env: Env<V>, s: string, e: Event, compiler: Compiler)
    requires (e.Field? || e.Specs?) && Lookup(env, compiler.pending).None?
    ensures InStep(env, None, CompileStep(s, e, compiler))
  {
    var c := CompileStep(s, e, compiler);
    if c.Some? {
      PartsTextMore(env, compiler.parts, c.value.parts[|compiler.parts|]);
      OneMore(env, compiler.parts, c.value.parts[|compiler.parts|]);
    }
    hide SpecsAt, DeferRun, PartsText, Finish, AnyMissing;
  }

  function DirectText<V>(env: Env<V>, s: string, events: seq<Event>, direct: Option<Direct>): Option<string> {
    if direct.None? then None
    else
      var end := DirectRun(env, s, events, direct.value);
      if end.None? then None else Some(end.value.out)
  }

  function CompiledParts(s: string, events: seq<Event>, compiler: Option<Compiler>): Option<seq<Part>> {
    if compiler.None? then None
    else
      var end := CompileRun(s, events, compiler.value);
      if end.None? then None else Some(end.value.parts)
  }

  ghost predicate AgreeAll<V>(env: Env<V>, direct: Option<string>, parts: Option<seq<Part>>) {
    if parts.None? then direct.None? else Agree(env, direct, parts.value)
  }

  lemma StaysFailed<V>(env: Env<V>, parts: seq<Part>, more: seq<Part>)
    requires parts <= more && Agree(env, None, parts)
    ensures Agree(env, None, more)
  {
    hide IsMissing, PartsText;
    if PartsText(env, parts).None? {
      assert more[..|parts|] == parts;
      PartsFail(env, more, |parts|);
    } else {
      var i :| 0 <= i < |parts| && IsMissing(env, parts[i]);
      assert IsMissing(env, more[i]);
    }
  }

  lemma {:induction false} StaysInStep<V>(
    env: Env<V>, s: string, events: seq<Event>, direct: Option<Direct>, compiler: Option<Compiler>)
    requires Paired(events) && InStep(env, direct, compiler)
    ensures AgreeAll(env, DirectText(env, s, events, direct), CompiledParts(s, events, compiler))
    decreases |events|
  {
    if compiler.None? || events == [] {
    } else if direct.None? {
      var end := CompileRun(s, events, compiler.value);
      if end.Some? {
        PartsGrow(s, events, compiler.value);
        StaysFailed(env, compiler.value.parts, end.value.parts);
      }
    } else {
      var e, d, c := events[0], direct.value, compiler.value;
      var d', c' := DirectStep(env, s, e, d), CompileStep(s, e, c);
      if e.Text? {
        TextInStep(env, s, e, d, c);
        StaysInStep(env, s, events[1..], d', c');
      } else if e.OnArg? && c'.Some? {
        FieldStaysInStep(env, s, events, d, c);
      }
    }
  }

  lemma OneStep<V>(env: Env<V>, s: string, events: seq<Event>, direct: Direct, compiler: Compiler)
    requires events != []
    ensures DirectText(env, s, events, Some(direct)) ==
            DirectText(env, s, events[1..], DirectStep(env, s, events[0], direct))
    ensures CompiledParts(s, events, Some(compiler)) ==
            CompiledParts(s, events[1..], CompileStep(s, events[0], compiler))
  {
    hide DirectStep, CompileStep, PartsText;
  }

  lemma {:induction false} FieldStaysInStep<V>(
    env: Env<V>, s: string, events: seq<Event>, direct: Direct, compiler: Compiler)
    requires Paired(events) && InStep(env, Some(direct), Some(compiler))
    requires events != [] && events[0].OnArg? && CompileStep(s, events[0], compiler).Some?
    ensures AgreeAll(env, DirectText(env, s, events, Some(direct)), CompiledParts(s, events, Some(compiler)))
    decreases |events|, 0
  {
    var e, rest := events[1], events[1..];
    var d, c := DirectStep(env, s, events[0], direct), CompileStep(s, events[0], compiler).value;
    var c' := CompileStep(s, e, c);
    var d' := if d.None? then None else DirectStep(env, s, e, d.value);
    OneStep(env, s, events, direct, compiler);
    OneStep(env, s, rest, if d.None? then direct else d.value, c);
    if !e.Error? {
      if d.None? {
        MissingInStep(env, s, e, c);
      } else {
        FoundInStep(env, s, e, d.value, c);
      }
      assert rest[1..] == events[2..];
      hide InStep, CompileStep, DirectStep, PartsText;
      StaysInStep(env, s, events[2..], d', c');
    }
  }
}
