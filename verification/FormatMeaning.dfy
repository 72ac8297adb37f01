/** What a format string means: a reference semantics by pieces, and that formatting follows it. */
module FormatMeaning {
  import opened CompiledFormat
  import opened DecimalText
  import opened FormatCompiler
  import opened FormatSpecs
  import opened FormatString
  import opened FormatText
  import opened Joining
  import opened Options

  // What a field means

  /** A width or precision with the next automatic index after it. */
  datatype Measure = Measure(value: int, next: int)

  function Amounts<V>(env: Env<V>, a: Amount, measure: V -> Option<nat>, unset: int, next: int): Option<Measure> {
    match a
    case Unset => Some(Measure(unset, next))
    case Given(n) => Some(Measure(n, next))
    case FromArg(arg) =>
      var r := Resolve(arg, next);
      if r.None? then None
      else
        var n := Dynamic(env, measure, r.value.ref);
        if n.None? then None else Some(Measure(n.value, r.value.next))
  }

  /** What the argument must allow. */
  predicate Suits<V>(env: Env<V>, v: V, spec: Spec) {
    && |spec.fill| <= 4
    && (spec.sign != NoSign ==> TakesSign(env, Some(v)))
    && (spec.hash || spec.zero ==> IsNumeric(env, Some(v)))
    && (spec.precision != Unset ==> TakesPrecision(env, Some(v)))
  }

  function FillOf(spec: Spec): string {
    var fill := if spec.fill == "" then " " else spec.fill;
    if spec.zero then "0" + fill[1..] else fill
  }

  /** The layout that specifiers ask for. */
  function LayoutOf<V>(env: Env<V>, v: V, spec: Spec, next: int): Option<Eager> {
    var width := Amounts(env, spec.width, env.width, 0, next);
    if width.None? then None
    else
      var precision := Amounts(env, spec.precision, env.precision, -1, width.value.next);
      if precision.None? || !Suits(env, v, spec) then None
      else Some(Eager(
        Layout(width.value.value, precision.value.value, if spec.kind.Some? then spec.kind.value else '\0',
               if spec.zero then Numeric else spec.align, spec.sign, spec.hash, FillOf(spec)),
        precision.value.next))
  }

  function Then<V>(env: Env<V>, v: V, st: Option<Eager>, calls: seq<SpecCall>): Option<Eager> {
    if st.None? then None else EagerRun(env, v, calls, st.value)
  }

  lemma OneCall<V>(env: Env<V>, v: V, e: SpecCall, calls: seq<SpecCall>, st: Eager)
    ensures EagerRun(env, v, [e] + calls, st) == Then(env, v, EagerStep(env, v, e, st), calls)
  {
    hide EagerStep;
    assert ([e] + calls)[1..] == calls;
  }

  lemma TypeMeans<V>(env: Env<V>, v: V, spec: Spec, st: Eager)
    ensures EagerRun(env, v, TypeCalls(spec), st) ==
            Some(if spec.kind.Some? then st.(layout := st.layout.(kind := spec.kind.value)) else st)
  {
    if spec.kind.Some? {
      assert [Type(spec.kind.value)] + [] == [Type(spec.kind.value)];
      OneCall(env, v, Type(spec.kind.value), [], st);
    }
  }

  lemma PrecisionMeans<V>(env: Env<V>, v: V, spec: Spec, st: Eager)
    requires st.layout.precision == -1
    ensures EagerRun(env, v, PrecisionCalls(spec), st) ==
            var p := Amounts(env, spec.precision, env.precision, -1, st.next);
            if p.None? || (spec.precision != Unset && !TakesPrecision(env, Some(v))) then None
            else Then(env, v, Some(Eager(st.layout.(precision := p.value.value), p.value.next)), TypeCalls(spec))
  {
    hide TypeCalls, EagerRun, Dynamic, Resolve, TakesPrecision;
    if spec.precision != Unset {
      var e := if spec.precision.Given? then Precision(spec.precision.n) else DynamicPrecision(spec.precision.arg);
      assert [e, EndPrecision] + TypeCalls(spec) == [e] + ([EndPrecision] + TypeCalls(spec));
      OneCall(env, v, e, [EndPrecision] + TypeCalls(spec), st);
      var st' := EagerStep(env, v, e, st);
      if st'.Some? {
        OneCall(env, v, EndPrecision, TypeCalls(spec), st'.value);
      }
    }
  }

  lemma WidthMeans<V>(env: Env<V>, v: V, spec: Spec, st: Eager)
    requires st.layout.width == 0
    ensures EagerRun(env, v, WidthCalls(spec), st) ==
            var w := Amounts(env, spec.width, env.width, 0, st.next);
            if w.None? then None
            else Then(env, v, Some(Eager(st.layout.(width := w.value.value), w.value.next)), PrecisionCalls(spec))
  {
    hide PrecisionCalls, EagerRun, Dynamic, Resolve;
    if spec.width != Unset {
      var e := if spec.width.Given? then Width(spec.width.n) else DynamicWidth(spec.width.arg);
      OneCall(env, v, e, PrecisionCalls(spec), st);
    }
  }

  /** The layout after fill, alignment, sign and flags. */
  function FlagsLayout(spec: Spec): Layout {
    PLAIN_LAYOUT.(align := if spec.zero then Numeric else spec.align, sign := spec.sign, alt := spec.hash,
                  fill := FillOf(spec))
  }

  lemma ZeroMeans<V>(env: Env<V>, v: V, spec: Spec, st: Eager)
    requires st.layout == FlagsLayout(spec.(zero := false)) && |spec.fill| <= 4
    ensures EagerRun(env, v, ZeroCalls(spec), st) ==
            if spec.zero && !IsNumeric(env, Some(v)) then None
            else EagerRun(env, v, WidthCalls(spec), st.(layout := FlagsLayout(spec)))
  {
    hide WidthCalls, EagerRun, IsNumeric;
    if spec.zero {
      OneCall(env, v, Zero, WidthCalls(spec), st);
    }
  }

  lemma HashMeans<V>(env: Env<V>, v: V, spec: Spec, st: Eager)
    requires st.layout == FlagsLayout(spec.(zero := false, hash := false))
    ensures EagerRun(env, v, HashCalls(spec), st) ==
            if spec.hash && !IsNumeric(env, Some(v)) then None
            else EagerRun(env, v, ZeroCalls(spec), st.(layout := FlagsLayout(spec.(zero := false))))
  {
    hide ZeroCalls, EagerRun, IsNumeric;
    if spec.hash {
      OneCall(env, v, Hash, ZeroCalls(spec), st);
    }
  }

  lemma SignMeans<V>(env: Env<V>, v: V, spec: Spec, st: Eager)
    requires st.layout == FlagsLayout(spec.(zero := false, hash := false, sign := NoSign))
    ensures EagerRun(env, v, SignCalls(spec), st) ==
            if spec.sign != NoSign && !TakesSign(env, Some(v)) then None
            else EagerRun(env, v, HashCalls(spec), st.(layout := FlagsLayout(spec.(zero := false, hash := false))))
  {
    hide HashCalls, EagerRun, TakesSign;
    if spec.sign != NoSign {
      OneCall(env, v, Sign(spec.sign), HashCalls(spec), st);
    }
  }

  lemma AlignMeans<V>(env: Env<V>, v: V, spec: Spec, next: int)
    requires spec.align != Numeric && (spec.fill != "" ==> spec.align != NoAlign)
    ensures EagerRun(env, v, SpecCalls(spec), Eager(PLAIN_LAYOUT, next)) ==
            if |spec.fill| > 4 then None
            else EagerRun(env, v, SignCalls(spec),
                          Eager(FlagsLayout(spec.(zero := false, hash := false, sign := NoSign)), next))
  {
    hide SignCalls, EagerRun;
    var start := Eager(PLAIN_LAYOUT, next);
    if spec.fill != "" {
      FillCalls(spec);
      var rest := [Align(spec.align)] + SignCalls(spec);
      assert [Fill(spec.fill), Align(spec.align)] + SignCalls(spec) == [Fill(spec.fill)] + rest;
      OneCall(env, v, Fill(spec.fill), rest, start);
      if |spec.fill| <= 4 {
        OneCall(env, v, Align(spec.align), SignCalls(spec), EagerStep(env, v, Fill(spec.fill), start).value);
      }
    } else if spec.align != NoAlign {
      OnlyAlignCalls(spec);
      OneCall(env, v, Align(spec.align), SignCalls(spec), start);
    } else {
      NothingBefore(spec);
    }
  }

  /** The calls for written specifiers give exactly the layout that they ask for, or the error. */
  lemma SpecMeans<V>(env: Env<V>, v: V, spec: Spec, next: int)
    requires Proper(spec)
    ensures EagerRun(env, v, SpecCalls(spec), Eager(PLAIN_LAYOUT, next)) == LayoutOf(env, v, spec, next)
  {
    hide EagerRun, SpecCalls, SignCalls, HashCalls, ZeroCalls, WidthCalls, PrecisionCalls, TypeCalls, IsNumeric,
      TakesSign, TakesPrecision, Amounts, ProperAmount, FillOf;
    AlignMeans(env, v, spec, next);
    if |spec.fill| <= 4 {
      var s0 := Eager(FlagsLayout(spec.(zero := false, hash := false, sign := NoSign)), next);
      SignMeans(env, v, spec, s0);
      var s1 := s0.(layout := FlagsLayout(spec.(zero := false, hash := false)));
      HashMeans(env, v, spec, s1);
      var s2 := s1.(layout := FlagsLayout(spec.(zero := false)));
      ZeroMeans(env, v, spec, s2);
      var s3 := s2.(layout := FlagsLayout(spec));
      WidthMeans(env, v, spec, s3);
      var w := Amounts(env, spec.width, env.width, 0, next);
      if w.Some? {
        var s4 := Eager(s3.layout.(width := w.value.value), w.value.next);
        PrecisionMeans(env, v, spec, s4);
        var p := Amounts(env, spec.precision, env.precision, -1, w.value.next);
        if p.Some? {
          TypeMeans(env, v, spec, Eager(s4.layout.(precision := p.value.value), p.value.next));
        }
      }
    }
  }

  // Literal text

  function Escape(t: string): string {
    if t == "" then ""
    else (if t[0] == '{' || t[0] == '}' then [t[0], t[0]] else [t[0]]) + Escape(t[1..])
  }

  lemma TextFirst<V>(env: Env<V>, s: string, begin: nat, end: nat, rest: seq<Event>, st: Direct)
    requires begin <= end <= |s|
    ensures DirectText(env, s, TextOf(begin, end) + rest, Some(st)) ==
            DirectText(env, s, rest, Some(st.(out := st.out + s[begin..end])))
  {
    if begin == end {
      assert TextOf(begin, end) + rest == rest;
      assert st.out + s[begin..end] == st.out;
    } else {
      assert (TextOf(begin, end) + rest)[1..] == rest;
    }
  }

  lemma NothingMore<V>(env: Env<V>, s: string, st: Direct)
    ensures DirectText(env, s, [], Some(st)) == Some(st.out)
  {
  }

  // Whole format strings

  /** Text, a field without specifiers, or one with them. */
  datatype Piece = Literal(text: string) | Bare(arg: ArgId) | Full(arg: ArgId, spec: Spec)

  predicate ProperPiece(piece: Piece) {
    match piece
    case Literal(_) => true
    case Bare(arg) => ProperArg(arg)
    case Full(arg, spec) => ProperArg(arg) && Proper(spec)
  }

  function PieceText(piece: Piece): string {
    match piece
    case Literal(text) => Escape(text)
    case Bare(arg) => "{" + (ArgText(arg) + "}")
    case Full(arg, spec) => "{" + (ArgText(arg) + (":" + SpecText(spec)))
  }

  function Write(pieces: seq<Piece>): string {
    if pieces == [] then "" else PieceText(pieces[0]) + Write(pieces[1..])
  }

  /** What a piece adds to the text. */
  function PieceMeans<V>(env: Env<V>, piece: Piece, st: Direct): Option<Direct> {
    if piece.Literal? then Some(st.(out := st.out + piece.text))
    else
      var r := Resolve(piece.arg, st.next);
      if r.None? then None
      else
        var i := IndexOf(env, r.value.ref);
        if i.None? || i.value >= |env.args| then None
        else
          var v, st' := env.args[i.value], Direct(r.value.next, i.value, st.out);
          if piece.Bare? then Some(st'.(out := st.out + env.plain(v)))
          else
            var layout := LayoutOf(env, v, piece.spec, r.value.next);
            if layout.None? then None
            else
              var text := env.render(v, layout.value.layout);
              if text.None? then None else Some(st'.(next := layout.value.next, out := st.out + text.value))
  }

  function Means<V>(env: Env<V>, pieces: seq<Piece>, st: Direct): Option<string> {
    if pieces == [] then Some(st.out)
    else
      var st' := PieceMeans(env, pieces[0], st);
      if st'.None? then None else Means(env, pieces[1..], st'.value)
  }

  lemma ArgFirst(s: string, i: nat, arg: ArgId)
    requires ProperArg(arg) && At(s, i, ArgText(arg)) && arg != Auto
    ensures i < |s| && s[i] != '{' && s[i] != '}' && s[i] != ':'
  {
    match arg {
      case Index(id) =>
        ToDigitsValue(id);
        AtFirst(s, i, ArgText(arg));
      case Name(name) => AtFirst(s, i, name);
      case _ =>
    }
  }

  /** A written field is parsed as its argument and its specifiers. */
  lemma BareRead(s: string, p: nat, arg: ArgId, fb: Feedback)
    requires ProperArg(arg) && At(s, p, PieceText(Bare(arg)))
    ensures var j := p + 1 + |ArgText(arg)|;
            p < |s| && s[p] == '{' && FieldAt(s, p, fb) == FieldParse([OnArg(arg), Field(j)], j + 1, true)
  {
    hide ArgText, ProperArg, ArgIdAt, PieceText, At;
    BareParts(s, p, arg);
    ArgRoundTrip(s, p + 1, arg);
    AutoText(arg);
    if arg != Auto {
      ArgFirst(s, p + 1, arg);
    }
  }

  lemma BareParts(s: string, p: nat, arg: ArgId)
    requires At(s, p, PieceText(Bare(arg)))
    ensures At(s, p + 1, ArgText(arg)) && p + 1 + |ArgText(arg)| < |s|
    ensures s[p] == '{' && s[p + 1 + |ArgText(arg)|] == '}'
  {
    hide ArgText, At;
    AtSplit(s, p, "{", ArgText(arg) + "}");
    AtSplit(s, p + 1, ArgText(arg), "}");
    AtFirst(s, p, "{");
    AtFirst(s, p + 1 + |ArgText(arg)|, "}");
  }

  lemma AutoText(arg: ArgId)
    ensures arg == Auto ==> ArgText(arg) == ""
    ensures ProperArg(arg) ==> !arg.BadArg?
  {
  }

  lemma FullParts(s: string, p: nat, arg: ArgId, spec: Spec)
    requires At(s, p, PieceText(Full(arg, spec)))
    ensures At(s, p + 1, ArgText(arg)) && At(s, p + 2 + |ArgText(arg)|, SpecText(spec))
    ensures p + 2 + |ArgText(arg)| <= |s| && s[p] == '{' && s[p + 1 + |ArgText(arg)|] == ':'
  {
    FullText(arg, spec);
    hide *;
    AtSplit(s, p, "{", ArgText(arg) + (":" + SpecText(spec)));
    AtFirst(s, p, "{");
    ColonParts(s, p + 1, ArgText(arg), SpecText(spec));
  }

  lemma FullText(arg: ArgId, spec: Spec)
    ensures PieceText(Full(arg, spec)) == "{" + (ArgText(arg) + (":" + SpecText(spec)))
  {
  }

  lemma ColonParts(s: string, i: nat, a: string, b: string)
    requires At(s, i, a + (":" + b))
    ensures At(s, i, a) && At(s, i + 1 + |a|, b) && i + 1 + |a| <= |s| && s[i + |a|] == ':'
  {
    hide At;
    AtSplit(s, i, a, ":" + b);
    AtSplit(s, i + |a|, ":", b);
    AtFirst(s, i + |a|, ":");
  }

  lemma FullRead(s: string, p: nat, arg: ArgId, spec: Spec)
    requires ProperArg(arg) && Proper(spec) && At(s, p, PieceText(Full(arg, spec)))
    ensures p < |s| && s[p] == '{' && At(s, p + 2 + |ArgText(arg)|, SpecText(spec))
    ensures FieldAt(s, p, SpecsFeedback(s)) ==
            FieldParse([OnArg(arg), Specs(p + 2 + |ArgText(arg)|)], p + 2 + |ArgText(arg)| + |SpecText(spec)|, true)
  {
    hide ArgText, ProperArg, Proper, ArgIdAt, SpecText, SpecsAt, SpecCalls, At, SpecsFeedback, FieldAt, PieceText;
    var j := p + 2 + |ArgText(arg)|;
    FullParts(s, p, arg, spec);
    ArgRoundTrip(s, p + 1, arg);
    AutoText(arg);
    if arg != Auto {
      ArgFirst(s, p + 1, arg);
    }
    SpecRoundTrip(s, j, spec);
    SpecEnd(s, j, spec);
    FeedbackEnd(s, j);
    FieldWithSpecs(s, p, SpecsFeedback(s), arg, j, j + |SpecText(spec)| - 1);
  }

  lemma FeedbackEnd(s: string, i: nat)
    requires i <= |s| && SpecsAt(s, i).Parsed? && SpecsAt(s, i).end < |s| && s[SpecsAt(s, i).end] == '}'
    ensures SpecsFeedback(s)(i) == End(SpecsAt(s, i).end)
  {
  }

  lemma FieldWithSpecs(s: string, p: nat, fb: Feedback, arg: ArgId, j: nat, end: nat)
    requires p + 1 < j <= |s| && s[p] == '{' && s[p + 1] != '{' && s[p + 1] != '}' && s[j - 1] == ':'
    requires !arg.BadArg? && ArgIdAt(s, p + 1) == ArgParse(arg, j - 1)
    requires fb(j) == End(end) && end < |s| && s[end] == '}'
    ensures FieldAt(s, p, fb) == FieldParse([OnArg(arg), Specs(j)], end + 1, true)
  {
  }

  lemma SpecEnd(s: string, i: nat, spec: Spec)
    requires At(s, i, SpecText(spec))
    ensures var n := |SpecText(spec)|; n > 0 && i + n <= |s| && s[i + n - 1] == '}'
  {
    var rest := SignedText(spec);
    EndsInBrace(spec);
    hide SignedText;
    AtSplit(s, i, spec.fill, AlignText(spec.align) + rest);
    AtSplit(s, i + |spec.fill|, AlignText(spec.align), rest);
    var j := i + |spec.fill| + |AlignText(spec.align)|;
    assert s[j..j + |rest|][|rest| - 1] == s[j + |rest| - 1];
  }

  lemma BareStep<V>(env: Env<V>, s: string, arg: ArgId, at: nat, rest: seq<Event>, st: Direct)
    ensures var st' := PieceMeans(env, Bare(arg), st);
            DirectText(env, s, [OnArg(arg), Field(at)] + rest, Some(st)) == DirectText(env, s, rest, st')
  {
    FieldSteps(env, s, arg, Field(at), rest, st);
    hide DirectText;
  }

  lemma FullStep<V>(env: Env<V>, s: string, arg: ArgId, spec: Spec, at: nat, rest: seq<Event>, st: Direct)
    requires Proper(spec) && At(s, at, SpecText(spec))
    ensures var st' := PieceMeans(env, Full(arg, spec), st);
            DirectText(env, s, [OnArg(arg), Specs(at)] + rest, Some(st)) == DirectText(env, s, rest, st')
  {
    hide DirectText, SpecsAt, SpecText, SpecCalls, Proper, At, LayoutOf, EagerRun;
    FieldSteps(env, s, arg, Specs(at), rest, st);
    SpecRoundTrip(s, at, spec);
    var r := Resolve(arg, st.next);
    if r.Some? {
      var i := IndexOf(env, r.value.ref);
      if i.Some? && i.value < |env.args| {
        SpecMeans(env, env.args[i.value], spec, r.value.next);
      }
    }
  }

  lemma FieldSteps<V>(env: Env<V>, s: string, arg: ArgId, e: Event, rest: seq<Event>, st: Direct)
    ensures var st' := DirectStep(env, s, OnArg(arg), st);
            var st'' := if st'.None? then None else DirectStep(env, s, e, st'.value);
            DirectText(env, s, [OnArg(arg), e] + rest, Some(st)) == DirectText(env, s, rest, st'')
  {
    hide DirectStep;
    var events := [OnArg(arg), e] + rest;
    assert events[1..][1..] == rest;
    OneStep(env, s, events, st, COMPILER_START);
    var st' := DirectStep(env, s, OnArg(arg), st);
    if st'.Some? {
      OneStep(env, s, events[1..], st'.value, COMPILER_START);
    }
  }

  lemma SuffixAt(s: string, p: nat, text: string, rest: string)
    requires p <= |s| && s[p..] == text + rest
    ensures At(s, p, text) && p + |text| <= |s| && s[p + |text|..] == rest
  {
    assert s[p..][..|text|] == s[p..p + |text|];
    assert s[p..][|text|..] == s[p + |text|..];
  }

  lemma EscapeStep(s: string, p: nat, t: string, rest: string)
    requires p <= |s| && s[p..] == Escape(t) + rest && t != ""
    ensures p < |s| && s[p] == t[0]
    ensures if t[0] == '{' || t[0] == '}' then p + 1 < |s| && s[p + 1] == t[0] && s[p + 2..] == Escape(t[1..]) + rest
            else s[p + 1..] == Escape(t[1..]) + rest
  {
    var head := if t[0] == '{' || t[0] == '}' then [t[0], t[0]] else [t[0]];
    var more := Escape(t[1..]);
    assert Escape(t) == head + more;
    hide Escape;
    Joined(head, more, rest);
    SuffixAt(s, p, head, more + rest);
    assert forall i :: p <= i < p + |head| ==> s[i] == s[p..p + |head|][i - p];
  }

  lemma OneCharMore(out: string, text: string, c: char, t: string, empty: string)
    requires t != "" && c == t[0] && empty == ""
    ensures (out + text + [c]) + empty + t[1..] == out + text + t
    ensures out + (text + [c]) + t[1..] == out + text + t
  {
  }

  /** Escaped text, followed by more, goes to the output as it is. */
  lemma {:induction false} LiteralRun<V>(
    env: Env<V>, s: string, begin: nat, p: nat, t: string, pieces: seq<Piece>, st: Direct)
    requires begin <= p <= |s| && s[p..] == Escape(t) + Write(pieces) && Moves(s, SpecsFeedback(s))
    requires forall piece :: piece in pieces ==> ProperPiece(piece)
    ensures DirectText(env, s, Run(s, begin, p, SpecsFeedback(s)), Some(st)) ==
            Means(env, pieces, st.(out := st.out + s[begin..p] + t))
    decreases |pieces|, 1, |t|
  {
    hide SpecsFeedback, Moves, DirectText, Means, Write, ProperPiece, Run;
    if t == "" {
      assert Escape(t) + Write(pieces) == Write(pieces);
      assert st.out + s[begin..p] + t == st.out + s[begin..p];
      PiecesRun(env, s, begin, p, pieces, st);
    } else {
      EscapeStep(s, p, t, Write(pieces));
      hide Escape;
      if t[0] == '{' || t[0] == '}' {
        var st' := st.(out := st.out + s[begin..p] + [t[0]]);
        Doubled(env, s, begin, p, st);
        LiteralRun(env, s, p + 2, p + 2, t[1..], pieces, st');
        OneCharMore(st.out, s[begin..p], t[0], t, s[p + 2..p + 2]);
      } else {
        RunSkip(s, begin, p, p + 1, SpecsFeedback(s));
        LiteralRun(env, s, begin, p + 1, t[1..], pieces, st);
        OneCharMore(st.out, s[begin..p], t[0], t, "");
        assert s[begin..p + 1] == s[begin..p] + [t[0]];
      }
    }
  }

  lemma RunOpen(s: string, begin: nat, p: nat, fb: Feedback)
    requires begin <= p && p + 1 < |s| && s[p] == '{' && s[p + 1] == '{' && Moves(s, fb)
    ensures Run(s, begin, p, fb) == TextOf(begin, p) + (TextOf(p + 1, p + 2) + Run(s, p + 2, p + 2, fb))
  {
    hide ArgIdAt, Moves, TextOf;
  }

  /** A doubled brace is one character of text. */
  lemma Doubled<V>(env: Env<V>, s: string, begin: nat, p: nat, st: Direct)
    requires begin <= p && p + 1 < |s| && (s[p] == '{' || s[p] == '}') && s[p + 1] == s[p]
    requires Moves(s, SpecsFeedback(s))
    ensures DirectText(env, s, Run(s, begin, p, SpecsFeedback(s)), Some(st)) ==
            DirectText(env, s, Run(s, p + 2, p + 2, SpecsFeedback(s)), Some(st.(out := st.out + s[begin..p] + [s[p]])))
  {
    hide SpecsFeedback, Moves, DirectText, Run, TextOf;
    var rest := Run(s, p + 2, p + 2, SpecsFeedback(s));
    if s[p] == '{' {
      RunOpen(s, begin, p, SpecsFeedback(s));
      TextFirst(env, s, begin, p, TextOf(p + 1, p + 2) + rest, st);
      TextFirst(env, s, p + 1, p + 2, rest, st.(out := st.out + s[begin..p]));
      assert s[p + 1..p + 2] == [s[p]];
    } else {
      RunClose(s, begin, p, SpecsFeedback(s));
      TextFirst(env, s, begin, p + 1, rest, st);
      assert st.out + s[begin..p + 1] == st.out + s[begin..p] + [s[p]];
    }
  }

  lemma {:induction false} PiecesRun<V>(
    env: Env<V>, s: string, begin: nat, p: nat, pieces: seq<Piece>, st: Direct)
    requires begin <= p <= |s| && s[p..] == Write(pieces) && Moves(s, SpecsFeedback(s))
    requires forall piece :: piece in pieces ==> ProperPiece(piece)
    ensures DirectText(env, s, Run(s, begin, p, SpecsFeedback(s)), Some(st)) ==
            Means(env, pieces, st.(out := st.out + s[begin..p]))
    decreases |pieces|, 0
  {
    if pieces == [] {
      var fb, st' := SpecsFeedback(s), st.(out := st.out + s[begin..p]);
      hide SpecsFeedback, Moves, DirectText;
      TextFirst(env, s, begin, p, [], st);
      assert TextOf(begin, p) + [] == TextOf(begin, p);
      NothingMore(env, s, st');
    } else {
      var piece, rest := pieces[0], pieces[1..];
      assert ProperPiece(piece);
      assert forall x :: x in rest ==> x in pieces;
      if piece.Literal? {
        hide DirectText, Run, SpecsFeedback, Moves, Escape;
        LiteralRun(env, s, begin, p, piece.text, rest, st);
      } else {
        FieldRun(env, s, begin, p, piece, rest, st);
      }
    }
  }

  /** Where the parse of a field ends, and what it tells. */
  lemma FieldTold<V>(env: Env<V>, s: string, p: nat, piece: Piece, rest: seq<Event>, st: Direct)
    requires !piece.Literal? && ProperPiece(piece) && At(s, p, PieceText(piece))
    ensures p < |s| && s[p] == '{'
    ensures var field := FieldAt(s, p, SpecsFeedback(s));
            && field.ok && field.next == p + |PieceText(piece)|
            && DirectText(env, s, field.events + rest, Some(st))
               == DirectText(env, s, rest, PieceMeans(env, piece, st))
  {
    hide DirectText, FieldAt, SpecsFeedback, PieceText, ArgText, SpecText, PieceMeans, Proper, ProperArg, At;
    PieceLength(piece);
    if piece.Bare? {
      BareTold(env, s, p, piece.arg, rest, st);
    } else {
      FullTold(env, s, p, piece.arg, piece.spec, rest, st);
    }
  }

  lemma BareTold<V>(env: Env<V>, s: string, p: nat, arg: ArgId, rest: seq<Event>, st: Direct)
    requires ProperArg(arg) && At(s, p, PieceText(Bare(arg)))
    ensures p < |s| && s[p] == '{'
    ensures var field := FieldAt(s, p, SpecsFeedback(s));
            && field.ok && field.next == p + 2 + |ArgText(arg)|
            && DirectText(env, s, field.events + rest, Some(st))
               == DirectText(env, s, rest, PieceMeans(env, Bare(arg), st))
  {
    hide *;
    BareRead(s, p, arg, SpecsFeedback(s));
    BareStep(env, s, arg, p + 1 + |ArgText(arg)|, rest, st);
  }

  lemma FullTold<V>(env: Env<V>, s: string, p: nat, arg: ArgId, spec: Spec, rest: seq<Event>, st: Direct)
    requires ProperArg(arg) && Proper(spec) && At(s, p, PieceText(Full(arg, spec)))
    ensures p < |s| && s[p] == '{'
    ensures var field := FieldAt(s, p, SpecsFeedback(s));
            && field.ok && field.next == p + 2 + |ArgText(arg)| + |SpecText(spec)|
            && DirectText(env, s, field.events + rest, Some(st))
               == DirectText(env, s, rest, PieceMeans(env, Full(arg, spec), st))
  {
    hide *;
    FullRead(s, p, arg, spec);
    FullStep(env, s, arg, spec, p + 2 + |ArgText(arg)|, rest, st);
  }

  lemma PieceLength(piece: Piece)
    requires !piece.Literal?
    ensures |PieceText(piece)| == 2 + |ArgText(piece.arg)| + if piece.Bare? then 0 else |SpecText(piece.spec)|
  {
    hide ArgText, SpecText;
  }

  lemma FieldStep<V>(env: Env<V>, s: string, begin: nat, p: nat, piece: Piece, st: Direct)
    requires !piece.Literal? && ProperPiece(piece) && begin <= p <= |s| && At(s, p, PieceText(piece))
    requires Moves(s, SpecsFeedback(s)) && p + |PieceText(piece)| <= |s|
    ensures var next := p + |PieceText(piece)|;
            DirectText(env, s, Run(s, begin, p, SpecsFeedback(s)), Some(st)) ==
            DirectText(env, s, Run(s, next, next, SpecsFeedback(s)),
                       PieceMeans(env, piece, st.(out := st.out + s[begin..p])))
  {
    hide SpecsFeedback, Moves, FieldAt, PieceText, ProperPiece, PieceMeans, Run, DirectText, Shown, TextOf, At;
    var next := p + |PieceText(piece)|;
    var rest := Run(s, next, next, SpecsFeedback(s));
    FieldTold(env, s, p, piece, rest, st.(out := st.out + s[begin..p]));
    RunField(s, begin, p, SpecsFeedback(s));
    TextFirst(env, s, begin, p, FieldAt(s, p, SpecsFeedback(s)).events + rest, st);
  }

  lemma {:induction false} FieldRun<V>(
    env: Env<V>, s: string, begin: nat, p: nat, piece: Piece, pieces: seq<Piece>, st: Direct)
    requires !piece.Literal? && ProperPiece(piece)
    requires begin <= p <= |s| && s[p..] == PieceText(piece) + Write(pieces) && Moves(s, SpecsFeedback(s))
    requires forall x :: x in pieces ==> ProperPiece(x)
    ensures DirectText(env, s, Run(s, begin, p, SpecsFeedback(s)), Some(st)) ==
            var st' := PieceMeans(env, piece, st.(out := st.out + s[begin..p]));
            if st'.None? then None else Means(env, pieces, st'.value)
    decreases |pieces|, 2
  {
    hide SpecsFeedback, Moves, PieceText, Write, ProperPiece, PieceMeans, Means, Run, DirectText, At;
    SuffixAt(s, p, PieceText(piece), Write(pieces));
    FieldStep(env, s, begin, p, piece, st);
    var next := p + |PieceText(piece)|;
    var st' := PieceMeans(env, piece, st.(out := st.out + s[begin..p]));
    if st'.Some? {
      PiecesRun(env, s, next, next, pieces, st'.value);
      assert st'.value.out + s[next..next] == st'.value.out;
    } else {
      NothingAfter(env, s, Run(s, next, next, SpecsFeedback(s)));
    }
  }

  lemma NothingAfter<V>(env: Env<V>, s: string, events: seq<Event>)
    ensures DirectText(env, s, events, None) == None
  {
  }

  /** Formatting a written format string gives what its pieces mean: text as it is, and each argument,
      by number, by name or in turn, with exactly the layout asked for, or the error. */
  lemma WrittenMeans<V>(env: Env<V>, pieces: seq<Piece>)
    requires forall piece :: piece in pieces ==> ProperPiece(piece)
    ensures FormattedDirectly(env, Write(pieces)) == Means(env, pieces, DIRECT_START)
  {
    var s := Write(pieces);
    SpecsMove(s);
    assert s[0..] == s && s[0..0] == "";
    assert "" + s[0..0] == "";
    hide Moves, SpecsFeedback, Write, Means, DirectText, Run;
    PiecesRun(env, s, 0, 0, pieces, DIRECT_START);
  }

  /** So does running the compiled parts, with assertions on. */
  lemma CompiledMeans<V>(env: Env<V>, pieces: seq<Piece>)
    requires env.asserts && forall piece :: piece in pieces ==> ProperPiece(piece)
    ensures Means(env, pieces, DIRECT_START) ==
            if Compiled(Write(pieces)).None? then None else PartsText(env, Compiled(Write(pieces)).value)
  {
    hide ProperPiece, Means, Write, FormattedDirectly, Compiled, PartsText;
    WrittenMeans(env, pieces);
    CompiledIsDirect(env, Write(pieces));
  }

  // Numbering of arguments

  /** All ids of a format string, in the order in which the parser meets them. */
  function ResolveAll(args: seq<ArgId>, next: int): Option<seq<Ref>> {
    if args == [] then Some([])
    else
      var r := Resolve(args[0], next);
      if r.None? then None
      else
        var rest := ResolveAll(args[1..], r.value.next);
        if rest.None? then None else Some([r.value.ref] + rest.value)
  }

  function AutosBefore(args: seq<ArgId>, i: nat): nat
    requires i <= |args|
  {
    if i == 0 then 0 else (if args[0] == Auto then 1 else 0) + AutosBefore(args[1..], i - 1)
  }

  ghost predicate HasIndex(args: seq<ArgId>) {
    exists i :: 0 <= i < |args| && args[i].Index?
  }

  /** The reference that belongs to the id at a position, with automatic ids counted from `first`. */
  function RefAt(args: seq<ArgId>, i: nat, first: nat): Ref
    requires i < |args|
  {
    match args[i]
    case Auto => ByIndex(first + AutosBefore(args, i))
    case Index(id) => ByIndex(id)
    case Name(name) => ByName(name)
    case BadArg(_) => ByIndex(0)
  }

  ghost predicate Numbered(args: seq<ArgId>, refs: Option<seq<Ref>>, first: nat) {
    refs.Some? ==> |refs.value| == |args| && forall i :: 0 <= i < |args| ==> refs.value[i] == RefAt(args, i, first)
  }

  lemma NumberedFirst(args: seq<ArgId>, ref: Ref, rest: seq<Ref>, first: nat)
    requires args != [] && !args[0].BadArg? && ref == RefAt(args, 0, first)
    requires Numbered(args[1..], Some(rest), if args[0] == Auto then first + 1 else first)
    ensures Numbered(args, Some([ref] + rest), first)
  {
    forall i | 0 <= i < |args|
      ensures ([ref] + rest)[i] == RefAt(args, i, first)
    {
      if i > 0 {
        assert args[1..][i - 1] == args[i];
        assert rest[i - 1] == RefAt(args[1..], i - 1, if args[0] == Auto then first + 1 else first);
      }
    }
  }

  lemma HasIndexFirst(args: seq<ArgId>)
    requires args != []
    ensures HasIndex(args) <==> args[0].Index? || HasIndex(args[1..])
  {
    if HasIndex(args[1..]) {
      var i :| 0 <= i < |args[1..]| && args[1..][i].Index?;
      assert args[i + 1].Index?;
    }
  }

  /** After an automatic id only automatic ids and names go on, after a manual one only numbers and
      names. */
  lemma {:induction false} ResolveFrom(args: seq<ArgId>, next: int)
    requires forall a :: a in args ==> ProperArg(a)
    ensures next > 0 ==> (ResolveAll(args, next).Some? <==> !HasIndex(args))
    ensures next == 0 ==> (ResolveAll(args, next).Some? <==> !(Auto in args && HasIndex(args)))
    ensures next < 0 ==> (ResolveAll(args, next).Some? <==> Auto !in args)
    ensures Numbered(args, ResolveAll(args, next), if next >= 0 then next else 0)
    decreases |args|
  {
    if args == [] {
    } else {
      var r := Resolve(args[0], next);
      HasIndexFirst(args);
      assert args == [args[0]] + args[1..];
      assert args[0] in args;
      if r.Some? {
        ResolveFrom(args[1..], r.value.next);
        var rest := ResolveAll(args[1..], r.value.next);
        hide HasIndex, ProperArg;
        if rest.Some? {
          NumberedFirst(args, r.value.ref, rest.value, if next >= 0 then next else 0);
        }
      }
    }
  }

  /** Argument ids are accepted if and only if automatic ones and numbers are not mixed; the automatic
      ones count up from zero. */
  lemma Numbering(args: seq<ArgId>)
    requires forall a :: a in args ==> ProperArg(a)
    ensures ResolveAll(args, 0).Some? <==> !(Auto in args && HasIndex(args))
    ensures Numbered(args, ResolveAll(args, 0), 0)
  {
    ResolveFrom(args, 0);
  }

  function AmountIds(a: Amount): seq<ArgId> {
    if a.FromArg? then [a.arg] else []
  }

  function PieceIds(piece: Piece): seq<ArgId> {
    match piece
    case Literal(_) => []
    case Bare(arg) => [arg]
    case Full(arg, spec) => [arg] + (AmountIds(spec.width) + AmountIds(spec.precision))
  }

  function Ids(pieces: seq<Piece>): seq<ArgId> {
    if pieces == [] then [] else PieceIds(pieces[0]) + Ids(pieces[1..])
  }

  lemma ResolveOne(arg: ArgId, rest: seq<ArgId>, next: int)
    requires Resolve(arg, next).Some? && ResolveAll(rest, Resolve(arg, next).value.next).Some?
    ensures ResolveAll([arg] + rest, next).Some?
  {
    assert ([arg] + rest)[1..] == rest;
  }

  lemma AmountResolves<V>(env: Env<V>, a: Amount, measure: V -> Option<nat>, unset: int, rest: seq<ArgId>, next: int)
    requires Amounts(env, a, measure, unset, next).Some?
    requires ResolveAll(rest, Amounts(env, a, measure, unset, next).value.next).Some?
    ensures ResolveAll(AmountIds(a) + rest, next).Some?
  {
    if a.FromArg? {
      ResolveOne(a.arg, rest, next);
    } else {
      assert [] + rest == rest;
    }
  }

  lemma PieceResolves<V>(env: Env<V>, piece: Piece, st: Direct, rest: seq<ArgId>)
    requires PieceMeans(env, piece, st).Some? && ResolveAll(rest, PieceMeans(env, piece, st).value.next).Some?
    ensures ResolveAll(PieceIds(piece) + rest, st.next).Some?
  {
    hide ResolveAll;
    match piece {
      case Literal(_) => assert [] + rest == rest;
      case Bare(arg) => ResolveOne(arg, rest, st.next);
      case Full(arg, spec) =>
        var r := Resolve(arg, st.next).value;
        var w := Amounts(env, spec.width, env.width, 0, r.next).value;
        var widths, precisions := AmountIds(spec.width), AmountIds(spec.precision);
        AmountResolves(env, spec.precision, env.precision, -1, rest, w.next);
        AmountResolves(env, spec.width, env.width, 0, precisions + rest, r.next);
        ResolveOne(arg, widths + (precisions + rest), st.next);
        assert [arg] + (widths + (precisions + rest)) == ([arg] + (widths + precisions)) + rest;
    }
  }

  lemma {:induction false} MeansResolves<V>(env: Env<V>, pieces: seq<Piece>, st: Direct)
    requires Means(env, pieces, st).Some?
    ensures ResolveAll(Ids(pieces), st.next).Some?
  {
    if pieces == [] {
    } else {
      var st' := PieceMeans(env, pieces[0], st).value;
      MeansResolves(env, pieces[1..], st');
      hide PieceMeans, ResolveAll;
      PieceResolves(env, pieces[0], st, Ids(pieces[1..]));
    }
  }

  lemma {:induction false} IdsProper(pieces: seq<Piece>)
    requires forall piece :: piece in pieces ==> ProperPiece(piece)
    ensures forall a :: a in Ids(pieces) ==> ProperArg(a)
  {
    if pieces == [] {
    } else {
      hide ProperArg;
      assert ProperPiece(pieces[0]);
      assert forall piece :: piece in pieces[1..] ==> piece in pieces;
      IdsProper(pieces[1..]);
    }
  }

  /** No format string that mixes automatic and manual numbering is formatted, also where the ids are
      those of widths and precisions. */
  lemma NeverMixed<V>(env: Env<V>, pieces: seq<Piece>)
    requires forall piece :: piece in pieces ==> ProperPiece(piece)
    requires FormattedDirectly(env, Write(pieces)).Some?
    ensures !(Auto in Ids(pieces) && HasIndex(Ids(pieces)))
  {
    hide ProperPiece, ProperArg, Means, Write, FormattedDirectly;
    IdsProper(pieces);
    WrittenMeans(env, pieces);
    MeansResolves(env, pieces, DIRECT_START);
    Numbering(Ids(pieces));
  }
}
