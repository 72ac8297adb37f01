/** Which strings `parse_format_string` accepts: those that are spelled as what it tells its handler. */
module StringGrammar {
  import opened CompiledFormat
  import opened FormatCompiler
  import opened FormatGrammar
  import opened FormatSpecs
  import opened FormatString
  import opened FormatText
  import opened PartCounting

  /** Where a field ends that is told by its argument and `e`. */
  function EndOf(s: string, e: Event): nat {
    match e
    case Field(at) => at + 1
    case Specs(at) => if at <= |s| && SpecsAt(s, at).Parsed? then SpecsAt(s, at).end + 1 else 0
    case _ => 0
  }

  /** The field from position `i` on is an opening brace, the id as it is written, the specifiers
      after a colon as they are spelled, and the closing brace. */
  ghost predicate FieldSpelled(s: string, i: nat, arg: ArgId, e: Event) {
    && ProperArg(arg) && i < EndOf(s, e) <= |s| && s[EndOf(s, e) - 1] == '}'
    && match e
       case Field(at) => i < at && s[i..at] == "{" + ArgText(arg)
       case Specs(at) =>
         && i < at <= |s| && s[i..at] == "{" + ArgText(arg) + ":"
         && SpecsAt(s, at).Parsed? && Spells(s[at..SpecsAt(s, at).end], SpecsAt(s, at).calls)
       case _ => false
  }

  /** From position `i` on the string is spelled as the events say: text without braces, up to a doubled
      closing brace perhaps, a doubled opening brace, and fields. */
  ghost predicate Accepts(s: string, i: nat, events: seq<Event>)
    decreases |events|
  {
    if events == [] then i == |s|
    else
      match events[0]
      case Text(begin, end) =>
        || (begin == i && i < end <= |s| && Plain(s, i, end) && Accepts(s, end, events[1..]))
        || (begin == i && i < end < |s| && Plain(s, i, end - 1) && s[end - 1] == '}' && s[end] == '}'
            && Accepts(s, end + 1, events[1..]))
        || (begin == i + 1 && end == i + 2 <= |s| && s[i] == '{' && s[i + 1] == '{' && Accepts(s, end, events[1..]))
      case OnArg(arg) =>
        |events| >= 2 && FieldSpelled(s, i, arg, events[1]) && Accepts(s, EndOf(s, events[1]), events[2..])
      case _ => false
  }

  lemma TextAccepted(s: string, begin: nat, end: nat, rest: seq<Event>)
    requires Plain(s, begin, end) && Accepts(s, end, rest)
    ensures Accepts(s, begin, TextOf(begin, end) + rest)
  {
    if begin == end {
      assert TextOf(begin, end) + rest == rest;
    } else {
      assert (TextOf(begin, end) + rest)[1..] == rest;
    }
  }

  lemma CloseAccepted(s: string, begin: nat, p: nat, rest: seq<Event>)
    requires Plain(s, begin, p) && p + 1 < |s| && s[p] == '}' && s[p + 1] == '}' && Accepts(s, p + 2, rest)
    ensures Accepts(s, begin, TextOf(begin, p + 1) + rest)
  {
    assert (TextOf(begin, p + 1) + rest)[1..] == rest;
  }

  /** A field that is not in error. */
  lemma FieldAccepted(s: string, p: nat, rest: seq<Event>)
    requires p < |s| && s[p] == '{' && FieldAt(s, p, SpecsFeedback(s)).ok
    requires FieldAt(s, p, SpecsFeedback(s)).next <= |s|
    requires Accepts(s, FieldAt(s, p, SpecsFeedback(s)).next, rest)
    ensures Accepts(s, p, FieldAt(s, p, SpecsFeedback(s)).events + rest)
  {
    hide ArgIdAt, SpecsAt, ArgText, ProperArg, Spells;
    var events := FieldAt(s, p, SpecsFeedback(s)).events;
    if s[p + 1] == '{' {
      assert (events + rest)[1..] == rest;
    } else {
      FieldIsSpelled(s, p);
      assert (events + rest)[2..] == rest;
    }
  }

  lemma FeedbackEnds(s: string, j: nat)
    requires SpecsFeedback(s)(j).End?
    ensures j <= |s| && SpecsAt(s, j).Parsed? && SpecsAt(s, j).end < |s| && s[SpecsAt(s, j).end] == '}'
    ensures SpecsFeedback(s)(j).at == SpecsAt(s, j).end
  {
    hide SpecsAt;
  }

  /** What such a field consists of. */
  lemma FieldParts(s: string, p: nat, fb: Feedback)
    requires p < |s| && s[p] == '{' && FieldAt(s, p, fb).ok && FieldAt(s, p, fb).next <= |s|
    ensures p + 1 < |s| && (s[p + 1] != '{' ==> !ArgIdAt(s, p + 1).arg.BadArg?)
    ensures var field, parsed := FieldAt(s, p, fb), ArgIdAt(s, p + 1);
            && (s[p + 1] != '{' ==>
                  if parsed.next < |s| && s[parsed.next] == '}' then
                    field.events == [OnArg(parsed.arg), Field(parsed.next)] && field.next == parsed.next + 1
                  else
                    var j := parsed.next + 1;
                    && j <= |s| && s[j - 1] == ':' && field.events == [OnArg(parsed.arg), Specs(j)]
                    && fb(j).End? && field.next == fb(j).at + 1)
  {
    hide ArgIdAt;
    AutoId(s, p + 1);
  }

  lemma AutoId(s: string, i: nat)
    requires i < |s|
    ensures s[i] == '}' ==> ArgIdAt(s, i) == ArgParse(Auto, i)
  {
  }

  lemma FieldIsSpelled(s: string, p: nat)
    requires p < |s| && s[p] == '{' && FieldAt(s, p, SpecsFeedback(s)).ok && s[p + 1] != '{'
    requires FieldAt(s, p, SpecsFeedback(s)).next <= |s|
    ensures var field := FieldAt(s, p, SpecsFeedback(s));
            && |field.events| == 2 && field.events[0].OnArg?
            && FieldSpelled(s, p, field.events[0].arg, field.events[1])
            && field.next == EndOf(s, field.events[1])
  {
    hide FieldAt, SpecsFeedback, ArgIdAt, SpecsAt, ArgText, ProperArg, Spells;
    FieldParts(s, p, SpecsFeedback(s));
    ArgSpelled(s, p + 1);
    var parsed := ArgIdAt(s, p + 1);
    Opened(s, p, parsed.next, ArgText(parsed.arg));
    if s[parsed.next] == ':' {
      FeedbackEnds(s, parsed.next + 1);
      SpecsSpelled(s, parsed.next + 1);
    }
  }

  lemma Opened(s: string, p: nat, j: nat, text: string)
    requires p < j < |s| && s[p] == '{' && s[p + 1..j] == text
    ensures s[p..j] == "{" + text && (s[j] == ':' ==> s[p..j + 1] == "{" + text + ":")
  {
    assert s[p..j] == "{" + s[p + 1..j];
    assert s[j] == ':' ==> s[p..j + 1] == s[p..j] + ":";
  }

  /** Without an error the whole string is spelled as it is told. */
  lemma {:induction false} RunAccepted(s: string, begin: nat, p: nat)
    requires Plain(s, begin, p) && Moves(s, SpecsFeedback(s)) && NoError(Run(s, begin, p, SpecsFeedback(s)))
    ensures Accepts(s, begin, Run(s, begin, p, SpecsFeedback(s)))
    decreases |s| - p
  {
    var fb := SpecsFeedback(s);
    hide SpecsFeedback, FieldAt, Moves, FieldSpelled;
    if p == |s| {
      TextAccepted(s, begin, p, []);
      assert TextOf(begin, p) + [] == TextOf(begin, p);
    } else if s[p] == '{' {
      RunStep(s, begin, p, fb);
      var field := FieldAt(s, p, fb);
      var rest := Run(s, field.next, field.next, fb);
      RunAccepted(s, field.next, field.next);
      FieldAccepted(s, p, rest);
      TextAccepted(s, begin, p, field.events + rest);
    } else if s[p] == '}' {
      RunClose(s, begin, p, fb);
      CloseDoubled(s, begin, p);
      RunAccepted(s, p + 2, p + 2);
      CloseAccepted(s, begin, p, Run(s, p + 2, p + 2, fb));
    } else {
      RunAccepted(s, begin, p + 1);
    }
  }

  lemma CloseDoubled(s: string, begin: nat, p: nat)
    requires begin <= p < |s| && s[p] == '}' && Moves(s, SpecsFeedback(s))
    requires NoError(Run(s, begin, p, SpecsFeedback(s)))
    ensures p + 1 < |s| && s[p + 1] == '}' && NoError(Run(s, p + 2, p + 2, SpecsFeedback(s)))
  {
    var fb := SpecsFeedback(s);
    RunClose(s, begin, p, fb);
    hide SpecsFeedback, Run, Moves;
    assert Error(UNMATCHED) in [Error(UNMATCHED)];
    if p + 1 < |s| && s[p + 1] == '}' {
      var rest := Run(s, p + 2, p + 2, fb);
      assert forall e :: e in rest ==> e in TextOf(begin, p + 1) + rest;
    }
  }

  lemma {:induction false} DirectNoError<V>(env: Env<V>, s: string, events: seq<Event>, st: Direct)
    requires DirectRun(env, s, events, st).Some?
    ensures NoError(events)
  {
    if events == [] {
    } else {
      DirectNoError(env, s, events[1..], DirectStep(env, s, events[0], st).value);
      assert forall e :: e in events ==> e == events[0] || e in events[1..];
    }
  }

  lemma {:induction false} CompileNoError(s: string, events: seq<Event>, st: Compiler)
    requires CompileRun(s, events, st).Some?
    ensures NoError(events)
  {
    if events == [] {
    } else {
      CompileNoError(s, events[1..], CompileStep(s, events[0], st).value);
      assert forall e :: e in events ==> e == events[0] || e in events[1..];
    }
  }

  /** No other strings are formatted or compiled. */
  lemma FormattedAccepted<V>(env: Env<V>, s: string)
    requires FormattedDirectly(env, s).Some? || Compiled(s).Some?
    ensures Accepts(s, 0, Trace(s))
  {
    SpecsMove(s);
    if FormattedDirectly(env, s).Some? {
      DirectNoError(env, s, Trace(s), DIRECT_START);
    } else {
      CompileNoError(s, Trace(s), COMPILER_START);
    }
    hide SpecsFeedback, Moves, Accepts;
    RunAccepted(s, 0, 0);
  }
}
