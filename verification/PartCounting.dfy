/** When exactly the part counter is right. A field with the type '{' makes it search for the end of
    the specifiers behind the field. */
module PartCounting {
  import opened BraceMatching
  import opened CompiledFormat
  import opened FormatCompiler
  import opened FormatSpecs
  import opened FormatString
  import opened Options

  lemma {:induction false} CountConcat(a: seq<Event>, b: seq<Event>)
    ensures Count(a + b) == Count(a) + Count(b)
  {
    if a == [] {
      assert a + b == b;
    } else {
      CountConcat(a[1..], b);
      assert (a + b)[1..] == a[1..] + b;
    }
  }

  lemma CountText(begin: nat, end: nat)
    ensures Count(TextOf(begin, end)) == if begin == end then 0 else 1
  {
    if begin != end {
      assert TextOf(begin, end)[1..] == [];
    }
  }

  /** A field with the type '{' comes only at the very end. */
  ghost predicate BraceTypeLast(s: string, events: seq<Event>) {
    forall e :: e in events && e.Specs? && TakesBrace(s, e.at) ==> SpecsAt(s, e.at).end + 1 == |s|
  }

  /** The three kinds of fields that are not in error: a doubled brace, and an argument without and
      with specifiers, which start at `j`. */
  datatype Kind = Brace | NoSpecs(arg: ArgId, j: nat) | HasSpecs(arg: ArgId, j: nat)

  ghost predicate Plain(s: string, i: nat, j: nat) {
    i <= j <= |s| && forall k :: i <= k < j ==> s[k] != '{' && s[k] != '}'
  }

  ghost predicate IsKind(s: string, p: nat, fb: Feedback, field: FieldParse, kind: Kind) {
    p + 1 < |s| &&
    match kind
    case Brace => s[p + 1] == '{' && field.events == TextOf(p + 1, p + 2) && field.next == p + 2
    case NoSpecs(arg, j) =>
      && field.events == [OnArg(arg), Field(j)] && field.next == j + 1
      && Plain(s, p + 1, j) && j < |s| && s[j] == '}'
    case HasSpecs(arg, j) =>
      && field.events == [OnArg(arg), Specs(j)] && Plain(s, p + 1, j)
      && fb(j).End? && fb(j).at < |s| && s[fb(j).at] == '}' && field.next == fb(j).at + 1
  }

  lemma KindOf(s: string, p: nat, fb: Feedback) returns (kind: Kind)
    requires p < |s| && s[p] == '{' && Moves(s, fb) && FieldAt(s, p, fb).ok
    ensures IsKind(s, p, fb, FieldAt(s, p, fb), kind)
  {
    hide Moves, ArgIdAt;
    var begin := p + 1;
    if s[begin] == '}' {
      return NoSpecs(Auto, begin);
    }
    if s[begin] == '{' {
      return Brace;
    }
    var parsed := ArgIdAt(s, begin);
    ArgNoBraces(s, begin);
    return if s[parsed.next] == '}' then NoSpecs(parsed.arg, parsed.next) else HasSpecs(parsed.arg, parsed.next + 1);
  }

  /** Matching braces passes over a field, and comes out one brace deeper behind the type '{'. */
  lemma FieldPassed(s: string, p: nat, depth: nat, kind: Kind) returns (depth': nat)
    requires p < |s| && s[p] == '{' && IsKind(s, p, SpecsFeedback(s), FieldAt(s, p, SpecsFeedback(s)), kind)
    ensures depth <= depth' && FieldAt(s, p, SpecsFeedback(s)).next <= |s|
    ensures BraceEnd(s, p, depth) == BraceEnd(s, FieldAt(s, p, SpecsFeedback(s)).next, depth')
  {
    hide FieldAt, SpecsAt;
    match kind {
      case Brace => depth' := depth + 2;
      case NoSpecs(_, j) =>
        depth' := depth;
        NoBraces(s, p + 1, j, depth + 1);
      case HasSpecs(_, j) =>
        NoBraces(s, p + 1, j, depth + 1);
        SpecsLead(s, j, depth + 1);
        depth' := if BRACE_TYPE in SpecsAt(s, j).calls then depth + 1 else depth;
    }
  }

  lemma NoErrorParts(a: seq<Event>, b: seq<Event>, c: seq<Event>)
    requires NoError(a + (b + c))
    ensures NoError(b) && NoError(c)
  {
    Within(a, b, c);
  }

  lemma RunStep(s: string, begin: nat, p: nat, fb: Feedback)
    requires begin <= p < |s| && s[p] == '{' && Moves(s, fb) && NoError(Run(s, begin, p, fb))
    ensures FieldAt(s, p, fb).ok && p < FieldAt(s, p, fb).next <= |s|
    ensures NoError(FieldAt(s, p, fb).events)
    ensures var field := FieldAt(s, p, fb);
            var rest := Run(s, field.next, field.next, fb);
            NoError(rest) && Run(s, begin, p, fb) == TextOf(begin, p) + (field.events + rest)
  {
    FieldMoves(s, p, fb);
    var field := FieldAt(s, p, fb);
    var rest := if field.ok then Run(s, field.next, field.next, fb) else [];
    NoErrorParts(TextOf(begin, p), field.events, rest);
    FieldErrs(s, p, fb);
    hide FieldAt, Moves, TextOf;
  }

  lemma FieldErrs(s: string, p: nat, fb: Feedback)
    requires p < |s|
    ensures !FieldAt(s, p, fb).ok ==> !NoError(FieldAt(s, p, fb).events)
  {
    hide ArgIdAt;
    var events := FieldAt(s, p, fb).events;
    assert !FieldAt(s, p, fb).ok ==> events[|events| - 1].Error? && events[|events| - 1] in events;
  }

  ghost predicate Parsable(s: string, begin: nat, p: nat) {
    && begin <= p <= |s| && Moves(s, SpecsFeedback(s)) && Moves(s, BraceFeedback(s))
    && NoError(Run(s, begin, p, SpecsFeedback(s)))
  }

  function Emitted(s: string, begin: nat, p: nat): nat
    requires Parsable(s, begin, p)
  {
    Count(Run(s, begin, p, SpecsFeedback(s)))
  }

  function Counted(s: string, begin: nat, p: nat): nat
    requires begin <= p <= |s| && Moves(s, BraceFeedback(s))
  {
    Count(Run(s, begin, p, BraceFeedback(s)))
  }

  /** The counts after a doubled closing brace. */
  lemma CloseCounts(s: string, begin: nat, p: nat)
    requires Parsable(s, begin, p) && p < |s| && s[p] == '}'
    ensures p + 1 < |s| && s[p + 1] == '}' && Parsable(s, p + 2, p + 2)
    ensures Emitted(s, begin, p) == 1 + Emitted(s, p + 2, p + 2)
    ensures Counted(s, begin, p) == 1 + Counted(s, p + 2, p + 2)
    ensures BraceTypeLast(s, Run(s, begin, p, SpecsFeedback(s)))
       <==> BraceTypeLast(s, Run(s, p + 2, p + 2, SpecsFeedback(s)))
  {
    var fb := SpecsFeedback(s);
    RunClose(s, begin, p, fb);
    RunClose(s, begin, p, BraceFeedback(s));
    hide Run, Moves, SpecsFeedback, BraceFeedback, TakesBrace;
    assert p + 1 < |s| && s[p + 1] == '}' by {
      assert Error(UNMATCHED) in [Error(UNMATCHED)];
    }
    var rest := Run(s, p + 2, p + 2, fb);
    CountText(begin, p + 1);
    CountConcat(TextOf(begin, p + 1), rest);
    CountConcat(TextOf(begin, p + 1), Run(s, p + 2, p + 2, BraceFeedback(s)));
    assert forall e :: e in rest ==> e in TextOf(begin, p + 1) + rest;
    assert forall e :: e in TextOf(begin, p + 1) ==> e.Text?;
  }

  /** The counts for a field. */
  lemma FieldCounts(s: string, begin: nat, p: nat)
    requires Parsable(s, begin, p) && p < |s| && s[p] == '{'
    ensures var field := FieldAt(s, p, SpecsFeedback(s));
            && field.ok && p < field.next <= |s| && Parsable(s, field.next, field.next) && NoError(field.events)
            && Emitted(s, begin, p) ==
               (if begin == p then 0 else 1) + Count(field.events) + Emitted(s, field.next, field.next)
            && (BraceTypeLast(s, Run(s, begin, p, SpecsFeedback(s))) <==>
                BraceTypeLast(s, field.events) &&
                BraceTypeLast(s, Run(s, field.next, field.next, SpecsFeedback(s))))
  {
    var fb := SpecsFeedback(s);
    RunStep(s, begin, p, fb);
    hide Run, Moves, SpecsFeedback, BraceFeedback, TakesBrace, FieldAt, NoError;
    var field := FieldAt(s, p, fb);
    var rest := Run(s, field.next, field.next, fb);
    CountText(begin, p);
    CountConcat(field.events, rest);
    CountConcat(TextOf(begin, p), field.events + rest);
    Within(TextOf(begin, p), field.events, rest);
    assert forall e :: e in TextOf(begin, p) ==> e.Text?;
    assert forall e :: e in TextOf(begin, p) + (field.events + rest) ==>
                         e in TextOf(begin, p) || e in field.events || e in rest;
  }

  lemma CountedField(s: string, begin: nat, p: nat)
    requires begin <= p < |s| && s[p] == '{' && Moves(s, BraceFeedback(s))
    ensures var field := FieldAt(s, p, BraceFeedback(s));
            && (field.ok ==> p < field.next <= |s|)
            && Counted(s, begin, p) == (if begin == p then 0 else 1) + Count(field.events)
                 + if field.ok then Counted(s, field.next, field.next) else 0
  {
    var fb := BraceFeedback(s);
    RunField(s, begin, p, fb);
    hide Run, Moves, BraceFeedback, FieldAt, Shown;
    var field := FieldAt(s, p, fb);
    var rest := if field.ok then Run(s, field.next, field.next, fb) else [];
    CountText(begin, p);
    CountConcat(field.events, rest);
    CountConcat(TextOf(begin, p), field.events + rest);
  }

  /** Half a brace behind, the counter never counts more. */
  lemma {:induction false} Shifted(s: string, q: nat)
    requires q < |s| && s[q] == '}' && Parsable(s, q + 1, q + 1)
    ensures Counted(s, q, q) <= Emitted(s, q + 1, q + 1)
    decreases |s| - q
  {
    hide Run, Moves, SpecsFeedback, BraceFeedback, NoError, Counted, Emitted, Count;
    CountedClose(s, q);
    if q + 1 < |s| && s[q + 1] == '}' {
      CloseCounts(s, q + 1, q + 1);
      Shifted(s, q + 2);
    }
  }

  lemma CountedClose(s: string, q: nat)
    requires q < |s| && s[q] == '}' && Moves(s, BraceFeedback(s))
    ensures Counted(s, q, q) == if q + 1 < |s| && s[q + 1] == '}' then 1 + Counted(s, q + 2, q + 2) else 0
  {
    RunClose(s, q, q, BraceFeedback(s));
    hide Run, Moves, BraceFeedback, Count;
    CountError(UNMATCHED);
    CountText(q, q + 1);
    if q + 1 < |s| {
      CountConcat(TextOf(q, q + 1), Run(s, q + 2, q + 2, BraceFeedback(s)));
    }
  }

  lemma CountError(message: string)
    ensures Count([Error(message)]) == 0
  {
    assert [Error(message)][1..] == [];
  }

  lemma BracesClose(s: string, p: nat, depth: nat)
    requires p + 1 < |s| && s[p] == '}' && s[p + 1] == '}'
    ensures BraceEnd(s, p, depth) ==
            if depth == 0 then p else if depth == 1 then p + 1 else BraceEnd(s, p + 2, depth - 2)
  {
  }

  lemma BracesSkip(s: string, p: nat, depth: nat)
    requires p <= |s| && BraceEnd(s, p, depth) < |s|
    ensures p < |s| && (s[p] != '{' && s[p] != '}' ==> BraceEnd(s, p, depth) == BraceEnd(s, p + 1, depth))
  {
  }

  /** Having gone on behind the field, the counter has missed at least one part by the time it finds
      an end. */
  lemma {:induction false} Overshoot(s: string, begin: nat, p: nat, depth: nat)
    requires Parsable(s, begin, p) && BraceEnd(s, p, depth) < |s|
    ensures Counted(s, BraceEnd(s, p, depth) + 1, BraceEnd(s, p, depth) + 1) < Emitted(s, begin, p)
    decreases |s| - p, 1
  {
    hide Moves, SpecsFeedback, BraceFeedback, NoError, FieldAt, Run, Emitted, Counted, BraceEnd, BraceTypeLast, IsKind;
    BracesSkip(s, p, depth);
    if s[p] == '{' {
      FieldCounts(s, begin, p);
      var kind := KindOf(s, p, SpecsFeedback(s));
      var depth' := FieldPassed(s, p, depth, kind);
      var next := FieldAt(s, p, SpecsFeedback(s)).next;
      Overshoot(s, next, next, depth');
    } else if s[p] == '}' {
      CloseCounts(s, begin, p);
      BracesClose(s, p, depth);
      if depth == 0 {
        Shifted(s, p + 1);
      } else if depth == 1 {
        AtMost(s, p + 2, p + 2);
      } else {
        Overshoot(s, p + 2, p + 2, depth - 2);
      }
    } else {
      SkipCounts(s, begin, p);
      Overshoot(s, begin, p + 1, depth);
    }
  }

  lemma SkipCounts(s: string, begin: nat, p: nat)
    requires Parsable(s, begin, p) && p < |s| && s[p] != '{' && s[p] != '}'
    ensures Parsable(s, begin, p + 1)
    ensures Run(s, begin, p, SpecsFeedback(s)) == Run(s, begin, p + 1, SpecsFeedback(s))
    ensures Emitted(s, begin, p) == Emitted(s, begin, p + 1) && Counted(s, begin, p) == Counted(s, begin, p + 1)
  {
    hide SpecsFeedback, BraceFeedback, Moves, NoError;
    RunSkip(s, begin, p, p + 1, SpecsFeedback(s));
    RunSkip(s, begin, p, p + 1, BraceFeedback(s));
  }

  /** The counter never counts more parts than the compiler emits, and as many exactly when no field
      has the type '{' but at the very end. */
  lemma {:induction false} AtMost(s: string, begin: nat, p: nat)
    requires Parsable(s, begin, p)
    ensures Counted(s, begin, p) <= Emitted(s, begin, p)
    ensures Counted(s, begin, p) == Emitted(s, begin, p)
       <==> BraceTypeLast(s, Run(s, begin, p, SpecsFeedback(s)))
    decreases |s| - p, 1
  {
    hide Moves, SpecsFeedback, BraceFeedback, NoError, FieldAt, Run, Emitted, Counted, BraceTypeLast;
    if p == |s| {
      EndCounts(s, begin);
    } else if s[p] == '{' {
      FieldAtMost(s, begin, p);
    } else if s[p] == '}' {
      CloseCounts(s, begin, p);
      AtMost(s, p + 2, p + 2);
    } else {
      SkipCounts(s, begin, p);
      AtMost(s, begin, p + 1);
    }
  }

  lemma EndCounts(s: string, begin: nat)
    requires Parsable(s, begin, |s|)
    ensures Counted(s, begin, |s|) == Emitted(s, begin, |s|)
    ensures BraceTypeLast(s, Run(s, begin, |s|, SpecsFeedback(s)))
  {
    hide TakesBrace, SpecsFeedback, BraceFeedback, Moves;
  }

  lemma NothingEmitted(s: string)
    requires Parsable(s, |s|, |s|)
    ensures Emitted(s, |s|, |s|) == 0
  {
  }

  /** Whatever is left of the string gives at least one part. */
  lemma {:induction false} SomethingEmitted(s: string, begin: nat, p: nat)
    requires Parsable(s, begin, p) && begin < |s|
    ensures Emitted(s, begin, p) >= 1
    decreases |s| - p
  {
    hide Moves, SpecsFeedback, BraceFeedback, NoError, FieldAt, TakesBrace;
    if p == |s| {
      CountText(begin, p);
    } else if s[p] == '{' {
      FieldCounts(s, begin, p);
      var kind := KindOf(s, p, SpecsFeedback(s));
      CountText(p + 1, p + 2);
    } else if s[p] == '}' {
      CloseCounts(s, begin, p);
    } else {
      SomethingEmitted(s, begin, p + 1);
    }
  }

  lemma {:induction false} EndsAtBrace(s: string, i: nat, depth: nat)
    requires i <= |s|
    ensures BraceEnd(s, i, depth) < |s| ==> s[BraceEnd(s, i, depth)] == '}'
    decreases |s| - i
  {
    if i < |s| {
      EndsAtBrace(s, i + 1, depth + 1);
      EndsAtBrace(s, i + 1, depth);
      if depth > 0 {
        EndsAtBrace(s, i + 1, depth - 1);
      }
    }
  }

  /** Fields differ only in where their specifiers are said to end. */
  lemma OtherEnd(s: string, p: nat, fb: Feedback, other: Feedback, arg: ArgId, j: nat)
    requires p < |s| && FieldAt(s, p, fb).ok && FieldAt(s, p, fb).events == [OnArg(arg), Specs(j)] && other(j).End?
    ensures var at := other(j).at;
            FieldAt(s, p, other) ==
            if at < |s| && s[at] == '}' then FieldParse([OnArg(arg), Specs(j)], at + 1, true)
            else FieldParse([OnArg(arg), Specs(j)] + [Error("unknown format specifier")], |s|, false)
  {
    hide ArgIdAt;
    assert FieldAt(s, p, fb).events[0] == OnArg(arg) && FieldAt(s, p, fb).events[1] == Specs(j);
  }

  lemma CountField(arg: ArgId, j: nat)
    ensures Count([OnArg(arg), Specs(j)]) == 1
    ensures Count([OnArg(arg), Specs(j)] + [Error("unknown format specifier")]) == 1
  {
    var e := Error("unknown format specifier");
    assert [OnArg(arg), Specs(j)][1..] == [Specs(j)] && [Specs(j)][1..] == [];
    assert Count([Specs(j)]) == 0;
    CountError(e.message);
    CountConcat([OnArg(arg), Specs(j)], [e]);
  }

  /** A field with the type '{'. */
  lemma BraceKind(s: string, p: nat) returns (kind: Kind)
    requires p < |s| && s[p] == '{' && Moves(s, SpecsFeedback(s)) && FieldAt(s, p, SpecsFeedback(s)).ok
    requires !NoBraceType(s, FieldAt(s, p, SpecsFeedback(s)).events)
    ensures kind.HasSpecs? && IsKind(s, p, SpecsFeedback(s), FieldAt(s, p, SpecsFeedback(s)), kind)
    ensures kind.j <= |s| && TakesBrace(s, kind.j)
  {
    hide SpecsFeedback, FieldAt, TakesBrace, Moves;
    kind := KindOf(s, p, SpecsFeedback(s));
    assert forall e :: e in TextOf(p + 1, p + 2) ==> e.Text?;
  }

  lemma BracePlace(s: string, p: nat) returns (arg: ArgId, j: nat)
    requires p < |s| && s[p] == '{' && Moves(s, SpecsFeedback(s)) && FieldAt(s, p, SpecsFeedback(s)).ok
    requires !NoBraceType(s, FieldAt(s, p, SpecsFeedback(s)).events)
    ensures FieldAt(s, p, SpecsFeedback(s)).events == [OnArg(arg), Specs(j)] && j <= |s| && TakesBrace(s, j)
    ensures SpecsFeedback(s)(j).End? && FieldAt(s, p, SpecsFeedback(s)).next == SpecsFeedback(s)(j).at + 1
  {
    hide TakesBrace, SpecsFeedback, FieldAt, Moves, Plain;
    var kind := BraceKind(s, p);
    arg, j := kind.arg, kind.j;
  }

  /** Behind a field with the type '{' the counter goes on to the next end that it finds, if any. */
  lemma BraceField(s: string, p: nat)
    requires p < |s| && s[p] == '{' && Moves(s, SpecsFeedback(s)) && FieldAt(s, p, SpecsFeedback(s)).ok
    requires !NoBraceType(s, FieldAt(s, p, SpecsFeedback(s)).events)
    ensures var field, counted := FieldAt(s, p, SpecsFeedback(s)), FieldAt(s, p, BraceFeedback(s));
            && field.next <= |s| && Count(field.events) == 1 && Count(counted.events) == 1
            && (counted.ok <==> BraceEnd(s, field.next, 0) < |s|)
            && (counted.ok ==> counted.next == BraceEnd(s, field.next, 0) + 1)
            && (BraceTypeLast(s, field.events) <==> field.next == |s|)
  {
    hide *;
    var arg, j := BracePlace(s, p);
    BraceEnds(s, j);
    OtherEnd(s, p, SpecsFeedback(s), BraceFeedback(s), arg, j);
    CountField(arg, j);
    LastField(s, arg, j);
  }

  /** Behind the type '{' of specifiers that end well, the counter is one brace too deep. */
  lemma BraceEnds(s: string, j: nat)
    requires j <= |s| && TakesBrace(s, j) && SpecsFeedback(s)(j).End?
    ensures SpecsFeedback(s)(j) == End(SpecsAt(s, j).end) && SpecsAt(s, j).end < |s|
    ensures BraceFeedback(s)(j) == End(BraceEnd(s, SpecsAt(s, j).end + 1, 0))
    ensures var m := BraceEnd(s, SpecsAt(s, j).end + 1, 0); m < |s| ==> s[m] == '}'
  {
    hide SpecsAt;
    SpecsLead(s, j, 0);
    EndsAtBrace(s, SpecsAt(s, j).end + 1, 0);
  }

  lemma LastField(s: string, arg: ArgId, j: nat)
    requires TakesBrace(s, j)
    ensures BraceTypeLast(s, [OnArg(arg), Specs(j)]) <==> SpecsAt(s, j).end + 1 == |s|
  {
    hide SpecsAt;
    var events := [OnArg(arg), Specs(j)];
    assert events[1] == Specs(j) && events[1] in events;
  }

  lemma {:induction false} FieldAtMost(s: string, begin: nat, p: nat)
    requires Parsable(s, begin, p) && p < |s| && s[p] == '{'
    ensures Counted(s, begin, p) <= Emitted(s, begin, p)
    ensures Counted(s, begin, p) == Emitted(s, begin, p)
       <==> BraceTypeLast(s, Run(s, begin, p, SpecsFeedback(s)))
    decreases |s| - p, 0
  {
    hide Moves, SpecsFeedback, BraceFeedback, FieldAt, Run, Emitted, Counted, BraceTypeLast, TakesBrace, NoBraceType;
    FieldCounts(s, begin, p);
    CountedField(s, begin, p);
    var next := FieldAt(s, p, SpecsFeedback(s)).next;
    if NoBraceType(s, FieldAt(s, p, SpecsFeedback(s)).events) {
      FieldSame(s, p);
      NoBraceLast(s, FieldAt(s, p, SpecsFeedback(s)).events);
      AtMost(s, next, next);
    } else {
      BraceField(s, p);
      if BraceEnd(s, next, 0) < |s| {
        BracesSkip(s, next, 0);
        Overshoot(s, next, next, 0);
      } else if next < |s| {
        SomethingEmitted(s, next, next);
      } else {
        EndCounts(s, next);
        NothingEmitted(s);
      }
    }
  }

  lemma NoBraceLast(s: string, events: seq<Event>)
    requires NoBraceType(s, events)
    ensures BraceTypeLast(s, events)
  {
    hide TakesBrace;
  }

  // Whole strings

  /** The count is never too high, and is the number of parts if and only if no field has the type '{'
      but at the very end of the string. */
  lemma CountIsExact(s: string)
    requires Compiled(s).Some?
    ensures Count(BraceTrace(s)) <= |Compiled(s).value|
    ensures Count(BraceTrace(s)) == |Compiled(s).value| <==> BraceTypeLast(s, Trace(s))
  {
    SpecsMove(s);
    BracesMove(s);
    hide Moves, BraceTypeLast, NoError;
    RunPaired(s, 0, 0, SpecsFeedback(s));
    CompiledNoError(s, Trace(s), COMPILER_START);
    AtMost(s, 0, 0);
    hide Run, SpecsFeedback, BraceFeedback;
    CountIsEmitted(s, Trace(s), COMPILER_START);
  }

  /** Compiling at compile time, into an array of as many parts as were counted, at least one: no
      part is stored outside, and none of it is left over but the empty text for an empty string. */
  method CompileToParts(s: string, n: nat) returns (data: array<Part>)
    requires Compiled(s).Some? && BraceTypeLast(s, Trace(s))
    requires var count := Count(BraceTrace(s)); n == if count < 1 then 1 else count
    ensures data[..] == if Compiled(s).value == [] then [TextPart("")] else Compiled(s).value
  {
    hide BraceTypeLast, Count, BraceTrace;
    CountIsExact(s);
    SpecsMove(s);
    var events := ParseFormatString(s, SpecsFeedback(s));
    CompileShown(s, events, COMPILER_START);
    ghost var final := CompileRun(s, events, COMPILER_START).value;
    assert final.parts == Compiled(s).value;
    hide Trace, Compiled, Shown, Run, SpecsFeedback, CompileStep;
    data := new Part[n](_ => ArgPart(ByIndex(0)));
    var compiler := new StringCompiler();
    var counter, i := 0, 0;
    while i < |events|
      invariant 0 <= i <= |events| && fresh(compiler) && fresh(data)
      invariant CompileRun(s, events[i..], compiler.State()) == Some(final)
      invariant counter == |compiler.emitted| <= n == data.Length && data[..counter] == compiler.emitted
    {
      assert events[i..][1..] == events[i + 1..];
      var ok, part := compiler.Handle(s, events[i]);
      PartsGrow(s, events[i + 1..], compiler.State());
      if part.Some? {
        data[counter] := part.value;
        counter := counter + 1;
      }
      i := i + 1;
    }
    if counter < n {
      data[counter] := TextPart("");
    }
  }
}
