/** Parsing of format strings: what `parse_format_string` tells its handler, and that both of its
    strategies tell the same. A handler's only influence on the parse is the position that
    `on_format_specs` returns, so it stands here for the whole handler. */
module FormatString {
  import opened Decimals
  import opened DecimalText
  import opened Joining

  datatype ArgId = Auto | Index(id: nat) | Name(name: string) | BadArg(message: string)

  datatype Event =
    | Text(begin: nat, end: nat)
    | OnArg(arg: ArgId)
    | Field(at: nat)
    | Specs(at: nat)
    | Error(message: string)

  /** What `on_format_specs` does with the specifiers at a position: it returns where they end,
      or reports an error and does not return. */
  datatype SpecsEnd = End(at: nat) | Fail(message: string)

  type Feedback = nat -> SpecsEnd

  /** The returned position lies between the first specifier and the end of the string. */
  ghost predicate Moves(s: string, fb: Feedback) {
    forall i: nat :: i <= |s| && fb(i).End? ==> i <= fb(i).at <= |s|
  }

  predicate IsNameStart(c: char) {
    'a' <= c <= 'z' || 'A' <= c <= 'Z' || c == '_'
  }

  /** Where the name that goes on at position `i` ends. */
  function NameEnd(s: string, i: nat): (end: nat)
    requires i <= |s|
    ensures i <= end <= |s|
    decreases |s| - i
  {
    if i < |s| && (IsNameStart(s[i]) || IsDigit(s[i])) then NameEnd(s, i + 1) else i
  }

  datatype ArgParse = ArgParse(arg: ArgId, next: nat)

  function ArgIdAt(s: string, i: nat): (r: ArgParse)
    requires i < |s|
    ensures i <= r.next <= |s|
  {
    if s[i] == '}' || s[i] == ':' then ArgParse(Auto, i)
    else if IsDigit(s[i]) then
      var parsed := if s[i] != '0' then ParseInt(s, i) else Int(0, i + 1);
      if parsed.TooBig? then ArgParse(BadArg("number is too big"), i)
      else if parsed.end == |s| || (s[parsed.end] != '}' && s[parsed.end] != ':') then
        ArgParse(BadArg("invalid format string"), parsed.end)
      else ArgParse(Index(parsed.value), parsed.end)
    else if !IsNameStart(s[i]) then ArgParse(BadArg("invalid format string"), i)
    else var end := NameEnd(s, i + 1); ArgParse(Name(s[i..end]), end)
  }

  /** fmt's `parse_arg_id`. */
  method ParseArgId(s: string, begin: nat) returns (r: ArgParse)
    requires begin < |s|
    ensures r == ArgIdAt(s, begin)
  {
    var c := s[begin];
    if c == '}' || c == ':' {
      return ArgParse(Auto, begin);
    }
    if IsDigit(c) {
      var index, i := 0, begin;
      if c != '0' {
        var parsed := ParseNonnegativeInt(s, begin);
        if parsed.TooBig? {
          return ArgParse(BadArg("number is too big"), begin);
        }
        index, i := parsed.value, parsed.end;
      } else {
        i := i + 1;
      }
      if i == |s| || (s[i] != '}' && s[i] != ':') {
        return ArgParse(BadArg("invalid format string"), i);
      }
      return ArgParse(Index(index), i);
    }
    if !IsNameStart(c) {
      return ArgParse(BadArg("invalid format string"), begin);
    }
    var it := begin + 1;
    while it != |s| && (IsNameStart(s[it]) || IsDigit(s[it]))
      invariant begin < it <= |s| && NameEnd(s, it) == NameEnd(s, begin + 1)
      decreases |s| - it
    {
      it := it + 1;
    }
    return ArgParse(Name(s[begin..it]), it);
  }

  /** The calls made for one replacement field, and where the parse goes on unless it stops. */
  datatype FieldParse = FieldParse(events: seq<Event>, next: nat, ok: bool)

  function FieldAt(s: string, i: nat, fb: Feedback): (r: FieldParse)
    requires i < |s|
    ensures forall e :: e in r.events ==> !(e.Text? && e.begin == e.end)
  {
    var begin := i + 1;
    if begin == |s| then FieldParse([Error("invalid format string")], |s|, false)
    else if s[begin] == '}' then FieldParse([OnArg(Auto), Field(begin)], begin + 1, true)
    else if s[begin] == '{' then FieldParse(TextOf(begin, begin + 1), begin + 1, true)
    else
      var parsed := ArgIdAt(s, begin);
      if parsed.arg.BadArg? then FieldParse([Error(parsed.arg.message)], |s|, false)
      else
        var j := parsed.next;
        if j < |s| && s[j] == '}' then FieldParse([OnArg(parsed.arg), Field(j)], j + 1, true)
        else if j < |s| && s[j] == ':' then
          var head := [OnArg(parsed.arg), Specs(j + 1)];
          match fb(j + 1)
          case Fail(message) => FieldParse(head + [Error(message)], |s|, false)
          case End(k) =>
            if k >= |s| || s[k] != '}' then
              FieldParse(head + [Error("unknown format specifier")], |s|, false)
            else FieldParse(head, k + 1, true)
        else FieldParse([OnArg(parsed.arg), Error("missing '}' in format string")], |s|, false)
  }

  lemma FieldMoves(s: string, i: nat, fb: Feedback)
    requires i < |s| && Moves(s, fb)
    ensures FieldAt(s, i, fb).ok ==> i < FieldAt(s, i, fb).next <= |s|
  {
  }

  /** fmt's `parse_replacement_field`. */
  method ParseReplacementField(s: string, at: nat, fb: Feedback)
    returns (events: seq<Event>, next: nat, ok: bool)
    requires at < |s|
    ensures FieldParse(events, next, ok) == FieldAt(s, at, fb)
  {
    events, next, ok := [], |s|, false;
    var begin := at + 1;
    if begin == |s| {
      return [Error("invalid format string")], |s|, false;
    }
    if s[begin] == '}' {
      events := events + [OnArg(Auto)];
      events := events + [Field(begin)];
    } else if s[begin] == '{' {
      events := events + [Text(begin, begin + 1)];
    } else {
      var parsed := ParseArgId(s, begin);
      if parsed.arg.BadArg? {
        return [Error(parsed.arg.message)], |s|, false;
      }
      events := events + [OnArg(parsed.arg)];
      begin := parsed.next;
      if begin != |s| && s[begin] == '}' {
        events := events + [Field(begin)];
      } else if begin != |s| && s[begin] == ':' {
        events := events + [Specs(begin + 1)];
        var end := fb(begin + 1);
        if end.Fail? {
          return events + [Error(end.message)], |s|, false;
        }
        begin := end.at;
        if begin >= |s| || s[begin] != '}' {
          return events + [Error("unknown format specifier")], |s|, false;
        }
      } else {
        return events + [Error("missing '}' in format string")], |s|, false;
      }
    }
    return events, begin + 1, true;
  }

  /** A call of `on_text`, unless the text is empty: every handler ignores empty text. */
  function TextOf(begin: nat, end: nat): seq<Event> {
    if begin == end then [] else [Text(begin, end)]
  }

  /** The calls of a handler without those for empty text. */
  function Shown(events: seq<Event>): seq<Event> {
    if events == [] then []
    else
      var e := events[|events| - 1];
      Shown(events[..|events| - 1]) + if e.Text? && e.begin == e.end then [] else [e]
  }

  lemma {:induction false} ShownConcat(a: seq<Event>, b: seq<Event>)
    ensures Shown(a + b) == Shown(a) + Shown(b)
  {
    if b == [] {
      assert a + b == a;
    } else {
      var n := |b| - 1;
      ShownConcat(a, b[..n]);
      assert (a + b)[..|a| + n] == a + b[..n];
    }
  }

  lemma ShownOne(a: seq<Event>, begin: nat, end: nat)
    ensures Shown(a + [Text(begin, end)]) == Shown(a) + TextOf(begin, end)
  {
    assert (a + [Text(begin, end)])[..|a|] == a;
  }

  lemma {:induction false} ShownAll(a: seq<Event>)
    requires forall e :: e in a ==> !(e.Text? && e.begin == e.end)
    ensures Shown(a) == a
  {
    if a == [] {
    } else {
      ShownAll(a[..|a| - 1]);
      assert a[..|a| - 1] + [a[|a| - 1]] == a;
    }
  }

  const UNMATCHED: string := "unmatched '}' in format string"

  /** The calls for the rest of the string: text has been pending since `begin`, and position `p`
      is next. One pass, character by character. */
  function Run(s: string, begin: nat, p: nat, fb: Feedback): seq<Event>
    requires begin <= p <= |s| && Moves(s, fb)
    decreases |s| - p
  {
    if p == |s| then TextOf(begin, p)
    else if s[p] == '{' then
      FieldMoves(s, p, fb);
      var field := FieldAt(s, p, fb);
      TextOf(begin, p) + (field.events + if field.ok then Run(s, field.next, field.next, fb) else [])
    else if s[p] == '}' then
      if p + 1 == |s| || s[p + 1] != '}' then [Error(UNMATCHED)]
      else TextOf(begin, p + 1) + Run(s, p + 2, p + 2, fb)
    else Run(s, begin, p + 1, fb)
  }

  /** What has been told and what is still to be told make up all that is to be told. */
  ghost predicate Track(events: seq<Event>, rest: seq<Event>, total: seq<Event>) {
    Shown(events) + rest == total
  }

  lemma TrackText(events: seq<Event>, begin: nat, end: nat, rest: seq<Event>, total: seq<Event>)
    requires Track(events, TextOf(begin, end) + rest, total)
    ensures Track(events + [Text(begin, end)], rest, total)
  {
    ShownOne(events, begin, end);
    assert (Shown(events) + TextOf(begin, end)) + rest == Shown(events) + (TextOf(begin, end) + rest);
  }

  lemma TrackMore(events: seq<Event>, more: seq<Event>, rest: seq<Event>, total: seq<Event>)
    requires Track(events, Shown(more) + rest, total)
    ensures Track(events + more, rest, total)
  {
    ShownConcat(events, more);
    assert (Shown(events) + Shown(more)) + rest == Shown(events) + (Shown(more) + rest);
  }

  lemma TrackError(events: seq<Event>, message: string, total: seq<Event>)
    requires Track(events, [Error(message)], total)
    ensures Shown(events + [Error(message)]) == total
  {
    assert (events + [Error(message)])[..|events|] == events;
  }

  lemma TrackEnd(events: seq<Event>, total: seq<Event>)
    ensures Track(events, [], total) <==> Shown(events) == total
  {
    assert Shown(events) + [] == Shown(events);
  }

  lemma TrackStart(total: seq<Event>)
    ensures Track([], total, total)
  {
    assert [] + total == total;
  }

  // One step of `Run` at a time.

  lemma RunEnd(s: string, begin: nat, fb: Feedback)
    requires begin <= |s| && Moves(s, fb)
    ensures Run(s, begin, |s|, fb) == TextOf(begin, |s|) + []
  {
  }

  lemma RunField(s: string, begin: nat, p: nat, fb: Feedback)
    requires begin <= p < |s| && s[p] == '{' && Moves(s, fb)
    ensures var field := FieldAt(s, p, fb);
            && (field.ok ==> p < field.next <= |s|)
            && Shown(field.events) == field.events
            && Run(s, begin, p, fb) == TextOf(begin, p) +
                 (Shown(field.events) + if field.ok then Run(s, field.next, field.next, fb) else [])
  {
    FieldMoves(s, p, fb);
    ShownAll(FieldAt(s, p, fb).events);
    hide FieldAt, Moves, TextOf, Shown;
  }

  lemma RunClose(s: string, begin: nat, p: nat, fb: Feedback)
    requires begin <= p < |s| && s[p] == '}' && Moves(s, fb)
    ensures Run(s, begin, p, fb) == if p + 1 == |s| || s[p + 1] != '}' then [Error(UNMATCHED)]
                                    else TextOf(begin, p + 1) + Run(s, p + 2, p + 2, fb)
  {
  }

  /** Text without any brace just stays pending. */
  lemma {:induction false} RunSkip(s: string, begin: nat, p: nat, q: nat, fb: Feedback)
    requires begin <= p <= q <= |s| && Moves(s, fb)
    requires forall k :: p <= k < q ==> s[k] != '{' && s[k] != '}'
    ensures Run(s, begin, p, fb) == Run(s, begin, q, fb)
    decreases q - p
  {
    if p < q {
      RunSkip(s, begin, p + 1, q, fb);
    }
  }

  /** Pending text is passed on when the end or an opening brace comes. */
  lemma RunPending(s: string, begin: nat, end: nat, fb: Feedback)
    requires begin <= end <= |s| && Moves(s, fb) && (end == |s| || s[end] == '{')
    ensures Run(s, begin, end, fb) == TextOf(begin, end) + Run(s, end, end, fb)
  {
    if end < |s| {
      RunField(s, begin, end, fb);
      RunField(s, end, end, fb);
      hide Run, FieldAt, Moves, Shown;
      var field := FieldAt(s, end, fb);
      EmptyJoined(Shown(field.events) + if field.ok then Run(s, field.next, field.next, fb) else []);
    } else {
      RunEnd(s, begin, fb);
      RunEnd(s, end, fb);
    }
  }

  /** Short strings: one simple loop. */
  method ParseShort(s: string, fb: Feedback) returns (events: seq<Event>)
    requires Moves(s, fb)
    ensures Shown(events) == Run(s, 0, 0, fb)
  {
    hide Shown, FieldAt, Moves, Run, Track;
    events := [];
    var begin: nat, p: nat := 0, 0;
    ghost var total := Run(s, 0, 0, fb);
    TrackStart(total);
    while p != |s|
      invariant 0 <= begin <= p <= |s| && Track(events, Run(s, begin, p, fb), total)
      decreases |s| - p
    {
      var c := s[p];
      p := p + 1;
      if c == '{' {
        RunField(s, begin, p - 1, fb);
        var called, next, ok := ParseReplacementField(s, p - 1, fb);
        ghost var rest := if ok then Run(s, next, next, fb) else [];
        TrackText(events, begin, p - 1, Shown(called) + rest, total);
        events := events + [Text(begin, p - 1)];
        TrackMore(events, called, rest, total);
        events := events + called;
        if !ok {
          TrackEnd(events, total);
          return;
        }
        begin, p := next, next;
      } else if c == '}' {
        RunClose(s, begin, p - 1, fb);
        if p == |s| || s[p] != '}' {
          TrackError(events, UNMATCHED, total);
          events := events + [Error(UNMATCHED)];
          TrackEnd(events, total);
          return;
        }
        TrackText(events, begin, p, Run(s, p + 1, p + 1, fb), total);
        events := events + [Text(begin, p)];
        p := p + 1;
        begin := p;
      } else {
        RunSkip(s, begin, p - 1, p, fb);
      }
    }
    RunEnd(s, begin, fb);
    TrackText(events, begin, p, [], total);
    events := events + [Text(begin, p)];
    TrackEnd(events, total);
  }

  /** fmt's `find`: the first occurrence of `value` from `first` before `last`. */
  method Find(s: string, first: nat, last: nat, value: char) returns (found: bool, out: nat)
    requires first <= last <= |s|
    ensures first <= out <= last && (found <==> out < last)
    ensures found ==> s[out] == value
    ensures forall k :: first <= k < out ==> s[k] != value
  {
    out := first;
    while out != last
      invariant first <= out <= last && forall k :: first <= k < out ==> s[k] != value
      decreases last - out
    {
      if s[out] == value {
        return true, out;
      }
      out := out + 1;
    }
    found := false;
  }

  /** The calls for the part of the string from `start` that has no opening brace before `end`. */
  method WriteSegment(s: string, start: nat, end: nat, fb: Feedback) returns (events: seq<Event>, ok: bool)
    requires start <= end <= |s| && Moves(s, fb)
    requires end == |s| || s[end] == '{'
    requires forall k :: start <= k < end ==> s[k] != '{'
    ensures Track(events, if ok then Run(s, end, end, fb) else [], Run(s, start, start, fb))
  {
    hide Shown, FieldAt, Moves, Run, Track;
    events, ok := [], true;
    var begin: nat := start;
    ghost var total := Run(s, start, start, fb);
    TrackStart(total);
    if begin == end {
      return;
    }
    while true
      invariant start <= begin <= end && Track(events, Run(s, begin, begin, fb), total)
      decreases end - begin
    {
      var found, p := Find(s, begin, end, '}');
      RunSkip(s, begin, begin, p, fb);
      if !found {
        RunPending(s, begin, end, fb);
        TrackText(events, begin, end, Run(s, end, end, fb), total);
        events := events + [Text(begin, end)];
        return;
      }
      RunClose(s, begin, p, fb);
      p := p + 1;
      if p == end || s[p] != '}' {
        TrackError(events, UNMATCHED, total);
        events := events + [Error(UNMATCHED)];
        TrackEnd(events, total);
        ok := false;
        return;
      }
      TrackText(events, begin, p, Run(s, p + 1, p + 1, fb), total);
      events := events + [Text(begin, p)];
      begin := p + 1;
    }
  }

  lemma TrackSegment(events: seq<Event>, text: seq<Event>, rest: seq<Event>, here: seq<Event>, total: seq<Event>)
    requires Track(events, here, total) && Track(text, rest, here)
    ensures Track(events + text, rest, total)
  {
    TrackMore(events, text, rest, total);
  }

  /** Long strings: search for an opening brace, then for closing braces before it. */
  method ParseLong(s: string, fb: Feedback) returns (events: seq<Event>)
    requires Moves(s, fb)
    ensures Shown(events) == Run(s, 0, 0, fb)
  {
    events := [];
    var begin: nat := 0;
    ghost var total := Run(s, 0, 0, fb);
    TrackStart(total);
    while begin != |s|
      invariant begin <= |s| && Track(events, Run(s, begin, begin, fb), total)
      decreases |s| - begin
    {
      hide Shown, FieldAt, Moves, Run, Track;
      var p := begin;
      if s[begin] != '{' {
        var found;
        found, p := Find(s, begin + 1, |s|, '{');
        if !found {
          var text, ok := WriteSegment(s, begin, |s|, fb);
          RunEnd(s, |s|, fb);
          TrackSegment(events, text, [], Run(s, begin, begin, fb), total);
          events := events + text;
          TrackEnd(events, total);
          return;
        }
      }
      var text, ok := WriteSegment(s, begin, p, fb);
      ghost var rest := if ok then Run(s, p, p, fb) else [];
      TrackSegment(events, text, rest, Run(s, begin, begin, fb), total);
      events := events + text;
      if !ok {
        TrackEnd(events, total);
        return;
      }
      RunField(s, p, p, fb);
      var called, next;
      called, next, ok := ParseReplacementField(s, p, fb);
      rest := if ok then Run(s, next, next, fb) else [];
      EmptyJoined(Shown(called) + rest);
      TrackMore(events, called, rest, total);
      events := events + called;
      if !ok {
        TrackEnd(events, total);
        return;
      }
      begin := next;
    }
    RunEnd(s, begin, fb);
    TrackEnd(events, total);
  }

  /** fmt's `parse_format_string`: whichever strategy it takes, the handler sees the same calls, up
      to empty text, with the same error at the same point. */
  method ParseFormatString(s: string, fb: Feedback) returns (events: seq<Event>)
    requires Moves(s, fb)
    ensures Shown(events) == Run(s, 0, 0, fb)
  {
    if |s| < 32 {
      events := ParseShort(s, fb);
    } else {
      events := ParseLong(s, fb);
    }
  }
}
