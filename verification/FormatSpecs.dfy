/** fmt's standard format specifiers: the calls that `parse_format_specs` makes, in order. */
module FormatSpecs {
  import opened Decimals
  import opened DecimalText
  import opened FormatString

  datatype AlignKind = NoAlign | Left | Right | Center | Numeric
  datatype SignKind = NoSign | Plus | Minus | Space

  datatype SpecCall =
    | Fill(text: string)
    | Align(align: AlignKind)
    | Sign(sign: SignKind)
    | Hash
    | Zero
    | Width(width: nat)
    | DynamicWidth(widthArg: ArgId)
    | Precision(precision: nat)
    | DynamicPrecision(precisionArg: ArgId)
    | EndPrecision
    | Type(c: char)

  /** The calls made and the position reached, or the error that ends the parse. */
  datatype SpecsParse = Parsed(calls: seq<SpecCall>, end: nat) | Failed(message: string)

  function Prepend(head: seq<SpecCall>, r: SpecsParse): SpecsParse {
    match r
    case Parsed(calls, end) => Parsed(head + calls, end)
    case Failed(_) => r
  }

  // The calls come in a fixed order, each kind at most once.

  function Rank(e: SpecCall): nat {
    match e
    case Fill(_) => 1
    case Align(_) => 2
    case Sign(_) => 3
    case Hash => 4
    case Zero => 5
    case Width(_) => 6
    case DynamicWidth(_) => 6
    case Precision(_) => 7
    case DynamicPrecision(_) => 7
    case EndPrecision => 8
    case Type(_) => 9
  }

  /** In order, all above rank `k`, and each precision followed by its end, which comes nowhere else. */
  predicate InOrder(calls: seq<SpecCall>, k: nat) {
    calls == [] ||
    (k < Rank(calls[0]) && InOrder(calls[1..], Rank(calls[0])) &&
     (Rank(calls[0]) == 7 ==> |calls| > 1 && calls[1] == EndPrecision) &&
     (Rank(calls[0]) == 8 ==> k == 7))
  }

  predicate Good(r: SpecsParse, s: string, i: nat, k: nat) {
    r.Parsed? ==> i <= r.end <= |s| && InOrder(r.calls, k)
  }

  lemma {:induction false} InOrderWeaken(calls: seq<SpecCall>, j: nat, k: nat)
    requires InOrder(calls, k) && j <= k && k != 7
    ensures InOrder(calls, j)
  {
  }

  /** The end of the code point at position `i`: bytes of the form 10xxxxxx go with the one before. */
  function NextCodePoint(s: string, i: nat): (end: nat)
    requires i < |s|
    ensures i < end <= |s|
  {
    if s[i] as int / 128 % 2 == 0 then i + 1 else ContinuationEnd(s, i + 1)
  }

  function ContinuationEnd(s: string, i: nat): (end: nat)
    requires i <= |s|
    ensures i <= end <= |s|
    decreases |s| - i
  {
    if i < |s| && s[i] as int / 64 % 4 == 2 then ContinuationEnd(s, i + 1) else i
  }

  function AlignOf(c: char): AlignKind {
    if c == '<' then Left else if c == '>' then Right else if c == '^' then Center else NoAlign
  }

  function AlignAt(s: string, i: nat): (r: SpecsParse)
    requires i < |s|
    ensures r.Parsed? ==> i <= r.end <= |s|
    ensures r.Parsed? ==> r.calls == [] || (|r.calls| == 1 && r.calls[0].Align?)
                          || (|r.calls| == 2 && r.calls[0].Fill? && r.calls[1].Align?)
  {
    var next := NextCodePoint(s, i);
    var p := if next == |s| then i else next;
    if p != i && AlignOf(s[p]) != NoAlign then
      if s[i] == '{' then Failed("invalid fill character '{'")
      else Parsed([Fill(s[i..p]), Align(AlignOf(s[p]))], p + 1)
    else if AlignOf(s[i]) != NoAlign then Parsed([Align(AlignOf(s[i]))], i + 1)
    else Parsed([], i)
  }

  function SignOf(c: char): SignKind {
    if c == '+' then Plus else if c == '-' then Minus else if c == ' ' then Space else NoSign
  }

  /** A width or precision in braces. */
  function DynamicAt(s: string, i: nat): (r: ArgParse)
    requires i < |s| && s[i] == '{'
    ensures !r.arg.BadArg? ==> i < r.next <= |s|
  {
    if i + 1 == |s| then ArgParse(BadArg("invalid format string"), i + 1)
    else
      var parsed := ArgIdAt(s, i + 1);
      if parsed.arg.BadArg? then parsed
      else if parsed.next == |s| || s[parsed.next] != '}' then
        ArgParse(BadArg("invalid format string"), parsed.next)
      else ArgParse(parsed.arg, parsed.next + 1)
  }

  function WidthAt(s: string, i: nat): (r: SpecsParse)
    requires i < |s|
    ensures r.Parsed? ==> i <= r.end <= |s|
    ensures r.Parsed? ==> r.calls == [] || (|r.calls| == 1 && (r.calls[0].Width? || r.calls[0].DynamicWidth?))
  {
    if IsDigit(s[i]) then
      var n := ParseInt(s, i);
      if n.TooBig? then Failed("number is too big") else Parsed([Width(n.value)], n.end)
    else if s[i] == '{' then
      var arg := DynamicAt(s, i);
      if arg.arg.BadArg? then Failed(arg.arg.message) else Parsed([DynamicWidth(arg.arg)], arg.next)
    else Parsed([], i)
  }

  function PrecisionAt(s: string, i: nat): (r: SpecsParse)
    requires i < |s|
    ensures r.Parsed? ==> i <= r.end <= |s|
    ensures r.Parsed? ==> |r.calls| == 2 && r.calls[1] == EndPrecision
                          && (r.calls[0].Precision? || r.calls[0].DynamicPrecision?)
  {
    if i + 1 < |s| && IsDigit(s[i + 1]) then
      var n := ParseInt(s, i + 1);
      if n.TooBig? then Failed("number is too big") else Parsed([Precision(n.value), EndPrecision], n.end)
    else if i + 1 < |s| && s[i + 1] == '{' then
      var arg := DynamicAt(s, i + 1);
      if arg.arg.BadArg? then Failed(arg.arg.message)
      else Parsed([DynamicPrecision(arg.arg), EndPrecision], arg.next)
    else Failed("missing precision specifier")
  }

  function AfterPrecision(s: string, i: nat): (r: SpecsParse)
    requires i <= |s|
    ensures Good(r, s, i, 8)
  {
    if i < |s| && s[i] != '}' then Parsed([Type(s[i])], i + 1) else Parsed([], i)
  }

  function AfterWidth(s: string, i: nat): (r: SpecsParse)
    requires i < |s|
    ensures Good(r, s, i, 6)
  {
    if s[i] == '.' then
      var p := PrecisionAt(s, i);
      if p.Failed? then p
      else
        assert p.calls == [p.calls[0], EndPrecision];
        PrecisionInOrder(p.calls[0], AfterPrecision(s, p.end).calls);
        Prepend(p.calls, AfterPrecision(s, p.end))
    else
      InOrderWeaken(AfterPrecision(s, i).calls, 6, 8);
      AfterPrecision(s, i)
  }

  lemma PrecisionInOrder(e: SpecCall, calls: seq<SpecCall>)
    requires Rank(e) == 7 && InOrder(calls, 8)
    ensures InOrder([e, EndPrecision] + calls, 6)
  {
    var all := [e, EndPrecision] + calls;
    assert all[1..] == [EndPrecision] + calls && all[1..][1..] == calls;
  }

  lemma OneInOrder(e: SpecCall, calls: seq<SpecCall>, k: nat)
    requires k < Rank(e) < 7 && InOrder(calls, Rank(e))
    ensures InOrder([e] + calls, k)
  {
    assert ([e] + calls)[1..] == calls;
  }

  function AfterZero(s: string, i: nat): (r: SpecsParse)
    requires i < |s|
    ensures Good(r, s, i, 5)
  {
    var w := WidthAt(s, i);
    if w.Failed? || w.end == |s| then w
    else
      var rest := AfterWidth(s, w.end);
      if rest.Failed? then rest
      else if w.calls == [] then
        InOrderWeaken(rest.calls, 5, 6);
        rest
      else
        OneInOrder(w.calls[0], rest.calls, 5);
        assert w.calls == [w.calls[0]];
        Prepend(w.calls, rest)
  }

  function AfterHash(s: string, i: nat): (r: SpecsParse)
    requires i < |s|
    ensures Good(r, s, i, 4)
  {
    if s[i] == '0' then
      if i + 1 == |s| then Parsed([Zero], i + 1)
      else
        var rest := AfterZero(s, i + 1);
        if rest.Failed? then rest else OneInOrder(Zero, rest.calls, 4); Prepend([Zero], rest)
    else
      var rest := AfterZero(s, i);
      if rest.Failed? then rest else InOrderWeaken(rest.calls, 4, 5); rest
  }

  function AfterSign(s: string, i: nat): (r: SpecsParse)
    requires i < |s|
    ensures Good(r, s, i, 3)
  {
    if s[i] == '#' then
      if i + 1 == |s| then Parsed([Hash], i + 1)
      else
        var rest := AfterHash(s, i + 1);
        if rest.Failed? then rest else OneInOrder(Hash, rest.calls, 3); Prepend([Hash], rest)
    else
      var rest := AfterHash(s, i);
      if rest.Failed? then rest else InOrderWeaken(rest.calls, 3, 4); rest
  }

  function AfterAlign(s: string, i: nat): (r: SpecsParse)
    requires i < |s|
    ensures Good(r, s, i, 2)
  {
    var sign := SignOf(s[i]);
    if sign != NoSign then
      if i + 1 == |s| then Parsed([Sign(sign)], i + 1)
      else
        var rest := AfterSign(s, i + 1);
        if rest.Failed? then rest else OneInOrder(Sign(sign), rest.calls, 2); Prepend([Sign(sign)], rest)
    else
      var rest := AfterSign(s, i);
      if rest.Failed? then rest else InOrderWeaken(rest.calls, 2, 3); rest
  }

  /** fmt's `parse_format_specs`. */
  function SpecsAt(s: string, i: nat): (r: SpecsParse)
    requires i <= |s|
    ensures Good(r, s, i, 0)
  {
    if i == |s| || s[i] == '}' then Parsed([], i)
    else
      var a := AlignAt(s, i);
      if a.Failed? || a.end == |s| then a
      else
        var rest := AfterAlign(s, a.end);
        if rest.Failed? then rest
        else
          AlignInOrder(a.calls, rest.calls);
          Prepend(a.calls, rest)
  }

  lemma AlignInOrder(head: seq<SpecCall>, calls: seq<SpecCall>)
    requires head == [] || (|head| == 1 && head[0].Align?)
             || (|head| == 2 && head[0].Fill? && head[1].Align?)
    requires InOrder(calls, 2)
    ensures InOrder(head + calls, 0)
  {
    if |head| == 2 {
      assert head == [head[0], head[1]];
      assert (head + calls)[1..] == [head[1]] + calls && (head + calls)[1..][1..] == calls;
    } else if |head| == 1 {
      assert (head + calls)[1..] == calls;
    } else {
      assert head + calls == calls;
      InOrderWeaken(calls, 0, 2);
    }
  }

  /** Where the specifiers end for a handler that parses them, or the error: `on_format_specs` of
      the formatting handler and of the compiler. */
  function SpecsFeedback(s: string): Feedback {
    (i: nat) =>
      if i > |s| then Fail("out of range")
      else
        match SpecsAt(s, i)
        case Failed(message) => Fail(message)
        case Parsed(_, end) =>
          if end == |s| || s[end] != '}' then Fail("missing '}' in format string") else End(end)
  }

  // The counter looks for the matching brace instead.

  /** fmt's `part_counter::on_format_specs`, with `depth` braces open. */
  function BraceEnd(s: string, i: nat, depth: nat): (end: nat)
    requires i <= |s|
    ensures i <= end <= |s|
    decreases |s| - i
  {
    if i == |s| then i
    else if s[i] == '{' then BraceEnd(s, i + 1, depth + 1)
    else if s[i] == '}' then if depth == 0 then i else BraceEnd(s, i + 1, depth - 1)
    else BraceEnd(s, i + 1, depth)
  }

  function BraceFeedback(s: string): Feedback {
    (i: nat) => if i > |s| then Fail("out of range") else End(BraceEnd(s, i, 0))
  }
}
