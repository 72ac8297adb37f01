/** What `parse_format_specs` accepts is spelled as the calls that it makes say. */
module FormatGrammar {
  import opened Decimals
  import opened DecimalText
  import opened FormatSpecs
  import opened FormatString
  import opened FormatText

  /** A number in decimal, with leading zeros allowed. */
  predicate Spelled(text: string, n: nat) {
    text != "" && AllDigits(text) && DigitsValue(text) == n <= MAX_INT
  }

  predicate SpellsOne(text: string, e: SpecCall) {
    match e
    case Fill(fill) => text == fill && IsFill(fill)
    case Align(align) => text == AlignText(align) && text != ""
    case Sign(sign) => text == SignText(sign) && text != ""
    case Hash => text == "#"
    case Zero => text == "0"
    case Width(n) => Spelled(text, n)
    case DynamicWidth(arg) => ProperArg(arg) && text == AmountText(FromArg(arg))
    case Precision(n) => text != "" && text[0] == '.' && Spelled(text[1..], n)
    case DynamicPrecision(arg) => ProperArg(arg) && text == "." + AmountText(FromArg(arg))
    case EndPrecision => text == ""
    case Type(c) => text == [c] && c != '}'
  }

  /** The text is spelled out by the calls, one after the other. */
  ghost predicate Spells(text: string, calls: seq<SpecCall>) {
    if calls == [] then text == ""
    else exists k: nat :: k <= |text| && SpellsOne(text[..k], calls[0]) && Spells(text[k..], calls[1..])
  }

  lemma SpellsSingle(text: string, e: SpecCall)
    requires SpellsOne(text, e)
    ensures Spells(text, [e])
  {
    assert text[..|text|] == text && text[|text|..] == "" && [e][1..] == [];
  }

  lemma {:induction false} SpellsConcat(a: string, head: seq<SpecCall>, b: string, tail: seq<SpecCall>)
    requires Spells(a, head) && Spells(b, tail)
    ensures Spells(a + b, head + tail)
    decreases |head|
  {
    hide SpellsOne;
    if head == [] {
      assert a + b == b && head + tail == tail;
    } else {
      var k: nat :| k <= |a| && SpellsOne(a[..k], head[0]) && Spells(a[k..], head[1..]);
      SpellsConcat(a[k..], head[1..], b, tail);
      assert (a + b)[..k] == a[..k] && (a + b)[k..] == a[k..] + b;
      assert (head + tail)[1..] == head[1..] + tail && (head + tail)[0] == head[0];
      SpellsFirst(a + b, head + tail, k, a[..k], a[k..] + b, head[1..] + tail);
    }
  }

  lemma SpellsFirst(text: string, calls: seq<SpecCall>, k: nat, first: string, rest: string, more: seq<SpecCall>)
    requires calls != [] && k <= |text| && text[..k] == first && text[k..] == rest && calls[1..] == more
    requires SpellsOne(first, calls[0]) && Spells(rest, more)
    ensures Spells(text, calls)
  {
  }

  /** What is parsed from a position on is spelled from there to its end. */
  ghost predicate SpelledOut(s: string, i: nat, r: SpecsParse) {
    r.Parsed? ==> i <= r.end <= |s| && Spells(s[i..r.end], r.calls)
  }

  lemma SpelledNext(s: string, i: nat, head: seq<SpecCall>, j: nat, rest: SpecsParse)
    requires i <= j <= |s| && Spells(s[i..j], head) && SpelledOut(s, j, rest)
    ensures SpelledOut(s, i, Prepend(head, rest))
  {
    hide Spells;
    if rest.Parsed? {
      SpellsConcat(s[i..j], head, s[j..rest.end], rest.calls);
      Slices(s, i, j, rest.end);
    }
  }

  lemma Slices(s: string, i: nat, j: nat, k: nat)
    requires i <= j <= k <= |s|
    ensures s[i..j] + s[j..k] == s[i..k]
  {
  }

  lemma NothingSpelled(s: string, i: nat)
    requires i <= |s|
    ensures SpelledOut(s, i, Parsed([], i))
  {
    assert s[i..i] == "";
  }

  // Argument ids

  lemma {:induction false} NameParts(s: string, i: nat)
    requires i <= |s|
    ensures forall k :: i <= k < NameEnd(s, i) ==> IsNameStart(s[k]) || IsDigit(s[k])
    decreases |s| - i
  {
    if i < |s| && (IsNameStart(s[i]) || IsDigit(s[i])) {
      NameParts(s, i + 1);
    } else {
    }
  }

  /** An id is accepted only as it is written. */
  lemma ArgSpelled(s: string, i: nat)
    requires i < |s| && !ArgIdAt(s, i).arg.BadArg?
    ensures ProperArg(ArgIdAt(s, i).arg) && s[i..ArgIdAt(s, i).next] == ArgText(ArgIdAt(s, i).arg)
  {
    var r := ArgIdAt(s, i);
    match r.arg {
      case Index(_) => IndexUnique(s, i);
      case Name(name) => NameParts(s, i + 1);
      case _ =>
    }
  }

  lemma DynamicSpelled(s: string, i: nat)
    requires i < |s| && s[i] == '{' && !DynamicAt(s, i).arg.BadArg?
    ensures var r := DynamicAt(s, i);
            ProperArg(r.arg) && r.next <= |s| && i < r.next && s[i..r.next] == AmountText(FromArg(r.arg))
  {
    hide ArgIdAt, ArgText, ProperArg;
    ArgSpelled(s, i + 1);
    Braced(s, i, ArgIdAt(s, i + 1).next);
  }

  lemma Braced(s: string, i: nat, j: nat)
    requires i < j < |s| && s[i] == '{' && s[j] == '}'
    ensures s[i..j + 1] == "{" + (s[i + 1..j] + "}")
  {
  }

  lemma NumberSpelled(s: string, i: nat)
    requires i < |s| && IsDigit(s[i]) && ParseInt(s, i).Int?
    ensures var n := ParseInt(s, i); i < n.end <= |s| && n.value >= 0 && Spelled(s[i..n.end], n.value)
  {
  }

  // Each part

  lemma TypeSpelled(s: string, i: nat)
    requires i <= |s|
    ensures SpelledOut(s, i, AfterPrecision(s, i))
  {
    NothingSpelled(s, i);
    if i < |s| && s[i] != '}' {
      assert s[i..i + 1] == [s[i]];
      SpellsSingle(s[i..i + 1], Type(s[i]));
    }
  }

  lemma PrecisionSpelled(s: string, i: nat)
    requires i < |s| && s[i] == '.'
    ensures SpelledOut(s, i, PrecisionAt(s, i))
  {
    hide ParseInt, DynamicAt, ArgText, Spells, DigitsValue;
    var r := PrecisionAt(s, i);
    if r.Parsed? {
      if IsDigit(s[i + 1]) {
        NumberSpelled(s, i + 1);
      } else {
        DynamicSpelled(s, i + 1);
      }
      assert s[i..r.end][1..] == s[i + 1..r.end] && s[i..r.end] == "." + s[i + 1..r.end];
      SpellsSingle(s[i..r.end], r.calls[0]);
      SpellsSingle("", EndPrecision);
      SpellsConcat(s[i..r.end], [r.calls[0]], "", [EndPrecision]);
      assert s[i..r.end] + "" == s[i..r.end] && [r.calls[0]] + [EndPrecision] == r.calls;
    }
  }

  lemma WidthSpelled(s: string, i: nat)
    requires i < |s|
    ensures SpelledOut(s, i, WidthAt(s, i))
  {
    hide ParseInt, DynamicAt, ArgText, Spells, DigitsValue;
    var r := WidthAt(s, i);
    NothingSpelled(s, i);
    if r.Parsed? && r.calls != [] {
      if IsDigit(s[i]) {
        NumberSpelled(s, i);
      } else {
        DynamicSpelled(s, i);
      }
      SpellsSingle(s[i..r.end], r.calls[0]);
    }
  }

  lemma AfterWidthSpelled(s: string, i: nat)
    requires i < |s|
    ensures SpelledOut(s, i, AfterWidth(s, i))
  {
    hide PrecisionAt, AfterPrecision, Spells;
    if s[i] == '.' {
      PrecisionSpelled(s, i);
      var p := PrecisionAt(s, i);
      if p.Parsed? {
        TypeSpelled(s, p.end);
        SpelledNext(s, i, p.calls, p.end, AfterPrecision(s, p.end));
      }
    } else {
      TypeSpelled(s, i);
    }
  }

  lemma AfterZeroSpelled(s: string, i: nat)
    requires i < |s|
    ensures SpelledOut(s, i, AfterZero(s, i))
  {
    hide WidthAt, AfterWidth, Spells;
    WidthSpelled(s, i);
    var w := WidthAt(s, i);
    if w.Parsed? && w.end < |s| {
      AfterWidthSpelled(s, w.end);
      var rest := AfterWidth(s, w.end);
      SpelledNext(s, i, w.calls, w.end, rest);
      assert rest.Parsed? ==> [] + rest.calls == rest.calls;
    }
  }

  /** A flag of one character, if it is there. */
  lemma FlagSpelled(s: string, i: nat, e: SpecCall, rest: SpecsParse)
    requires i < |s| && SpellsOne([s[i]], e) && SpelledOut(s, i + 1, rest)
    ensures SpelledOut(s, i, Prepend([e], rest)) && SpelledOut(s, i, Parsed([e], i + 1))
  {
    assert s[i..i + 1] == [s[i]];
    SpellsSingle([s[i]], e);
    SpelledNext(s, i, [e], i + 1, rest);
  }

  lemma AfterHashSpelled(s: string, i: nat)
    requires i < |s|
    ensures SpelledOut(s, i, AfterHash(s, i))
  {
    hide AfterZero, Spells;
    if s[i] == '0' {
      NothingSpelled(s, i + 1);
      FlagSpelled(s, i, Zero, Parsed([], i + 1));
      if i + 1 < |s| {
        AfterZeroSpelled(s, i + 1);
        FlagSpelled(s, i, Zero, AfterZero(s, i + 1));
      }
    } else {
      AfterZeroSpelled(s, i);
    }
  }

  lemma AfterSignSpelled(s: string, i: nat)
    requires i < |s|
    ensures SpelledOut(s, i, AfterSign(s, i))
  {
    hide AfterHash, Spells;
    if s[i] == '#' {
      NothingSpelled(s, i + 1);
      FlagSpelled(s, i, Hash, Parsed([], i + 1));
      if i + 1 < |s| {
        AfterHashSpelled(s, i + 1);
        FlagSpelled(s, i, Hash, AfterHash(s, i + 1));
      }
    } else {
      AfterHashSpelled(s, i);
    }
  }

  lemma AfterAlignSpelled(s: string, i: nat)
    requires i < |s|
    ensures SpelledOut(s, i, AfterAlign(s, i))
  {
    hide AfterSign, Spells;
    var sign := SignOf(s[i]);
    if sign != NoSign {
      NothingSpelled(s, i + 1);
      FlagSpelled(s, i, Sign(sign), Parsed([], i + 1));
      if i + 1 < |s| {
        AfterSignSpelled(s, i + 1);
        FlagSpelled(s, i, Sign(sign), AfterSign(s, i + 1));
      }
    } else {
      AfterSignSpelled(s, i);
    }
  }

  lemma {:induction false} ContinuationParts(s: string, i: nat)
    requires i <= |s|
    ensures forall k :: i <= k < ContinuationEnd(s, i) ==> IsContinuation(s[k])
    decreases |s| - i
  {
    if i < |s| && s[i] as int / 64 % 4 == 2 {
      ContinuationParts(s, i + 1);
    } else {
    }
  }

  lemma FillSpelled(s: string, i: nat)
    requires i < |s| && s[i] != '}' && AlignAt(s, i).Parsed? && |AlignAt(s, i).calls| == 2
    ensures var r, p := AlignAt(s, i), NextCodePoint(s, i);
            && p < |s| && r == Parsed([r.calls[0], r.calls[1]], p + 1)
            && SpellsOne(s[i..p], r.calls[0]) && SpellsOne([s[p]], r.calls[1])
  {
    ContinuationParts(s, i + 1);
  }

  lemma AlignSpelled(s: string, i: nat)
    requires i < |s| && s[i] != '}'
    ensures SpelledOut(s, i, AlignAt(s, i))
  {
    hide Spells;
    var r := AlignAt(s, i);
    NothingSpelled(s, i);
    if r.Parsed? && |r.calls| == 2 {
      var p := NextCodePoint(s, i);
      FillSpelled(s, i);
      assert s[i..p + 1] == s[i..p] + [s[p]] && [r.calls[0], r.calls[1]] == [r.calls[0]] + [r.calls[1]];
      hide SpellsOne, NextCodePoint;
      SpellsSingle(s[i..p], r.calls[0]);
      SpellsSingle([s[p]], r.calls[1]);
      SpellsConcat(s[i..p], [r.calls[0]], [s[p]], [r.calls[1]]);
    } else if r.Parsed? && r.calls != [] {
      assert s[i..i + 1] == [s[i]];
      SpellsSingle([s[i]], r.calls[0]);
    }
  }

  /** Specifiers that are accepted are spelled out by the calls that they lead to. */
  lemma SpecsSpelled(s: string, i: nat)
    requires i <= |s|
    ensures SpelledOut(s, i, SpecsAt(s, i))
  {
    hide AlignAt, AfterAlign, Spells;
    NothingSpelled(s, i);
    if i < |s| && s[i] != '}' {
      AlignSpelled(s, i);
      var a := AlignAt(s, i);
      if a.Parsed? && a.end < |s| {
        AfterAlignSpelled(s, a.end);
        SpelledNext(s, i, a.calls, a.end, AfterAlign(s, a.end));
      }
    }
  }
}
