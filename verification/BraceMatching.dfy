/** The part counter finds the end of the specifiers of a field by matching braces, the compiler by
    parsing them. They agree exactly when no opening brace is taken for a type. */
module BraceMatching {
  import opened Decimals
  import opened DecimalText
  import opened FormatString
  import opened FormatSpecs

  const BRACE_TYPE: SpecCall := Type('{')

  /** Matching braces from `i` on leads to where the specifiers end, one brace deeper after a brace
      that was taken for a type. */
  ghost predicate Leads(s: string, i: nat, r: SpecsParse, depth: nat)
    requires i <= |s|
  {
    r.Parsed? && r.end <= |s| ==>
      BraceEnd(s, i, depth) == BraceEnd(s, r.end, if BRACE_TYPE in r.calls then depth + 1 else depth)
  }

  lemma {:induction false} NoBraces(s: string, i: nat, j: nat, depth: nat)
    requires i <= j <= |s| && forall k :: i <= k < j ==> s[k] != '{' && s[k] != '}'
    ensures BraceEnd(s, i, depth) == BraceEnd(s, j, depth)
    decreases j - i
  {
    if i < j {
      NoBraces(s, i + 1, j, depth);
    }
  }

  lemma {:induction false} DigitsNoBraces(s: string, i: nat)
    requires i <= |s|
    ensures forall k :: i <= k < DigitsEnd(s, i) ==> s[k] != '{' && s[k] != '}'
    decreases |s| - i
  {
    if i < |s| && IsDigit(s[i]) {
      DigitsNoBraces(s, i + 1);
    }
  }

  lemma {:induction false} NameNoBraces(s: string, i: nat)
    requires i <= |s|
    ensures forall k :: i <= k < NameEnd(s, i) ==> s[k] != '{' && s[k] != '}'
    decreases |s| - i
  {
    if i < |s| && (IsNameStart(s[i]) || IsDigit(s[i])) {
      NameNoBraces(s, i + 1);
    }
  }

  lemma {:induction false} ContinuationNoBraces(s: string, i: nat)
    requires i <= |s|
    ensures forall k :: i <= k < ContinuationEnd(s, i) ==> s[k] != '{' && s[k] != '}'
    decreases |s| - i
  {
    if i < |s| && s[i] as int / 64 % 4 == 2 {
      ContinuationNoBraces(s, i + 1);
    }
  }

  lemma ArgNoBraces(s: string, i: nat)
    requires i < |s| && !ArgIdAt(s, i).arg.BadArg?
    ensures forall k :: i <= k < ArgIdAt(s, i).next ==> s[k] != '{' && s[k] != '}'
  {
    DigitsNoBraces(s, i);
    NameNoBraces(s, i);
  }

  /** A width or precision in braces is a matched pair. */
  lemma DynamicLeads(s: string, i: nat, depth: nat)
    requires i < |s| && s[i] == '{' && !DynamicAt(s, i).arg.BadArg?
    ensures BraceEnd(s, i, depth) == BraceEnd(s, DynamicAt(s, i).next, depth)
  {
    var j := ArgIdAt(s, i + 1).next;
    ArgNoBraces(s, i + 1);
    NoBraces(s, i + 1, j, depth + 1);
  }

  lemma AlignLeads(s: string, i: nat, depth: nat)
    requires i < |s| && s[i] != '}'
    ensures Leads(s, i, AlignAt(s, i), depth)
  {
    var a := AlignAt(s, i);
    ContinuationNoBraces(s, i + 1);
    if a.Parsed? {
      NoBraces(s, i, a.end, depth);
    }
  }

  lemma WidthLeads(s: string, i: nat, depth: nat)
    requires i < |s|
    ensures Leads(s, i, WidthAt(s, i), depth)
  {
    if IsDigit(s[i]) {
      DigitsNoBraces(s, i);
      NoBraces(s, i, DigitsEnd(s, i), depth);
    } else if s[i] == '{' && !DynamicAt(s, i).arg.BadArg? {
      DynamicLeads(s, i, depth);
    }
  }

  lemma PrecisionLeads(s: string, i: nat, depth: nat)
    requires i < |s| && s[i] == '.'
    ensures Leads(s, i, PrecisionAt(s, i), depth)
  {
    NoBraces(s, i, i + 1, depth);
    if i + 1 < |s| && IsDigit(s[i + 1]) {
      DigitsNoBraces(s, i + 1);
      NoBraces(s, i + 1, DigitsEnd(s, i + 1), depth);
    } else if i + 1 < |s| && s[i + 1] == '{' && !DynamicAt(s, i + 1).arg.BadArg? {
      DynamicLeads(s, i + 1, depth);
    }
  }

  /** Leading to a middle position and from there to the end. */
  lemma LeadsOn(s: string, i: nat, j: nat, head: seq<SpecCall>, rest: SpecsParse, depth: nat)
    requires i <= |s| && j <= |s| && BRACE_TYPE !in head
    requires BraceEnd(s, i, depth) == BraceEnd(s, j, depth) && Leads(s, j, rest, depth)
    ensures Leads(s, i, Prepend(head, rest), depth)
  {
  }

  lemma AfterPrecisionLeads(s: string, i: nat, depth: nat)
    requires i <= |s|
    ensures Leads(s, i, AfterPrecision(s, i), depth)
  {
  }

  lemma AfterWidthLeads(s: string, i: nat, depth: nat)
    requires i < |s|
    ensures Leads(s, i, AfterWidth(s, i), depth)
  {
    hide BraceEnd, PrecisionAt, AfterPrecision;
    if s[i] == '.' {
      var p := PrecisionAt(s, i);
      if p.Parsed? {
        PrecisionLeads(s, i, depth);
        AfterPrecisionLeads(s, p.end, depth);
        LeadsOn(s, i, p.end, p.calls, AfterPrecision(s, p.end), depth);
      }
    } else {
      AfterPrecisionLeads(s, i, depth);
    }
  }

  lemma AfterZeroLeads(s: string, i: nat, depth: nat)
    requires i < |s|
    ensures Leads(s, i, AfterZero(s, i), depth)
  {
    hide BraceEnd, WidthAt, AfterWidth;
    var w := WidthAt(s, i);
    WidthLeads(s, i, depth);
    if w.Parsed? && w.end < |s| {
      AfterWidthLeads(s, w.end, depth);
      LeadsOn(s, i, w.end, w.calls, AfterWidth(s, w.end), depth);
    }
  }

  lemma AfterHashLeads(s: string, i: nat, depth: nat)
    requires i < |s|
    ensures Leads(s, i, AfterHash(s, i), depth)
  {
    hide AfterZero;
    AfterZeroLeads(s, i, depth);
    if s[i] == '0' {
      NoBraces(s, i, i + 1, depth);
      if i + 1 < |s| {
        AfterZeroLeads(s, i + 1, depth);
        LeadsOn(s, i, i + 1, [Zero], AfterZero(s, i + 1), depth);
      }
    }
  }

  lemma AfterSignLeads(s: string, i: nat, depth: nat)
    requires i < |s|
    ensures Leads(s, i, AfterSign(s, i), depth)
  {
    hide AfterHash;
    AfterHashLeads(s, i, depth);
    if s[i] == '#' {
      NoBraces(s, i, i + 1, depth);
      if i + 1 < |s| {
        AfterHashLeads(s, i + 1, depth);
        LeadsOn(s, i, i + 1, [Hash], AfterHash(s, i + 1), depth);
      }
    }
  }

  lemma AfterAlignLeads(s: string, i: nat, depth: nat)
    requires i < |s|
    ensures Leads(s, i, AfterAlign(s, i), depth)
  {
    hide AfterSign;
    AfterSignLeads(s, i, depth);
    var sign := SignOf(s[i]);
    if sign != NoSign {
      NoBraces(s, i, i + 1, depth);
      if i + 1 < |s| {
        AfterSignLeads(s, i + 1, depth);
        LeadsOn(s, i, i + 1, [Sign(sign)], AfterSign(s, i + 1), depth);
      }
    }
  }

  lemma SpecsLead(s: string, i: nat, depth: nat)
    requires i <= |s|
    ensures Leads(s, i, SpecsAt(s, i), depth)
  {
    hide AlignAt, AfterAlign;
    if i < |s| && s[i] != '}' {
      var a := AlignAt(s, i);
      AlignLeads(s, i, depth);
      if a.Parsed? && a.end < |s| {
        AfterAlignLeads(s, a.end, depth);
        LeadsOn(s, i, a.end, a.calls, AfterAlign(s, a.end), depth);
      }
    }
  }

  /** Where the compiler finds the end of the specifiers, the counter finds the same end exactly
      when the type, if any, is not an opening brace. */
  lemma SameEnd(s: string, i: nat)
    requires i <= |s| && SpecsFeedback(s)(i).End?
    ensures BraceFeedback(s)(i) == SpecsFeedback(s)(i) <==> BRACE_TYPE !in SpecsAt(s, i).calls
  {
    SpecsLead(s, i, 0);
  }

  /** fmt's `part_counter::on_format_specs`. */
  method MatchBraces(s: string, at: nat) returns (begin: nat)
    requires at <= |s|
    ensures begin == BraceEnd(s, at, 0) && (begin < |s| ==> s[begin] == '}')
  {
    begin := at;
    var braces: nat := 0;
    while begin != |s|
      invariant at <= begin <= |s| && BraceEnd(s, begin, braces) == BraceEnd(s, at, 0)
      decreases |s| - begin
    {
      if s[begin] == '{' {
        braces := braces + 1;
      } else if s[begin] == '}' {
        if braces == 0 {
          break;
        }
        braces := braces - 1;
      }
      begin := begin + 1;
    }
  }
}
