/** Writing argument ids and specifiers as a format string has them, and that the parser reads back
    exactly what has been written. */
module FormatText {
  import opened Decimals
  import opened DecimalText
  import opened FormatSpecs
  import opened FormatString
  import opened Joining
  import opened Options

  predicate At(s: string, i: nat, text: string) {
    i + |text| <= |s| && s[i..i + |text|] == text
  }

  lemma AtSplit(s: string, i: nat, a: string, b: string)
    requires At(s, i, a + b)
    ensures At(s, i, a) && At(s, i + |a|, b)
  {
    var n := i + |a + b|;
    assert s[i..n][..|a|] == s[i..i + |a|] && s[i..n][|a|..] == s[i + |a|..n];
  }

  lemma AtFirst(s: string, i: nat, text: string)
    requires At(s, i, text) && text != ""
    ensures i < |s| && s[i] == text[0]
  {
    assert s[i..i + |text|][0] == s[i];
  }

  // Argument ids

  predicate IsName(name: string) {
    name != "" && IsNameStart(name[0]) && forall i :: 0 < i < |name| ==> IsNameStart(name[i]) || IsDigit(name[i])
  }

  /** The ids that can be written. */
  predicate ProperArg(arg: ArgId) {
    match arg
    case Auto => true
    case Index(id) => id <= MAX_INT
    case Name(name) => IsName(name)
    case BadArg(_) => false
  }

  function ArgText(arg: ArgId): string {
    match arg
    case Auto => ""
    case Index(id) => ToDigits(id)
    case Name(name) => name
    case BadArg(_) => ""
  }

  lemma {:induction false} DigitsRun(s: string, i: nat, j: nat)
    requires i <= j <= |s| && AllDigits(s[i..j]) && (j < |s| ==> !IsDigit(s[j]))
    ensures DigitsEnd(s, i) == j
    decreases j - i
  {
    if i < j {
      assert s[i..j][0] == s[i];
      assert s[i + 1..j] == s[i..j][1..];
      DigitsRun(s, i + 1, j);
    }
  }

  lemma {:induction false} NameRun(s: string, i: nat, j: nat)
    requires i <= j <= |s| && (forall k :: i <= k < j ==> IsNameStart(s[k]) || IsDigit(s[k]))
    requires j < |s| ==> !IsNameStart(s[j]) && !IsDigit(s[j])
    ensures NameEnd(s, i) == j
    decreases j - i
  {
    if i < j {
      NameRun(s, i + 1, j);
    }
  }

  /** A number written in decimal is read back, up to the first character that is no digit. */
  lemma ParseDigits(s: string, i: nat, n: nat)
    requires At(s, i, ToDigits(n)) && n <= MAX_INT
    requires i + NumDigits(n) < |s| ==> !IsDigit(s[i + NumDigits(n)])
    ensures ParseInt(s, i) == Int(n, i + NumDigits(n)) && IsDigit(s[i]) && (s[i] == '0' ==> n == 0)
  {
    hide DigitsValue, ToDigits, NumDigits, DigitsEnd;
    ToDigitsValue(n);
    DigitsRun(s, i, i + NumDigits(n));
    assert s[i] == s[i..i + NumDigits(n)][0] == ToDigits(n)[0];
  }

  lemma IndexRead(s: string, i: nat, id: nat)
    requires id <= MAX_INT && At(s, i, ToDigits(id)) && i + NumDigits(id) < |s|
    requires s[i + NumDigits(id)] == '}' || s[i + NumDigits(id)] == ':'
    ensures ArgIdAt(s, i) == ArgParse(Index(id), i + NumDigits(id))
  {
    hide ParseInt, ToDigits, NumDigits, DigitsEnd, NameEnd, IsNameStart;
    ParseDigits(s, i, id);
    ZeroDigits();
  }

  lemma NameRead(s: string, i: nat, name: string)
    requires IsName(name) && At(s, i, name) && i + |name| < |s|
    requires s[i + |name|] == '}' || s[i + |name|] == ':'
    ensures ArgIdAt(s, i) == ArgParse(Name(name), i + |name|)
  {
    hide ParseInt, DigitsEnd;
    forall k | i <= k < i + |name|
      ensures s[k] == name[k - i]
    {
      assert s[i..i + |name|][k - i] == s[k];
    }
    NameRun(s, i + 1, i + |name|);
  }

  /** An argument id is read back before a closing brace or a colon. */
  lemma ArgRoundTrip(s: string, i: nat, arg: ArgId)
    requires ProperArg(arg) && At(s, i, ArgText(arg)) && i + |ArgText(arg)| < |s|
    requires s[i + |ArgText(arg)|] == '}' || s[i + |ArgText(arg)|] == ':'
    ensures ArgIdAt(s, i) == ArgParse(arg, i + |ArgText(arg)|)
  {
    match arg {
      case Index(id) =>
        hide ArgIdAt, ToDigits;
        IndexRead(s, i, id);
      case Name(name) =>
        hide ArgIdAt;
        NameRead(s, i, name);
      case _ =>
    }
  }

  lemma ZeroDigits()
    ensures ToDigits(0) == "0" && NumDigits(0) == 1
  {
  }

  /** Digits without a leading zero are those of the number that they denote. */
  lemma {:induction false} DigitsUnique(s: string)
    requires s != "" && AllDigits(s) && (s[0] == '0' ==> |s| == 1)
    ensures DigitsValue(s) >= 0 && ToDigits(DigitsValue(s)) == s
    ensures |s| > 1 ==> DigitsValue(s) >= 10
  {
    var n := |s| - 1;
    DigitsGrow(s);
    assert s == s[..n] + [s[n]];
    if n > 0 {
      DigitsUnique(s[..n]);
      var d := s[n] as int - '0' as int;
      NotZeroValue(s[..n]);
      assert DigitsValue(s) / 10 == DigitsValue(s[..n]) && DigitsValue(s) % 10 == d;
    } else {
      assert DigitsValue(s[..0]) == 0;
    }
  }

  lemma {:induction false} NotZeroValue(s: string)
    requires s != "" && AllDigits(s) && s[0] != '0'
    ensures DigitsValue(s) > 0
  {
    if |s| > 1 {
      NotZeroValue(s[..|s| - 1]);
    } else {
      assert DigitsValue(s[..0]) == 0;
    }
  }

  /** A numeric id is accepted only as it is written. */
  lemma IndexUnique(s: string, i: nat)
    requires i < |s| && ArgIdAt(s, i).arg.Index?
    ensures At(s, i, ArgText(ArgIdAt(s, i).arg)) && ArgIdAt(s, i).next == i + |ArgText(ArgIdAt(s, i).arg)|
  {
    var end := DigitsEnd(s, i);
    if s[i] != '0' {
      assert s[i..end][0] == s[i];
      DigitsUnique(s[i..end]);
    } else {
      ZeroDigits();
    }
  }

  // Specifiers

  /** A width or precision: none, given, or taken from an argument. */
  datatype Amount = Unset | Given(n: nat) | FromArg(arg: ArgId)

  /** Specifiers as their documentation describes them. */
  datatype Spec = Spec(
    fill: string, align: AlignKind, sign: SignKind, hash: bool, zero: bool, width: Amount, precision: Amount,
    kind: Option<char>)

  predicate IsContinuation(c: char) {
    c as int / 64 % 4 == 2
  }

  /** One code point, but no brace. */
  predicate IsFill(fill: string) {
    && fill != "" && fill[0] != '{' && fill[0] != '}'
    && (if fill[0] as int / 128 % 2 == 0 then |fill| == 1
        else forall i :: 0 < i < |fill| ==> IsContinuation(fill[i]))
  }

  predicate ProperAmount(a: Amount) {
    match a
    case Unset => true
    case Given(n) => n <= MAX_INT
    case FromArg(arg) => ProperArg(arg)
  }

  /** Neither width nor precision. */
  predicate Bare(spec: Spec) {
    spec.width == Unset && spec.precision == Unset
  }

  /** What stands between the alignment and the type. */
  function BeforeType(spec: Spec): string {
    SignText(spec.sign) + ((if spec.hash then "#" else "") + ((if spec.zero then "0" else "") +
    (AmountText(spec.width) + if spec.precision == Unset then "" else "." + AmountText(spec.precision))))
  }

  /** Any character may be the type where it cannot be taken for a part that is left out, or for more
      digits. An alignment must be kept away from the first two characters, which may be fill and
      alignment. */
  predicate TypeFits(spec: Spec, c: char) {
    && c != '}'
    && (IsDigit(c) ==> spec.precision.FromArg? || (spec.precision == Unset && spec.width.FromArg?))
    && (c == '{' ==> !Bare(spec))
    && (c == '.' ==> spec.precision != Unset)
    && (c == '#' ==> !Bare(spec) || spec.zero || spec.hash)
    && (SignOf(c) != NoSign ==> !Bare(spec) || spec.zero || spec.hash || spec.sign != NoSign)
    && (AlignOf(c) != NoAlign ==>
          |BeforeType(spec)| >= if spec.fill != "" then 0 else if spec.align != NoAlign then 1 else 2)
  }

  /** A fill needs an alignment; a width of 0 would be read as the flag `0`. */
  predicate Proper(spec: Spec) {
    && (spec.fill != "" ==> IsFill(spec.fill) && spec.align != NoAlign)
    && spec.align != Numeric
    && ProperAmount(spec.width) && ProperAmount(spec.precision)
    && (spec.width == Given(0) ==> spec.zero)
    && (spec.kind.Some? ==> TypeFits(spec, spec.kind.value))
  }

  function AmountText(a: Amount): string {
    match a
    case Unset => ""
    case Given(n) => ToDigits(n)
    case FromArg(arg) => "{" + (ArgText(arg) + "}")
  }

  function AlignText(align: AlignKind): string {
    match align
    case Left => "<"
    case Right => ">"
    case Center => "^"
    case _ => ""
  }

  function SignText(sign: SignKind): string {
    match sign
    case Plus => "+"
    case Minus => "-"
    case Space => " "
    case NoSign => ""
  }

  // The text from each part on, up to the closing brace, and the calls that it stands for

  function TypeText(spec: Spec): string {
    (if spec.kind.Some? then [spec.kind.value] else "") + "}"
  }

  function TypeCalls(spec: Spec): seq<SpecCall> {
    if spec.kind.Some? then [Type(spec.kind.value)] else []
  }

  function PrecisionText(spec: Spec): string {
    if spec.precision == Unset then TypeText(spec) else "." + (AmountText(spec.precision) + TypeText(spec))
  }

  function PrecisionCalls(spec: Spec): seq<SpecCall> {
    match spec.precision
    case Unset => TypeCalls(spec)
    case Given(n) => [Precision(n), EndPrecision] + TypeCalls(spec)
    case FromArg(arg) => [DynamicPrecision(arg), EndPrecision] + TypeCalls(spec)
  }

  function WidthText(spec: Spec): string {
    AmountText(spec.width) + PrecisionText(spec)
  }

  function WidthCalls(spec: Spec): seq<SpecCall> {
    match spec.width
    case Unset => PrecisionCalls(spec)
    case Given(n) => [Width(n)] + PrecisionCalls(spec)
    case FromArg(arg) => [DynamicWidth(arg)] + PrecisionCalls(spec)
  }

  function ZeroText(spec: Spec): string {
    if spec.zero then "0" + WidthText(spec) else WidthText(spec)
  }

  function ZeroCalls(spec: Spec): seq<SpecCall> {
    if spec.zero then [Zero] + WidthCalls(spec) else WidthCalls(spec)
  }

  function HashText(spec: Spec): string {
    if spec.hash then "#" + ZeroText(spec) else ZeroText(spec)
  }

  function HashCalls(spec: Spec): seq<SpecCall> {
    if spec.hash then [Hash] + ZeroCalls(spec) else ZeroCalls(spec)
  }

  function SignedText(spec: Spec): string {
    SignText(spec.sign) + HashText(spec)
  }

  function SignCalls(spec: Spec): seq<SpecCall> {
    if spec.sign != NoSign then [Sign(spec.sign)] + HashCalls(spec) else HashCalls(spec)
  }

  function SpecText(spec: Spec): string {
    spec.fill + (AlignText(spec.align) + SignedText(spec))
  }

  function SpecCalls(spec: Spec): seq<SpecCall> {
    (if spec.fill != "" then [Fill(spec.fill)] else []) +
    ((if spec.align != NoAlign then [Align(spec.align)] else []) + SignCalls(spec))
  }

  /** The first character from the type on. */
  function Head(spec: Spec): char {
    if spec.kind.Some? then spec.kind.value else '}'
  }

  /** A width or a precision begins with it. */
  predicate Begins(c: char) {
    IsDigit(c) || c == '{' || c == '.'
  }

  lemma TypeRead(s: string, i: nat, spec: Spec)
    requires Proper(spec) && At(s, i, TypeText(spec))
    ensures AfterPrecision(s, i) == Parsed(TypeCalls(spec), i + |TypeText(spec)| - 1)
    ensures s[i] == Head(spec)
  {
    hide BeforeType;
    assert s[i] == s[i..i + |TypeText(spec)|][0];
  }

  /** A width or precision in braces. */
  lemma DynamicRead(s: string, i: nat, arg: ArgId)
    requires ProperArg(arg) && At(s, i, AmountText(FromArg(arg)))
    ensures s[i] == '{' && DynamicAt(s, i) == ArgParse(arg, i + |AmountText(FromArg(arg))|)
  {
    AtSplit(s, i, "{", ArgText(arg) + "}");
    AtSplit(s, i + 1, ArgText(arg), "}");
    var j := i + 1 + |ArgText(arg)|;
    assert s[i] == s[i..i + 1][0] && s[j] == s[j..j + 1][0];
    ArgRoundTrip(s, i + 1, arg);
  }

  /** What the rest must not start with after an amount. */
  predicate Ends(s: string, i: nat) {
    i < |s| && !IsDigit(s[i])
  }

  lemma PrecisionPart(s: string, i: nat, a: Amount)
    requires ProperAmount(a) && a != Unset && i < |s| && s[i] == '.' && At(s, i + 1, AmountText(a))
    requires a.Given? ==> Ends(s, i + 1 + |AmountText(a)|)
    ensures PrecisionAt(s, i) == Parsed([if a.Given? then Precision(a.n) else DynamicPrecision(a.arg), EndPrecision],
                                        i + 1 + |AmountText(a)|)
  {
    hide ParseInt, DynamicAt, ToDigits, ArgText, DigitsEnd;
    if a.Given? {
      ParseDigits(s, i + 1, a.n);
    } else {
      DynamicRead(s, i + 1, a.arg);
    }
  }

  lemma WidthPart(s: string, i: nat, a: Amount)
    requires ProperAmount(a) && a != Unset && At(s, i, AmountText(a))
    requires a.Given? ==> Ends(s, i + |AmountText(a)|)
    ensures i < |s| && WidthAt(s, i) == Parsed([if a.Given? then Width(a.n) else DynamicWidth(a.arg)],
                                               i + |AmountText(a)|)
    ensures (IsDigit(s[i]) || s[i] == '{') && (s[i] == '0' ==> a == Given(0))
  {
    hide ParseInt, DynamicAt, ToDigits, ArgText, DigitsEnd;
    if a.Given? {
      ParseDigits(s, i, a.n);
    } else {
      DynamicRead(s, i, a.arg);
    }
  }

  lemma PrecisionRead(s: string, i: nat, spec: Spec)
    requires Proper(spec) && At(s, i, PrecisionText(spec))
    ensures AfterWidth(s, i) == Parsed(PrecisionCalls(spec), i + |PrecisionText(spec)| - 1)
    ensures s[i] == if spec.precision == Unset then Head(spec) else '.'
  {
    HeadFits(spec);
    hide Proper, Head, AfterPrecision, AfterWidth, TypeText, TypeCalls, PrecisionAt, AmountText, At;
    if spec.precision == Unset {
      TypeRead(s, i, spec);
      NoPoint(s, i);
    } else {
      PrecisionGiven(s, i, spec);
    }
  }

  lemma PrecisionGiven(s: string, i: nat, spec: Spec)
    requires Proper(spec) && At(s, i, PrecisionText(spec)) && spec.precision != Unset
    ensures AfterWidth(s, i) == Parsed(PrecisionCalls(spec), i + |PrecisionText(spec)| - 1) && s[i] == '.'
  {
    hide Proper, Head, AfterPrecision, AfterWidth, TypeText, TypeCalls, PrecisionAt, AmountText, At;
    HeadFits(spec);
    var amount := AmountText(spec.precision);
    AtSplit(s, i, ".", amount + TypeText(spec));
    AtSplit(s, i + 1, amount, TypeText(spec));
    AtFirst(s, i, ".");
    TypeRead(s, i + 1 + |amount|, spec);
    PrecisionPart(s, i, spec.precision);
    PointRead(s, i, i + 1 + |amount|);
  }

  /** The type cannot be taken for a precision or for its digits. */
  lemma HeadFits(spec: Spec)
    requires Proper(spec)
    ensures ProperAmount(spec.precision)
    ensures spec.precision == Unset ==> Head(spec) != '.'
    ensures spec.precision.Given? ==> !IsDigit(Head(spec))
  {
    hide BeforeType, ProperAmount, IsFill;
  }

  lemma NoPoint(s: string, i: nat)
    requires i < |s| && s[i] != '.'
    ensures AfterWidth(s, i) == AfterPrecision(s, i)
  {
    hide AfterPrecision;
  }

  lemma PointRead(s: string, i: nat, j: nat)
    requires i < |s| && s[i] == '.' && PrecisionAt(s, i).Parsed? && PrecisionAt(s, i).end == j
    requires AfterPrecision(s, j).Parsed?
    ensures AfterWidth(s, i) == Parsed(PrecisionAt(s, i).calls + AfterPrecision(s, j).calls, AfterPrecision(s, j).end)
  {
    hide AfterPrecision, PrecisionAt;
  }

  lemma WidthRead(s: string, i: nat, spec: Spec)
    requires Proper(spec) && At(s, i, WidthText(spec))
    ensures AfterZero(s, i) == Parsed(WidthCalls(spec), i + |WidthText(spec)| - 1)
    ensures Begins(s[i]) || (Bare(spec) && s[i] == Head(spec))
    ensures s[i] == '0' ==> spec.zero
  {
    hide BeforeType, AfterWidth, PrecisionText, PrecisionCalls, WidthAt, ProperAmount, AmountText;
    if spec.width == Unset {
      UnsetText();
      assert "" + PrecisionText(spec) == PrecisionText(spec);
      PrecisionRead(s, i, spec);
      NoWidth(s, i);
    } else {
      var amount := AmountText(spec.width);
      AtSplit(s, i, amount, PrecisionText(spec));
      PrecisionRead(s, i + |amount|, spec);
      WidthPart(s, i, spec.width);
    }
  }

  lemma UnsetText()
    ensures AmountText(Unset) == ""
  {
  }

  lemma NoWidth(s: string, i: nat)
    requires i < |s| && !IsDigit(s[i]) && s[i] != '{'
    ensures WidthAt(s, i) == Parsed([], i)
  {
  }

  lemma ZeroRead(s: string, i: nat, spec: Spec)
    requires Proper(spec) && At(s, i, ZeroText(spec))
    ensures AfterHash(s, i) == Parsed(ZeroCalls(spec), i + |ZeroText(spec)| - 1)
    ensures Begins(s[i]) || (Bare(spec) && !spec.zero && s[i] == Head(spec))
  {
    hide AfterZero, WidthText, WidthCalls, Proper;
    if spec.zero {
      AtSplit(s, i, "0", WidthText(spec));
      assert s[i] == s[i..i + 1][0];
      WidthRead(s, i + 1, spec);
    } else {
      WidthRead(s, i, spec);
    }
  }

  lemma HashRead(s: string, i: nat, spec: Spec)
    requires Proper(spec) && At(s, i, HashText(spec))
    ensures AfterSign(s, i) == Parsed(HashCalls(spec), i + |HashText(spec)| - 1)
    ensures Begins(s[i]) || s[i] == '#' || (Bare(spec) && !spec.zero && !spec.hash && s[i] == Head(spec))
  {
    hide AfterHash, ZeroText, ZeroCalls, BeforeType, ProperAmount;
    if spec.hash {
      AtSplit(s, i, "#", ZeroText(spec));
      assert s[i] == s[i..i + 1][0];
      ZeroRead(s, i + 1, spec);
    } else {
      ZeroRead(s, i, spec);
    }
  }

  lemma SignRead(s: string, i: nat, spec: Spec)
    requires Proper(spec) && At(s, i, SignedText(spec))
    ensures AfterAlign(s, i) == Parsed(SignCalls(spec), i + |SignedText(spec)| - 1)
  {
    hide AfterSign, HashText, HashCalls, BeforeType, ProperAmount;
    AtSplit(s, i, SignText(spec.sign), HashText(spec));
    if spec.sign != NoSign {
      assert s[i] == s[i..i + 1][0];
      HashRead(s, i + 1, spec);
    } else {
      assert "" + HashText(spec) == HashText(spec);
      HashRead(s, i, spec);
    }
  }

  // Fill and alignment

  lemma {:induction false} ContinuationRun(s: string, i: nat, j: nat)
    requires i <= j < |s| && (forall k :: i <= k < j ==> IsContinuation(s[k])) && !IsContinuation(s[j])
    ensures ContinuationEnd(s, i) == j
    decreases j - i
  {
    if i < j {
      ContinuationRun(s, i + 1, j);
    }
  }

  lemma FillRead(s: string, i: nat, fill: string, align: AlignKind)
    requires IsFill(fill) && align != NoAlign && align != Numeric && At(s, i, fill + AlignText(align))
    ensures AlignAt(s, i) == Parsed([Fill(fill), Align(align)], i + |fill| + 1) && s[i] != '}'
  {
    AtSplit(s, i, fill, AlignText(align));
    var j := i + |fill|;
    assert s[i] == s[i..j][0] && s[j] == s[j..j + 1][0];
    if s[i] as int / 128 % 2 != 0 {
      forall k | i < k < j
        ensures IsContinuation(s[k])
      {
        assert s[k] == s[i..j][k - i];
      }
      ContinuationRun(s, i + 1, j);
    }
    hide IsContinuation, ContinuationEnd;
    assert NextCodePoint(s, i) == j;
  }

  predicate IsPlain(c: char) {
    AlignOf(c) == NoAlign && c as int / 128 % 2 == 0
  }

  /** No part but the fill, the alignment and the type has other characters than these. */
  predicate Unaligned(text: string) {
    forall c :: c in text ==> IsPlain(c)
  }

  lemma WordPlain(c: char)
    requires IsDigit(c) || IsNameStart(c) || c == '{' || c == '}'
    ensures IsPlain(c)
  {
  }

  lemma DigitsUnaligned(n: nat)
    ensures Unaligned(ToDigits(n))
  {
    hide IsPlain, ToDigits;
    ToDigitsValue(n);
    forall c | c in ToDigits(n)
      ensures IsPlain(c)
    {
      WordPlain(c);
    }
  }

  lemma ArgUnaligned(arg: ArgId)
    requires ProperArg(arg)
    ensures Unaligned(ArgText(arg))
  {
    hide IsPlain, ToDigits;
    match arg {
      case Index(id) => DigitsUnaligned(id);
      case Name(name) =>
        forall c | c in name
          ensures IsPlain(c)
        {
          WordPlain(c);
        }
      case _ =>
    }
  }

  lemma AmountUnaligned(a: Amount)
    requires ProperAmount(a)
    ensures Unaligned(AmountText(a))
  {
    hide ArgText, ToDigits, ProperArg, IsPlain;
    match a {
      case Unset =>
      case Given(n) => DigitsUnaligned(n);
      case FromArg(arg) =>
        ArgUnaligned(arg);
        WordPlain('{');
        WordPlain('}');
    }
  }

  lemma UnalignedConcat(a: string, b: string)
    requires Unaligned(a) && Unaligned(b)
    ensures Unaligned(a + b)
  {
  }

  lemma BeforeUnaligned(spec: Spec)
    requires Proper(spec)
    ensures Unaligned(BeforeType(spec))
  {
    AmountUnaligned(spec.width);
    AmountUnaligned(spec.precision);
    assert Unaligned("") && Unaligned(".") && Unaligned("0") && Unaligned("#") && Unaligned(SignText(spec.sign));
    hide Unaligned, AmountText, SignText, Proper;
    var precision := if spec.precision == Unset then "" else "." + AmountText(spec.precision);
    var zero, hash := if spec.zero then "0" else "", if spec.hash then "#" else "";
    UnalignedConcat(".", AmountText(spec.precision));
    UnalignedConcat(AmountText(spec.width), precision);
    UnalignedConcat(zero, AmountText(spec.width) + precision);
    UnalignedConcat(hash, zero + (AmountText(spec.width) + precision));
    UnalignedConcat(SignText(spec.sign), hash + (zero + (AmountText(spec.width) + precision)));
  }

  /** The type follows what stands before it. */
  lemma TypeLast(spec: Spec)
    ensures SignedText(spec) == BeforeType(spec) + TypeText(spec)
  {
    hide AmountText, SignText, TypeText;
    var precision := if spec.precision == Unset then "" else "." + AmountText(spec.precision);
    var zero, hash := if spec.zero then "0" else "", if spec.hash then "#" else "";
    var width, kind := AmountText(spec.width), TypeText(spec);
    assert PrecisionText(spec) == precision + kind;
    Joined(width, precision, kind);
    assert ZeroText(spec) == zero + WidthText(spec) && HashText(spec) == hash + ZeroText(spec);
    Joined(zero, width + precision, kind);
    Joined(hash, zero + (width + precision), kind);
    Joined(SignText(spec.sign), hash + (zero + (width + precision)), kind);
  }

  lemma EndsInBrace(spec: Spec)
    ensures SignedText(spec) != "" && SignedText(spec)[|SignedText(spec)| - 1] == '}'
  {
    hide AmountText;
  }

  /** Before the type there are only such characters, and after it comes the closing brace. */
  lemma RestChar(s: string, i: nat, spec: Spec, k: nat)
    requires Proper(spec) && At(s, i, SignedText(spec)) && i <= k < i + |SignedText(spec)|
    ensures k < i + |BeforeType(spec)| ==> IsPlain(s[k])
    ensures k == i + |BeforeType(spec)| ==> s[k] == Head(spec)
    ensures k > i + |BeforeType(spec)| ==> s[k] == '}'
  {
    TypeLast(spec);
    BeforeUnaligned(spec);
    hide Proper, SignedText, BeforeType, IsPlain;
    var n := |BeforeType(spec)|;
    assert s[k] == s[i..i + |SignedText(spec)|][k - i];
    if k < i + n {
      assert SignedText(spec)[k - i] == BeforeType(spec)[k - i];
      assert BeforeType(spec)[k - i] in BeforeType(spec);
    } else {
      assert SignedText(spec)[k - i] == TypeText(spec)[k - i - n];
    }
  }

  /** The part behind fill and alignment. */
  lemma SignedRead(s: string, i: nat, spec: Spec)
    requires Proper(spec) && At(s, i, SignedText(spec))
    ensures i < |s| && AfterAlign(s, i) == Parsed(SignCalls(spec), i + |SignedText(spec)| - 1)
  {
    EndsInBrace(spec);
    SignRead(s, i, spec);
  }

  lemma NoAlignHere(s: string, i: nat)
    requires i + 1 < |s| && AlignOf(s[i]) == NoAlign && AlignOf(s[i + 1]) == NoAlign
    requires IsPlain(s[i]) || s[i + 1] == '}'
    ensures AlignAt(s, i) == Parsed([], i)
  {
  }

  lemma AlignHere(s: string, i: nat, align: AlignKind)
    requires i + 1 < |s| && |AlignText(align)| == 1 && s[i] == AlignText(align)[0] && AlignOf(s[i + 1]) == NoAlign
    ensures s[i] != '}' && AlignAt(s, i) == Parsed([Align(align)], i + 1)
  {
  }

  lemma Closing(s: string, i: nat)
    requires i < |s| && s[i] == '}'
    ensures AfterAlign(s, i) == Parsed([], i) == SpecsAt(s, i)
  {
  }

  lemma SpecsFrom(s: string, i: nat, head: seq<SpecCall>, j: nat, rest: seq<SpecCall>, end: nat,
                  all: seq<SpecCall>)
    requires i < |s| && s[i] != '}' && j < |s| && all == head + rest
    requires AlignAt(s, i) == Parsed(head, j) && AfterAlign(s, j) == Parsed(rest, end)
    ensures SpecsAt(s, i) == Parsed(all, end)
  {
    hide AlignAt, AfterAlign;
  }

  lemma NothingBefore(spec: Spec)
    requires spec.fill == "" && spec.align == NoAlign
    ensures SpecText(spec) == SignedText(spec) && SpecCalls(spec) == SignCalls(spec)
  {
    hide SignedText, SignCalls;
    assert "" + ("" + SignedText(spec)) == SignedText(spec);
    assert [] + ([] + SignCalls(spec)) == SignCalls(spec);
  }

  /** The first two characters are no fill and no alignment. */
  lemma FirstTwo(s: string, i: nat, spec: Spec)
    requires Proper(spec) && At(s, i, SignedText(spec)) && spec.fill == "" && i < |s| && s[i] != '}'
    requires spec.align == NoAlign
    ensures |SignedText(spec)| >= 2 && i + 1 < |s| && AlignAt(s, i) == Parsed([], i)
  {
    TypeLast(spec);
    hide BeforeType, SignedText, AlignAt;
    RestChar(s, i, spec, i);
    RestChar(s, i, spec, i + 1);
    NoAlignHere(s, i);
  }

  lemma PlainRead(s: string, i: nat, spec: Spec)
    requires Proper(spec) && At(s, i, SpecText(spec)) && spec.fill == "" && spec.align == NoAlign
    ensures SpecsAt(s, i) == Parsed(SpecCalls(spec), i + |SpecText(spec)| - 1)
  {
    hide Proper, SignedText, SignCalls, SpecText, SpecCalls, AfterAlign, AlignAt, AlignOf, SpecsAt;
    NothingBefore(spec);
    EndsInBrace(spec);
    SignRead(s, i, spec);
    if s[i] == '}' {
      Closing(s, i);
    } else {
      FirstTwo(s, i, spec);
      assert [] + SignCalls(spec) == SignCalls(spec);
      SpecsFrom(s, i, [], i, SignCalls(spec), i + |SignedText(spec)| - 1, SpecCalls(spec));
    }
  }

  lemma OnlyAlignBefore(spec: Spec)
    requires spec.fill == "" && spec.align != NoAlign
    ensures SpecText(spec) == AlignText(spec.align) + SignedText(spec)
  {
    hide SignedText, AlignText;
    assert "" + (AlignText(spec.align) + SignedText(spec)) == AlignText(spec.align) + SignedText(spec);
  }

  lemma OnlyAlignCalls(spec: Spec)
    requires spec.fill == "" && spec.align != NoAlign
    ensures SpecCalls(spec) == [Align(spec.align)] + SignCalls(spec)
  {
    hide SignCalls;
    assert [] + ([Align(spec.align)] + SignCalls(spec)) == [Align(spec.align)] + SignCalls(spec);
  }

  /** Behind an alignment without a fill there is no second one. */
  lemma NoSecond(s: string, i: nat, spec: Spec)
    requires Proper(spec) && At(s, i, SignedText(spec)) && spec.fill == "" && spec.align != NoAlign
    ensures i < |s| && AlignOf(s[i]) == NoAlign
  {
    TypeLast(spec);
    hide BeforeType, SignedText;
    RestChar(s, i, spec, i);
  }

  lemma AlignBefore(s: string, i: nat, spec: Spec)
    requires Proper(spec) && At(s, i, SpecText(spec)) && spec.fill == "" && spec.align != NoAlign
    ensures |SpecText(spec)| == 1 + |SignedText(spec)| && At(s, i + 1, SignedText(spec))
    ensures i < |s| && s[i] != '}' && AlignAt(s, i) == Parsed([Align(spec.align)], i + 1)
  {
    assert |AlignText(spec.align)| == 1;
    hide *;
    OnlyAlignBefore(spec);
    AtSplit(s, i, AlignText(spec.align), SignedText(spec));
    AtFirst(s, i, AlignText(spec.align));
    NoSecond(s, i + 1, spec);
    AlignHere(s, i, spec.align);
  }

  lemma AlignedRead(s: string, i: nat, spec: Spec)
    requires Proper(spec) && At(s, i, SpecText(spec)) && spec.fill == "" && spec.align != NoAlign
    ensures SpecsAt(s, i) == Parsed(SpecCalls(spec), i + |SpecText(spec)| - 1)
  {
    hide *;
    AlignBefore(s, i, spec);
    SignedRead(s, i + 1, spec);
    OnlyAlignCalls(spec);
    SpecsFrom(s, i, [Align(spec.align)], i + 1, SignCalls(spec), i + |SignedText(spec)|, SpecCalls(spec));
  }

  lemma FillBefore(s: string, i: nat, spec: Spec)
    requires spec.fill != "" && spec.align != NoAlign && spec.align != Numeric && At(s, i, SpecText(spec))
    ensures At(s, i, spec.fill + AlignText(spec.align)) && At(s, i + |spec.fill| + 1, SignedText(spec))
    ensures |SpecText(spec)| == |spec.fill| + 1 + |SignedText(spec)|
  {
    assert |AlignText(spec.align)| == 1;
    hide SignedText, AlignText, At;
    var fill, align, rest := spec.fill, AlignText(spec.align), SignedText(spec);
    Joined(fill, align, rest);
    AtSplit(s, i, fill + align, rest);
  }

  function FillHead(spec: Spec): seq<SpecCall> {
    [Fill(spec.fill), Align(spec.align)]
  }

  lemma FillCalls(spec: Spec)
    requires spec.fill != "" && spec.align != NoAlign
    ensures SpecCalls(spec) == FillHead(spec) + SignCalls(spec)
  {
    hide SignCalls;
    assert [Fill(spec.fill)] + ([Align(spec.align)] + SignCalls(spec))
        == [Fill(spec.fill), Align(spec.align)] + SignCalls(spec);
  }

  lemma HeadRead(s: string, i: nat, spec: Spec)
    requires Proper(spec) && At(s, i, SpecText(spec)) && spec.fill != ""
    ensures i < |s| && s[i] != '}' && spec.align != NoAlign
    ensures AlignAt(s, i) == Parsed(FillHead(spec), i + |spec.fill| + 1)
    ensures At(s, i + |spec.fill| + 1, SignedText(spec))
    ensures |SpecText(spec)| == |spec.fill| + 1 + |SignedText(spec)|
  {
    assert IsFill(spec.fill) && spec.align != NoAlign && spec.align != Numeric;
    hide Proper, TypeFits, SignedText, SpecText, AlignAt, AlignText, IsFill, At;
    FillBefore(s, i, spec);
    FillRead(s, i, spec.fill, spec.align);
  }

  lemma FilledRead(s: string, i: nat, spec: Spec)
    requires Proper(spec) && At(s, i, SpecText(spec)) && spec.fill != ""
    ensures SpecsAt(s, i) == Parsed(SpecCalls(spec), i + |SpecText(spec)| - 1)
  {
    hide *;
    HeadRead(s, i, spec);
    var j := i + |spec.fill| + 1;
    SignedRead(s, j, spec);
    FilledSpecs(s, i, spec, j, j + |SignedText(spec)| - 1);
  }

  lemma FilledSpecs(s: string, i: nat, spec: Spec, j: nat, end: nat)
    requires i < |s| && s[i] != '}' && j < |s| && spec.fill != "" && spec.align != NoAlign
    requires AlignAt(s, i) == Parsed(FillHead(spec), j) && AfterAlign(s, j) == Parsed(SignCalls(spec), end)
    ensures SpecsAt(s, i) == Parsed(SpecCalls(spec), end)
  {
    hide *;
    FillCalls(spec);
    SpecsFrom(s, i, FillHead(spec), j, SignCalls(spec), end, SpecCalls(spec));
  }

  /** Specifiers, however composed, are read back as the calls that they stand for. */
  lemma SpecRoundTrip(s: string, i: nat, spec: Spec)
    requires Proper(spec) && At(s, i, SpecText(spec))
    ensures SpecsAt(s, i) == Parsed(SpecCalls(spec), i + |SpecText(spec)| - 1)
  {
    hide Proper, SpecText, SpecCalls, SpecsAt, At;
    if spec.fill != "" {
      FilledRead(s, i, spec);
    } else if spec.align != NoAlign {
      AlignedRead(s, i, spec);
    } else {
      PlainRead(s, i, spec);
    }
  }
}
