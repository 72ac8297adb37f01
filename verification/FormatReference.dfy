/** A reference semantics of format strings that knows nothing of handlers: which argument each id
    names, what it is written as, and when there is an error instead. */
module FormatReference {
  import opened CompiledFormat
  import opened DecimalText
  import opened FormatCompiler
  import opened FormatMeaning
  import opened FormatSpecs
  import opened FormatString
  import opened FormatText
  import opened Joining
  import opened Options

  /** The argument that an id names, after `autos` automatic ones. */
  function ValueOf<V>(env: Env<V>, arg: ArgId, autos: nat): Option<V> {
    match arg
    case Auto => if autos < |env.args| then Some(env.args[autos]) else None
    case Index(id) => if id < |env.args| then Some(env.args[id]) else None
    case Name(name) =>
      if name in env.names && env.names[name] < |env.args| then Some(env.args[env.names[name]]) else None
    case BadArg(_) => None
  }

  function Autos(args: seq<ArgId>): nat {
    if args == [] then 0 else (if args[0] == Auto then 1 else 0) + Autos(args[1..])
  }

  /** A width or precision. */
  function AmountOf<V>(env: Env<V>, a: Amount, measure: V -> Option<nat>, unset: int, autos: nat): Option<int> {
    match a
    case Unset => Some(unset)
    case Given(n) => Some(n)
    case FromArg(arg) =>
      var v := ValueOf(env, arg, autos);
      if v.None? || measure(v.value).None? then None else Some(measure(v.value).value)
  }

  /** What an argument must allow for its specifiers. */
  predicate Permits<V>(env: Env<V>, v: V, spec: Spec) {
    && |spec.fill| <= 4
    && (spec.sign != NoSign ==> env.numeric(v) && env.signed(v))
    && (spec.hash || spec.zero ==> env.numeric(v))
    && (spec.precision != Unset ==> env.precise(v))
  }

  function LayoutFor<V>(env: Env<V>, v: V, spec: Spec, autos: nat): Option<Layout> {
    var width := AmountOf(env, spec.width, env.width, 0, autos);
    var precision := AmountOf(env, spec.precision, env.precision, -1, autos + Autos(AmountIds(spec.width)));
    if width.None? || precision.None? || !Permits(env, v, spec) then None
    else Some(Layout(width.value, precision.value, if spec.kind.Some? then spec.kind.value else '\0',
                     if spec.zero then Numeric else spec.align, spec.sign, spec.hash, FillOf(spec)))
  }

  /** What one piece is written as, after `autos` automatic ids. */
  function TextFor<V>(env: Env<V>, piece: Piece, autos: nat): Option<string> {
    if piece.Literal? then Some(piece.text)
    else
      var v := ValueOf(env, piece.arg, autos);
      if v.None? then None
      else if piece.Bare? then Some(env.plain(v.value))
      else
        var layout := LayoutFor(env, v.value, piece.spec, autos + Autos([piece.arg]));
        if layout.None? then None else env.render(v.value, layout.value)
  }

  function TextsFor<V>(env: Env<V>, pieces: seq<Piece>, autos: nat): Option<string> {
    if pieces == [] then Some("")
    else
      var first := TextFor(env, pieces[0], autos);
      var rest := TextsFor(env, pieces[1..], autos + Autos(PieceIds(pieces[0])));
      if first.None? || rest.None? then None else Some(first.value + rest.value)
  }

  /** The whole text; mixing automatic ids and numbers is an error. */
  ghost function Described<V>(env: Env<V>, pieces: seq<Piece>): Option<string> {
    if Auto in Ids(pieces) && HasIndex(Ids(pieces)) then None else TextsFor(env, pieces, 0)
  }

  // That the handlers follow it. Their next index is negative after a number.

  function Counted(next: int): nat {
    if next >= 0 then next else 0
  }

  /** The next index after some ids. */
  function After(args: seq<ArgId>, next: int): Option<int> {
    if args == [] then Some(next)
    else
      var r := Resolve(args[0], next);
      if r.None? then None else After(args[1..], r.value.next)
  }

  lemma {:induction false} AfterCounts(args: seq<ArgId>, next: int)
    ensures After(args, next).Some? ==> Counted(After(args, next).value) == Counted(next) + Autos(args)
    ensures After(args, next).Some? <==> ResolveAll(args, next).Some?
  {
    if args == [] {
    } else {
      var r := Resolve(args[0], next);
      if r.Some? {
        AfterCounts(args[1..], r.value.next);
      }
      AfterManual(args, next);
    }
  }

  /** After a number there are no automatic ids. */
  lemma {:induction false} AfterManual(args: seq<ArgId>, next: int)
    ensures next < 0 && After(args, next).Some? ==> Autos(args) == 0
  {
    if args == [] {
    } else {
      var r := Resolve(args[0], next);
      if r.Some? {
        AfterManual(args[1..], r.value.next);
      }
    }
  }

  lemma {:induction false} AfterConcat(a: seq<ArgId>, b: seq<ArgId>, next: int)
    ensures After(a + b, next) == if After(a, next).None? then None else After(b, After(a, next).value)
    ensures Autos(a + b) == Autos(a) + Autos(b)
  {
    if a == [] {
      assert a + b == b;
    } else {
      assert (a + b)[1..] == a[1..] + b;
      var r := Resolve(a[0], next);
      AfterConcat(a[1..], b, if r.Some? then r.value.next else 0);
    }
  }

  lemma AfterOne(arg: ArgId, next: int)
    ensures After([arg], next) == if Resolve(arg, next).None? then None else Some(Resolve(arg, next).value.next)
  {
    assert [arg][1..] == [];
  }

  /** A reference is looked up as the argument that its id names. */
  lemma RefersTo<V>(env: Env<V>, arg: ArgId, next: int)
    ensures Resolve(arg, next).Some? ==>
              Lookup(env, Resolve(arg, next).value.ref) == ValueOf(env, arg, Counted(next))
  {
  }

  /** In a whole string that is the argument with the number given, or the one that comes in turn. */
  lemma RefNames<V>(env: Env<V>, args: seq<ArgId>, i: nat)
    requires i < |args| && ProperArg(args[i])
    ensures Lookup(env, RefAt(args, i, 0)) == ValueOf(env, args[i], AutosBefore(args, i))
  {
  }

  lemma AmountAgrees<V>(env: Env<V>, a: Amount, measure: V -> Option<nat>, unset: int, next: int)
    ensures var amount, end := AmountOf(env, a, measure, unset, Counted(next)), After(AmountIds(a), next);
            Amounts(env, a, measure, unset, next) ==
            if amount.None? || end.None? then None else Some(Measure(amount.value, end.value))
  {
    if a.FromArg? {
      AfterOne(a.arg, next);
      RefersTo(env, a.arg, next);
    }
  }

  lemma LayoutAgrees<V>(env: Env<V>, v: V, spec: Spec, next: int)
    ensures var layout := LayoutFor(env, v, spec, Counted(next));
            var end := After(AmountIds(spec.width) + AmountIds(spec.precision), next);
            LayoutOf(env, v, spec, next) ==
            if layout.None? || end.None? then None else Some(Eager(layout.value, end.value))
  {
    AmountAgrees(env, spec.width, env.width, 0, next);
    AfterConcat(AmountIds(spec.width), AmountIds(spec.precision), next);
    AfterCounts(AmountIds(spec.width), next);
    var width := After(AmountIds(spec.width), next);
    if width.Some? {
      AmountAgrees(env, spec.precision, env.precision, -1, width.value);
    }
    hide After, Autos, AmountOf, Amounts, AmountIds;
  }

  lemma PieceAgrees<V>(env: Env<V>, piece: Piece, st: Direct)
    ensures var text, end := TextFor(env, piece, Counted(st.next)), After(PieceIds(piece), st.next);
            var st' := PieceMeans(env, piece, st);
            if text.None? || end.None? then st' == None
            else st'.Some? && st'.value.out == st.out + text.value && st'.value.next == end.value
  {
    if !piece.Literal? {
      AfterOne(piece.arg, st.next);
      RefersTo(env, piece.arg, st.next);
      AfterCounts([piece.arg], st.next);
      if piece.Full? && Resolve(piece.arg, st.next).Some? {
        var next := Resolve(piece.arg, st.next).value.next;
        var ids := AmountIds(piece.spec.width) + AmountIds(piece.spec.precision);
        AfterConcat([piece.arg], ids, st.next);
        var v := ValueOf(env, piece.arg, Counted(st.next));
        if v.Some? {
          LayoutAgrees(env, v.value, piece.spec, next);
        }
      } else if piece.Full? {
        AfterConcat([piece.arg], AmountIds(piece.spec.width) + AmountIds(piece.spec.precision), st.next);
      }
    }
    hide After, Autos, Resolve, LayoutOf, LayoutFor, AmountIds;
  }

  lemma NoneLeft(next: int)
    ensures After([], next) == Some(next)
  {
  }

  lemma {:induction false} MeansAgrees<V>(env: Env<V>, pieces: seq<Piece>, st: Direct)
    ensures var text := TextsFor(env, pieces, Counted(st.next));
            Means(env, pieces, st) ==
            if text.None? || After(Ids(pieces), st.next).None? then None else Some(st.out + text.value)
  {
    hide PieceMeans, TextFor, After, Autos, PieceIds;
    if pieces == [] {
      NoneLeft(st.next);
      assert st.out + "" == st.out;
    } else {
      var piece, rest := pieces[0], pieces[1..];
      PieceAgrees(env, piece, st);
      AfterConcat(PieceIds(piece), Ids(rest), st.next);
      AfterCounts(PieceIds(piece), st.next);
      var st' := PieceMeans(env, piece, st);
      if st'.Some? {
        MeansAgrees(env, rest, st'.value);
        var first, more := TextFor(env, piece, Counted(st.next)), TextsFor(env, rest, Counted(st'.value.next));
        if more.Some? {
          Joined(st.out, first.value, more.value);
        }
      }
    }
  }

  /** Formatting a written format string directly gives exactly what the reference describes. */
  lemma WrittenDescribed<V>(env: Env<V>, pieces: seq<Piece>)
    requires forall piece :: piece in pieces ==> ProperPiece(piece)
    ensures FormattedDirectly(env, Write(pieces)) == Described(env, pieces)
  {
    hide ProperPiece, ProperArg, Means, Write, FormattedDirectly, TextsFor, After, Autos, ResolveAll, HasIndex;
    WrittenMeans(env, pieces);
    MeansAgrees(env, pieces, DIRECT_START);
    IdsProper(pieces);
    Numbering(Ids(pieces));
    AfterCounts(Ids(pieces), 0);
    if TextsFor(env, pieces, 0).Some? {
      assert "" + TextsFor(env, pieces, 0).value == TextsFor(env, pieces, 0).value;
    }
  }

  /** So does compiling it and running the parts, with assertions on. */
  lemma CompiledDescribed<V>(env: Env<V>, pieces: seq<Piece>)
    requires env.asserts && forall piece :: piece in pieces ==> ProperPiece(piece)
    ensures Described(env, pieces) ==
            if Compiled(Write(pieces)).None? then None else PartsText(env, Compiled(Write(pieces)).value)
  {
    hide *;
    WrittenDescribed(env, pieces);
    WrittenMeans(env, pieces);
    CompiledMeans(env, pieces);
  }

  // Two format strings, letter by letter

  /** Two fields are written as the arguments in their order. */
  lemma TwoFields<V>(env: Env<V>)
    requires |env.args| == 2
    ensures FormattedDirectly(env, "{} {}") == Some(env.plain(env.args[0]) + (" " + env.plain(env.args[1])))
  {
    var pieces := [Bare(Auto), Literal(" "), Bare(Auto)];
    var a, b := env.plain(env.args[0]), env.plain(env.args[1]);
    assert pieces[1..] == [Literal(" "), Bare(Auto)] && pieces[1..][1..] == [Bare(Auto)] && [Bare(Auto)][1..] == [];
    assert Write(pieces) == "{} {}" by {
      assert Escape(" ") == " ";
      assert Write([Bare(Auto)]) == "{}";
      assert Write(pieces[1..]) == " {}";
    }
    assert Described(env, pieces) == Some(a + (" " + b)) by {
      NoNumbers();
      OneAuto();
      assert TextsFor(env, [Bare(Auto)], 1) == Some(b + "");
      assert b + "" == b;
      assert TextsFor(env, pieces[1..], 1) == Some(" " + b);
    }
    hide Write, Described;
    WrittenDescribed(env, pieces);
  }

  lemma OneAuto()
    ensures PieceIds(Bare(Auto)) == [Auto] && Autos([Auto]) == 1 && Autos([]) == 0
  {
  }

  lemma NoNumbers()
    ensures !HasIndex(Ids([Bare(Auto), Literal(" "), Bare(Auto)]))
  {
    var pieces := [Bare(Auto), Literal(" "), Bare(Auto)];
    assert pieces[1..][1..] == [Bare(Auto)] && [Bare(Auto)][1..] == [];
    assert Ids(pieces) == [Auto] + ([] + ([Auto] + []));
  }

  /** All parts of the specifiers, in their order. */
  lemma AllParts(s: string, i: nat)
    requires At(s, i, "*<+#012.3e}")
    ensures SpecsAt(s, i) == Parsed([Fill("*"), Align(Left), Sign(Plus), Hash, Zero, Width(12),
                                     Precision(3), EndPrecision, Type('e')], i + 10)
  {
    AllText();
    AllCalls();
    hide SpecText, SpecCalls, SpecsAt, At;
    SpecRoundTrip(s, i, ALL_PARTS);
  }

  const ALL_PARTS: Spec := Spec("*", Left, Plus, true, true, Given(12), Given(3), Some('e'))

  lemma AllText()
    ensures Proper(ALL_PARTS) && SpecText(ALL_PARTS) == "*<+#012.3e}"
  {
    var spec := ALL_PARTS;
    assert ToDigits(12) == ToDigits(1) + ['2'] == ['1'] + ['2'] && ToDigits(3) == ['3'];
    assert PrecisionText(spec) == "." + (['3'] + "e}") == ".3e}";
    assert WidthText(spec) == "12" + ".3e}" == "12.3e}";
    assert SignedText(spec) == "+" + ("#" + ("0" + "12.3e}")) == "+#012.3e}";
  }

  lemma AllCalls()
    ensures SpecCalls(ALL_PARTS) == [Fill("*"), Align(Left), Sign(Plus), Hash, Zero, Width(12),
                                     Precision(3), EndPrecision, Type('e')]
  {
    var spec := ALL_PARTS;
    assert WidthCalls(spec) == [Width(12)] + ([Precision(3), EndPrecision] + [Type('e')]);
    assert SignCalls(spec) == [Sign(Plus)] + ([Hash] + ([Zero] + WidthCalls(spec)));
    assert SpecCalls(spec) == [Fill("*")] + ([Align(Left)] + SignCalls(spec));
  }
}
