/** fmt's branchless UTF-8 decoder and the conversion to UTF-16 built on it. */
module Utf8 {
  import opened Options

  type byte = bv8

  /** A code point with its length in bytes; `error` is zero when there was none. */
  datatype Decoded = Decoded(cp: bv32, error: bv32, next: nat)

  /** `lengths[s[0] >> 3]` */
  function Length(s0: byte): (len: nat)
    ensures len <= 4
  {
    var i := s0 >> 3;
    if i < 16 then 1 else if i < 24 then 0 else if i < 28 then 2 else if i < 30 then 3
    else if i < 31 then 4 else 0
  }

  /** fmt's `utf8_decode`, which always looks at four bytes. */
  function Decode(s0: byte, s1: byte, s2: byte, s3: byte): Decoded {
    var len := Length(s0);
    var mask: byte := if len == 0 then 0x00 else if len == 1 then 0x7f else if len == 2 then 0x1f
                      else if len == 3 then 0x0f else 0x07;
    var least: bv32 := if len == 0 then 4194304 else if len == 1 then 0 else if len == 2 then 128
                       else if len == 3 then 2048 else 65536;
    var all := ((s0 & mask) as bv32 << 18) | ((s1 & 0x3f) as bv32 << 12)
               | ((s2 & 0x3f) as bv32 << 6) | (s3 & 0x3f) as bv32;
    var c := if len == 1 then all >> 18 else if len == 2 then all >> 12
             else if len == 3 then all >> 6 else all;
    var e := (if c < least then 1 << 6 else 0)
             | (if c >> 11 == 0x1b then 1 << 7 else 0)
             | (if c > 0x10FFFF then 1 << 8 else 0)
             | ((s1 & 0xc0) as bv32 >> 2)
             | ((s2 & 0xc0) as bv32 >> 4)
             | (s3 as bv32 >> 6);
    var x: bv32 := e ^ 0x2a;
    var error := if len == 1 then x >> 6 else if len == 2 then x >> 4
                 else if len == 3 then x >> 2 else x;
    Decoded(c, error, if len == 0 then 1 else len)
  }

  // The encodings themselves.

  /** Unicode scalar values: no surrogates. */
  predicate IsScalar(c: bv32) {
    c <= 0x10FFFF && !(0xD800 <= c <= 0xDFFF)
  }

  /** Section 3 of RFC 3629. */
  function Encode(c: bv32): (s: seq<byte>)
    requires IsScalar(c)
    ensures 1 <= |s| <= 4
  {
    if c < 0x80 then [c as byte]
    else if c < 0x800 then [(0xc0 | (c >> 6)) as byte, (0x80 | (c & 0x3f)) as byte]
    else if c < 0x10000 then
      [(0xe0 | (c >> 12)) as byte, (0x80 | ((c >> 6) & 0x3f)) as byte, (0x80 | (c & 0x3f)) as byte]
    else
      [(0xf0 | (c >> 18)) as byte, (0x80 | ((c >> 12) & 0x3f)) as byte,
       (0x80 | ((c >> 6) & 0x3f)) as byte, (0x80 | (c & 0x3f)) as byte]
  }

  lemma SoundOne(s0: byte, s1: byte, s2: byte, s3: byte)
    requires Length(s0) == 1 && Decode(s0, s1, s2, s3).error == 0
    ensures var c := Decode(s0, s1, s2, s3).cp; c < 0x80 && c as byte == s0 && Decode(s0, s1, s2, s3).next == 1
  {
  }

  lemma SoundTwo(s0: byte, s1: byte, s2: byte, s3: byte)
    requires Length(s0) == 2 && Decode(s0, s1, s2, s3).error == 0
    ensures var c := Decode(s0, s1, s2, s3).cp;
            0x80 <= c < 0x800 && (0xc0 | (c >> 6)) as byte == s0 && (0x80 | (c & 0x3f)) as byte == s1
    ensures Decode(s0, s1, s2, s3).next == 2
  {
  }

  lemma SoundThree(s0: byte, s1: byte, s2: byte, s3: byte)
    requires Length(s0) == 3 && Decode(s0, s1, s2, s3).error == 0
    ensures var c := Decode(s0, s1, s2, s3).cp;
            && 0x800 <= c < 0x10000 && !(0xD800 <= c <= 0xDFFF) && (0xe0 | (c >> 12)) as byte == s0
            && (0x80 | ((c >> 6) & 0x3f)) as byte == s1 && (0x80 | (c & 0x3f)) as byte == s2
    ensures Decode(s0, s1, s2, s3).next == 3
  {
  }

  lemma SoundFour(s0: byte, s1: byte, s2: byte, s3: byte)
    requires Length(s0) == 4 && Decode(s0, s1, s2, s3).error == 0
    ensures var c := Decode(s0, s1, s2, s3).cp;
            && 0x10000 <= c <= 0x10FFFF && (0xf0 | (c >> 18)) as byte == s0
            && (0x80 | ((c >> 12) & 0x3f)) as byte == s1
            && (0x80 | ((c >> 6) & 0x3f)) as byte == s2 && (0x80 | (c & 0x3f)) as byte == s3
    ensures Decode(s0, s1, s2, s3).next == 4
  {
  }

  lemma NoLengthZero(s0: byte, s1: byte, s2: byte, s3: byte)
    requires Length(s0) == 0
    ensures Decode(s0, s1, s2, s3).error != 0
  {
  }

  lemma FirstBytes(s0: byte, s1: byte, s2: byte, s3: byte)
    ensures var s := [s0, s1, s2, s3];
            s[..1] == [s0] && s[..2] == [s0, s1] && s[..3] == [s0, s1, s2] && s[..4] == s
  {
  }

  lemma AcceptOne(s0: byte, s1: byte, s2: byte, s3: byte)
    requires Length(s0) == 1 && Decode(s0, s1, s2, s3).error == 0
    ensures var d := Decode(s0, s1, s2, s3); IsScalar(d.cp) && d.next == 1 && Encode(d.cp) == [s0]
  {
    hide Decode, Length;
    SoundOne(s0, s1, s2, s3);
  }

  lemma AcceptTwo(s0: byte, s1: byte, s2: byte, s3: byte)
    requires Length(s0) == 2 && Decode(s0, s1, s2, s3).error == 0
    ensures var d := Decode(s0, s1, s2, s3); IsScalar(d.cp) && d.next == 2 && Encode(d.cp) == [s0, s1]
  {
    hide Decode, Length;
    SoundTwo(s0, s1, s2, s3);
  }

  lemma AcceptThree(s0: byte, s1: byte, s2: byte, s3: byte)
    requires Length(s0) == 3 && Decode(s0, s1, s2, s3).error == 0
    ensures var d := Decode(s0, s1, s2, s3); IsScalar(d.cp) && d.next == 3 && Encode(d.cp) == [s0, s1, s2]
  {
    hide Decode, Length;
    SoundThree(s0, s1, s2, s3);
  }

  lemma AcceptFour(s0: byte, s1: byte, s2: byte, s3: byte)
    requires Length(s0) == 4 && Decode(s0, s1, s2, s3).error == 0
    ensures var d := Decode(s0, s1, s2, s3); IsScalar(d.cp) && d.next == 4 && Encode(d.cp) == [s0, s1, s2, s3]
  {
    hide Decode, Length, Encode, IsScalar;
    SoundFour(s0, s1, s2, s3);
    EncodeFour(Decode(s0, s1, s2, s3).cp, s0, s1, s2, s3);
  }

  lemma EncodeFour(c: bv32, s0: byte, s1: byte, s2: byte, s3: byte)
    requires 0x10000 <= c <= 0x10FFFF && (0xf0 | (c >> 18)) as byte == s0
    requires (0x80 | ((c >> 12) & 0x3f)) as byte == s1
    requires (0x80 | ((c >> 6) & 0x3f)) as byte == s2 && (0x80 | (c & 0x3f)) as byte == s3
    ensures IsScalar(c) && Encode(c) == [s0, s1, s2, s3]
  {
  }

  /** What is accepted is the encoding of the code point that is returned. */
  lemma DecodeSound(s0: byte, s1: byte, s2: byte, s3: byte)
    requires Decode(s0, s1, s2, s3).error == 0
    ensures var d := Decode(s0, s1, s2, s3);
            IsScalar(d.cp) && d.next <= 4 && Encode(d.cp) == [s0, s1, s2, s3][..d.next]
  {
    hide Decode, Length, Encode;
    var n := Length(s0);
    FirstBytes(s0, s1, s2, s3);
    if n == 0 {
      NoLengthZero(s0, s1, s2, s3);
    } else if n == 1 {
      AcceptOne(s0, s1, s2, s3);
    } else if n == 2 {
      AcceptTwo(s0, s1, s2, s3);
    } else if n == 3 {
      AcceptThree(s0, s1, s2, s3);
    } else {
      AcceptFour(s0, s1, s2, s3);
    }
  }

  lemma CompleteOne(c: bv32, s1: byte, s2: byte, s3: byte)
    requires c < 0x80
    ensures Decode(c as byte, s1, s2, s3) == Decoded(c, 0, 1)
  {
  }

  lemma CompleteTwo(c: bv32, s2: byte, s3: byte)
    requires 0x80 <= c < 0x800
    ensures Decode((0xc0 | (c >> 6)) as byte, (0x80 | (c & 0x3f)) as byte, s2, s3) == Decoded(c, 0, 2)
  {
  }

  lemma ThreeBytes(c: bv32, s0: byte, s1: byte, s2: byte, s3: byte)
    requires c < 0x10000 && s0 == (0xe0 | (c >> 12)) as byte
    requires s1 == (0x80 | ((c >> 6) & 0x3f)) as byte && s2 == (0x80 | (c & 0x3f)) as byte
    ensures Length(s0) == 3 && s1 & 0xc0 == 0x80 && s2 & 0xc0 == 0x80
    ensures c == ((s0 & 0x0f) as bv32 << 12) | ((s1 & 0x3f) as bv32 << 6) | (s2 & 0x3f) as bv32
  {
  }

  lemma JoinThree(s0: byte, s1: byte, s2: byte, s3: byte)
    ensures (((s0 & 0x0f) as bv32 << 18) | ((s1 & 0x3f) as bv32 << 12)
             | ((s2 & 0x3f) as bv32 << 6) | (s3 & 0x3f) as bv32) >> 6
         == ((s0 & 0x0f) as bv32 << 12) | ((s1 & 0x3f) as bv32 << 6) | (s2 & 0x3f) as bv32
  {
  }

  lemma PointThree(s0: byte, s1: byte, s2: byte, s3: byte)
    requires Length(s0) == 3
    ensures Decode(s0, s1, s2, s3).next == 3
    ensures Decode(s0, s1, s2, s3).cp
         == (((s0 & 0x0f) as bv32 << 18) | ((s1 & 0x3f) as bv32 << 12)
             | ((s2 & 0x3f) as bv32 << 6) | (s3 & 0x3f) as bv32) >> 6
  {
  }

  lemma ErrorThree(s0: byte, s1: byte, s2: byte, s3: byte)
    requires Length(s0) == 3 && s1 & 0xc0 == 0x80 && s2 & 0xc0 == 0x80
    requires var c := Decode(s0, s1, s2, s3).cp; 0x800 <= c < 0x10000 && !(0xD800 <= c <= 0xDFFF)
    ensures Decode(s0, s1, s2, s3).error == 0
  {
  }

  lemma CompleteThree(c: bv32, s0: byte, s1: byte, s2: byte, s3: byte)
    requires Length(s0) == 3 && s1 & 0xc0 == 0x80 && s2 & 0xc0 == 0x80
    requires c == ((s0 & 0x0f) as bv32 << 12) | ((s1 & 0x3f) as bv32 << 6) | (s2 & 0x3f) as bv32
    requires 0x800 <= c < 0x10000 && !(0xD800 <= c <= 0xDFFF)
    ensures Decode(s0, s1, s2, s3) == Decoded(c, 0, 3)
  {
    hide Decode, Length;
    PointThree(s0, s1, s2, s3);
    JoinThree(s0, s1, s2, s3);
    ErrorThree(s0, s1, s2, s3);
  }

  lemma FourBytes(c: bv32, s0: byte, s1: byte, s2: byte, s3: byte)
    requires c <= 0x10FFFF && s0 == (0xf0 | (c >> 18)) as byte
    requires s1 == (0x80 | ((c >> 12) & 0x3f)) as byte && s2 == (0x80 | ((c >> 6) & 0x3f)) as byte
    requires s3 == (0x80 | (c & 0x3f)) as byte
    ensures Length(s0) == 4 && s1 & 0xc0 == 0x80 && s2 & 0xc0 == 0x80 && s3 & 0xc0 == 0x80
    ensures c == ((s0 & 0x07) as bv32 << 18) | ((s1 & 0x3f) as bv32 << 12)
                 | ((s2 & 0x3f) as bv32 << 6) | (s3 & 0x3f) as bv32
  {
  }

  lemma PointFour(s0: byte, s1: byte, s2: byte, s3: byte)
    requires Length(s0) == 4
    ensures Decode(s0, s1, s2, s3).next == 4
    ensures Decode(s0, s1, s2, s3).cp
         == ((s0 & 0x07) as bv32 << 18) | ((s1 & 0x3f) as bv32 << 12)
            | ((s2 & 0x3f) as bv32 << 6) | (s3 & 0x3f) as bv32
  {
  }

  lemma ErrorFour(s0: byte, s1: byte, s2: byte, s3: byte)
    requires Length(s0) == 4 && s1 & 0xc0 == 0x80 && s2 & 0xc0 == 0x80 && s3 & 0xc0 == 0x80
    requires 0x10000 <= Decode(s0, s1, s2, s3).cp <= 0x10FFFF
    ensures Decode(s0, s1, s2, s3).error == 0
  {
  }

  lemma CompleteFour(c: bv32, s0: byte, s1: byte, s2: byte, s3: byte)
    requires Length(s0) == 4 && s1 & 0xc0 == 0x80 && s2 & 0xc0 == 0x80 && s3 & 0xc0 == 0x80
    requires c == ((s0 & 0x07) as bv32 << 18) | ((s1 & 0x3f) as bv32 << 12)
                  | ((s2 & 0x3f) as bv32 << 6) | (s3 & 0x3f) as bv32
    requires 0x10000 <= c <= 0x10FFFF
    ensures Decode(s0, s1, s2, s3) == Decoded(c, 0, 4)
  {
    hide Decode, Length;
    PointFour(s0, s1, s2, s3);
    ErrorFour(s0, s1, s2, s3);
  }

  /** Every encoding is accepted, whatever bytes follow it. */
  lemma DecodeComplete(c: bv32, s0: byte, s1: byte, s2: byte, s3: byte)
    requires IsScalar(c) && Encode(c) <= [s0, s1, s2, s3]
    ensures Decode(s0, s1, s2, s3) == Decoded(c, 0, |Encode(c)|)
  {
    var t := Encode(c);
    assert t[0] == s0 && (|t| > 1 ==> t[1] == s1) && (|t| > 2 ==> t[2] == s2) && (|t| > 3 ==> t[3] == s3);
    if c < 0x80 {
      CompleteOne(c, s1, s2, s3);
    } else if c < 0x800 {
      CompleteTwo(c, s2, s3);
    } else if c < 0x10000 {
      ThreeBytes(c, s0, s1, s2, s3);
      CompleteThree(c, s0, s1, s2, s3);
    } else {
      FourBytes(c, s0, s1, s2, s3);
      CompleteFour(c, s0, s1, s2, s3);
    }
  }

  // Whole strings.

  predicate AllScalars(cps: seq<bv32>) {
    forall i :: 0 <= i < |cps| ==> IsScalar(cps[i])
  }

  /** A string is valid UTF-8 when it is the encoding of some scalar values. */
  function EncodeAll(cps: seq<bv32>): seq<byte>
    requires AllScalars(cps)
  {
    if cps == [] then [] else Encode(cps[0]) + EncodeAll(cps[1..])
  }

  /** Section 2.1 of RFC 2781. */
  function Utf16(c: bv32): seq<bv16>
    requires IsScalar(c)
  {
    if c < 0x10000 then [c as bv16]
    else
      var u := c - 0x10000;
      [(0xD800 | (u >> 10)) as bv16, (0xDC00 | (u & 0x3FF)) as bv16]
  }

  function Utf16All(cps: seq<bv32>): seq<bv16>
    requires AllScalars(cps)
  {
    if cps == [] then [] else Utf16All(cps[..|cps| - 1]) + Utf16(cps[|cps| - 1])
  }


  /** The byte at position `i`, zero behind the end. */
  function At(s: seq<byte>, i: nat): byte {
    if i < |s| then s[i] else 0
  }

  function DecodeAt(s: seq<byte>, i: nat): Decoded {
    Decode(At(s, i), At(s, i + 1), At(s, i + 2), At(s, i + 3))
  }

  lemma TailNotZero(c: bv32, k: nat)
    requires IsScalar(c) && 1 <= k < |Encode(c)|
    ensures Encode(c)[k] != 0
  {
    var s := Encode(c);
    if |s| == 4 {
      ContinuationNotZero(c >> 12);
    }
    if |s| >= 3 {
      ContinuationNotZero(c >> 6);
    }
    ContinuationNotZero(c);
  }

  lemma ContinuationNotZero(x: bv32)
    ensures (0x80 | (x & 0x3f)) as byte != 0
  {
  }

  /** The zeros behind the end never complete a character. */
  lemma DecodeWithin(s: seq<byte>, i: nat)
    requires i < |s| && DecodeAt(s, i).error == 0
    ensures var d := DecodeAt(s, i);
            && IsScalar(d.cp) && 1 <= d.next && i + d.next <= |s|
            && Encode(d.cp) == s[i..i + d.next]
  {
    hide Decode, Encode, IsScalar;
    var d := DecodeAt(s, i);
    var block := [At(s, i), At(s, i + 1), At(s, i + 2), At(s, i + 3)];
    DecodeSound(block[0], block[1], block[2], block[3]);
    var t := Encode(d.cp);
    assert |t| == d.next && forall k :: 0 <= k < |t| ==> t[k] == block[k];
    if i + d.next > |s| {
      TailNotZero(d.cp, |s| - i);
    }
  }

  /** Decoding one character at a time from position `i`. */
  function Points(s: seq<byte>, i: nat): (r: Option<seq<bv32>>)
    requires i <= |s|
    ensures r.Some? ==> AllScalars(r.value)
    decreases |s| - i
  {
    if i == |s| then Some([])
    else
      var d := DecodeAt(s, i);
      if d.error != 0 then None
      else
        DecodeWithin(s, i);
        var rest := Points(s, i + d.next);
        if rest.None? then None else Some([d.cp] + rest.value)
  }

  lemma {:induction false} PointsSound(s: seq<byte>, i: nat)
    requires i <= |s| && Points(s, i).Some?
    ensures AllScalars(Points(s, i).value) && EncodeAll(Points(s, i).value) == s[i..]
    decreases |s| - i
  {
    hide Decode, Encode, IsScalar, DecodeAt;
    if i < |s| {
      var d := DecodeAt(s, i);
      DecodeWithin(s, i);
      PointsSound(s, i + d.next);
      var cps := Points(s, i).value;
      assert cps[1..] == Points(s, i + d.next).value;
      assert s[i..] == s[i..i + d.next] + s[i + d.next..];
    }
  }

  lemma {:induction false} PointsComplete(s: seq<byte>, i: nat, cps: seq<bv32>)
    requires i <= |s| && AllScalars(cps) && EncodeAll(cps) == s[i..]
    ensures Points(s, i) == Some(cps)
    decreases |cps|
  {
    hide Decode, Encode, IsScalar;
    if cps == [] {
    } else {
      var t := Encode(cps[0]);
      PrefixAt(s, i, t, EncodeAll(cps[1..]));
      DecodeComplete(cps[0], At(s, i), At(s, i + 1), At(s, i + 2), At(s, i + 3));
      PointsComplete(s, i + |t|, cps[1..]);
      assert [cps[0]] + cps[1..] == cps;
    }
  }

  lemma PrefixAt(s: seq<byte>, i: nat, t: seq<byte>, u: seq<byte>)
    requires i <= |s| && s[i..] == t + u && 1 <= |t| <= 4
    ensures i + |t| <= |s| && u == s[i + |t|..]
    ensures t <= [At(s, i), At(s, i + 1), At(s, i + 2), At(s, i + 3)]
  {
    assert forall k :: 0 <= k < |t| ==> s[i..][k] == t[k];
    assert s[i + |t|..] == s[i..][|t|..];
  }

  /** What the lambda `transcode` appends; the original adds where RFC 2781 joins bits. */
  method Transcode(c: bv32) returns (units: seq<bv16>)
    requires IsScalar(c)
    ensures units == Utf16(c)
  {
    if c <= 0xFFFF {
      units := [c as bv16];
    } else {
      hide IsScalar, Utf16;
      SurrogatesFit(c);
      var u := c - 0x10000;
      units := [(0xD800 + (u >> 10)) as bv16, (0xDC00 + (u & 0x3FF)) as bv16];
    }
  }

  lemma SurrogatesFit(c: bv32)
    requires IsScalar(c) && !(c <= 0xFFFF)
    ensures var u := c - 0x10000;
            && 0xD800 + (u >> 10) < 0x10000 && 0xDC00 + (u & 0x3FF) < 0x10000
            && Utf16(c) == [(0xD800 + (u >> 10)) as bv16, (0xDC00 + (u & 0x3FF)) as bv16]
  {
    var u := c - 0x10000;
    assert u <= 0xFFFFF;
    SumIsJoin(u);
  }

  lemma SumIsJoin(u: bv32)
    requires u <= 0xFFFFF
    ensures 0xD800 + (u >> 10) == 0xD800 | (u >> 10) && 0xD800 + (u >> 10) < 0x10000
    ensures 0xDC00 + (u & 0x3FF) == 0xDC00 | (u & 0x3FF) && 0xDC00 + (u & 0x3FF) < 0x10000
  {
  }

  /** What is left to decode from position `i`, after the characters `cps`. */
  ghost predicate Decoding(s: seq<byte>, i: nat, cps: seq<bv32>) {
    && i <= |s| && AllScalars(cps)
    && Points(s, 0) == var rest := Points(s, i); if rest.None? then None else Some(cps + rest.value)
  }

  lemma DecodingStart(s: seq<byte>)
    ensures Decoding(s, 0, []) && Utf16All([]) == []
  {
    var r := Points(s, 0);
    assert r.Some? ==> [] + r.value == r.value;
  }

  lemma DecodingEnd(s: seq<byte>, cps: seq<bv32>)
    requires Decoding(s, |s|, cps)
    ensures Points(s, 0) == Some(cps)
  {
    assert cps + [] == cps;
  }

  lemma DecodingStep(s: seq<byte>, i: nat, cps: seq<bv32>)
    requires Decoding(s, i, cps) && i < |s|
    ensures var d := DecodeAt(s, i);
            if d.error != 0 then Points(s, 0).None?
            else i + d.next <= |s| && d.next >= 1 && Decoding(s, i + d.next, cps + [d.cp])
                 && IsScalar(d.cp) && Utf16All(cps + [d.cp]) == Utf16All(cps) + Utf16(d.cp)
  {
    var d := DecodeAt(s, i);
    hide Decode, IsScalar, Utf16, DecodeAt;
    if d.error == 0 {
      DecodeWithin(s, i);
      assert (cps + [d.cp])[..|cps|] == cps;
      var rest := Points(s, i + d.next);
      if rest.Some? {
        assert cps + ([d.cp] + rest.value) == (cps + [d.cp]) + rest.value;
      }
    }
  }

  /** One call of `transcode` on a block of four bytes. */
  method TranscodeNext(s: seq<byte>, p: nat, block: seq<byte>, buffer: seq<bv16>, ghost cps: seq<bv32>)
    returns (ok: bool, p': nat, buffer': seq<bv16>, ghost cps': seq<bv32>)
    requires Decoding(s, p, cps) && buffer == Utf16All(cps) && p < |s| && |block| == 4
    requires block == [At(s, p), At(s, p + 1), At(s, p + 2), At(s, p + 3)]
    ensures !ok ==> Points(s, 0).None?
    ensures ok ==> p < p' <= |s| && Decoding(s, p', cps') && buffer' == Utf16All(cps')
  {
    hide Decode, IsScalar, Utf16, Utf16All, Points, Decoding;
    DecodingStep(s, p, cps);
    var d := Decode(block[0], block[1], block[2], block[3]);
    ok, p', buffer', cps' := d.error == 0, p, buffer, cps;
    if ok {
      var units := Transcode(d.cp);
      p', buffer', cps' := p + d.next, buffer + units, cps + [d.cp];
    }
  }

  /** The padded tail reads like the string itself, with zeros behind its end. */
  lemma Padded(s: seq<byte>, p: nat, buf: seq<byte>)
    requires p < |s| <= p + 3 && buf == s[p..] + [0, 0, 0, 0, 0, 0, 0][..7 - (|s| - p)]
    ensures |buf| == 7 && forall q: nat :: q < 7 ==> buf[q] == At(s, p + q)
  {
  }

  /** fmt's `utf8_to_utf16`: blocks of four bytes, then what is left, padded with zeros. */
  method Utf8ToUtf16(s: seq<byte>) returns (r: Option<seq<bv16>>)
    ensures r.None? <==> Points(s, 0).None?
    ensures r.Some? ==> r.value == Utf16All(Points(s, 0).value) + [0]
  {
    hide Decode, IsScalar, Utf16, Utf16All, Points;
    var p, buffer, ok := 0, [], true;
    ghost var cps := [];
    DecodingStart(s);
    if |s| >= 4 {
      var end := |s| - 3;
      while p < end
        invariant 0 <= p <= |s| && Decoding(s, p, cps) && buffer == Utf16All(cps)
        decreases end - p
      {
        ok, p, buffer, cps := TranscodeNext(s, p, [s[p], s[p + 1], s[p + 2], s[p + 3]], buffer, cps);
        if !ok {
          return None;
        }
      }
    }
    var left := |s| - p;
    if left != 0 {
      var buf := s[p..] + [0, 0, 0, 0, 0, 0, 0][..7 - left];
      Padded(s, p, buf);
      var q := 0;
      while q < left
        invariant 0 <= q <= left && Decoding(s, p + q, cps) && buffer == Utf16All(cps)
        decreases left - q
      {
        var p';
        ok, p', buffer, cps :=
          TranscodeNext(s, p + q, [buf[q], buf[q + 1], buf[q + 2], buf[q + 3]], buffer, cps);
        if !ok {
          return None;
        }
        q := p' - p;
      }
    }
    DecodingEnd(s, cps);
    return Some(buffer + [0]);
  }

  /** The conversion succeeds exactly for valid UTF-8, and then yields its UTF-16 encoding. */
  lemma ConvertsValid(s: seq<byte>)
    ensures Points(s, 0).Some? <==> exists cps :: AllScalars(cps) && EncodeAll(cps) == s
    ensures forall cps :: AllScalars(cps) && EncodeAll(cps) == s ==> Points(s, 0) == Some(cps)
  {
    assert s[0..] == s;
    if Points(s, 0).Some? {
      PointsSound(s, 0);
    }
    forall cps | AllScalars(cps) && EncodeAll(cps) == s
      ensures Points(s, 0) == Some(cps)
    {
      PointsComplete(s, 0, cps);
    }
  }
}
