// UTF-8 (section 4 of RFC 3629) and the validator in lib/common.c.
module Utf8 {
  import opened Wrappers
  import opened Bytes

  // Unicode scalar values: code points without the surrogates.
  predicate IsScalar(c: nat) {
    c < 0xD800 || 0xE000 <= c <= 0x10FFFF
  }

  predicate AllScalars(cs: seq<nat>) {
    forall i :: 0 <= i < |cs| ==> IsScalar(cs[i])
  }

  // The encoding of one code point. It is also defined for surrogates, since the JSON
  // parser encodes first and leaves the range check to the validator.
  function EncodeScalar(c: nat): (s: bytes)
    requires c <= 0x10FFFF
    ensures 1 <= |s| <= 4
  {
    if c <= 0x7F then [c]
    else if c <= 0x7FF then [0xC0 + c / 64, 0x80 + c % 64]
    else if c <= 0xFFFF then [0xE0 + c / 64 / 64, 0x80 + c / 64 % 64, 0x80 + c % 64]
    else [0xF0 + c / 64 / 64 / 64, 0x80 + c / 64 / 64 % 64, 0x80 + c / 64 % 64, 0x80 + c % 64]
  }

  function EncodeScalars(cs: seq<nat>): bytes
    requires AllScalars(cs)
  {
    if cs == [] then [] else EncodeScalar(cs[0]) + EncodeScalars(cs[1..])
  }

  predicate IsContinuation(b: byte) {
    0x80 <= b < 0xC0
  }

  // The scalar value at the front of s and the length of its encoding.
  function DecodeOne(s: bytes): (r: Option<(nat, nat)>)
    ensures r.Some? ==> 1 <= r.value.1 <= |s|
  {
    if s == [] then None
    else if s[0] < 0x80 then Some((s[0], 1))
    else if 0xC0 <= s[0] < 0xE0 && |s| >= 2 && IsContinuation(s[1]) then
      var c := Join(s[0] - 0xC0, s[1]);
      if c >= 0x80 then Some((c, 2)) else None
    else if 0xE0 <= s[0] < 0xF0 && |s| >= 3 && IsContinuation(s[1]) && IsContinuation(s[2]) then
      var c := Join(Join(s[0] - 0xE0, s[1]), s[2]);
      if c >= 0x800 && IsScalar(c) then Some((c, 3)) else None
    else if 0xF0 <= s[0] < 0xF8 && |s| >= 4
            && IsContinuation(s[1]) && IsContinuation(s[2]) && IsContinuation(s[3]) then
      var c := Join(Join(Join(s[0] - 0xF0, s[1]), s[2]), s[3]);
      if c >= 0x10000 && IsScalar(c) then Some((c, 4)) else None
    else None
  }

  // Appends the six bits of a continuation byte.
  function Join(high: nat, b: byte): nat
    requires IsContinuation(b)
  {
    64 * high + (b - 0x80)
  }

  lemma {:induction false} JoinSplits(high: nat, b: byte)
    requires IsContinuation(b)
    ensures Join(high, b) / 64 == high && 0x80 + Join(high, b) % 64 == b
  {
  }

  lemma {:induction false} SplitJoins(c: nat)
    ensures Join(c / 64, 0x80 + c % 64) == c
  {
  }

  predicate ValidUtf8(s: bytes)
    decreases |s|
  {
    s == [] || (DecodeOne(s).Some? && ValidUtf8(s[DecodeOne(s).value.1..]))
  }

  function DecodeScalars(s: bytes): (cs: seq<nat>)
    requires ValidUtf8(s)
    decreases |s|
  {
    if s == [] then [] else
      var (c, n) := DecodeOne(s).value;
      [c] + DecodeScalars(s[n..])
  }

  lemma {:induction false} DecodeOneEncode(c: nat, rest: bytes)
    requires IsScalar(c)
    ensures DecodeOne(EncodeScalar(c) + rest) == Some((c, |EncodeScalar(c)|))
  {
    SplitJoins(c);
    SplitJoins(c / 64);
    SplitJoins(c / 64 / 64);
    assert forall i :: 0 <= i < |EncodeScalar(c)| ==> (EncodeScalar(c) + rest)[i] == EncodeScalar(c)[i];
    hide Join;
  }

  lemma {:induction false} EncodeDecodeOne(s: bytes)
    requires DecodeOne(s).Some?
    ensures IsScalar(DecodeOne(s).value.0)
    ensures EncodeScalar(DecodeOne(s).value.0) == s[..DecodeOne(s).value.1]
  {
    var (c, n) := DecodeOne(s).value;
    if n == 2 {
      JoinSplits(s[0] - 0xC0, s[1]);
    } else if n == 3 {
      var d := Join(s[0] - 0xE0, s[1]);
      JoinSplits(s[0] - 0xE0, s[1]);
      JoinSplits(d, s[2]);
    } else if n == 4 {
      var d := Join(s[0] - 0xF0, s[1]);
      JoinSplits(s[0] - 0xF0, s[1]);
      JoinSplits(d, s[2]);
      JoinSplits(Join(d, s[2]), s[3]);
    }
  }

  lemma {:induction false} EncodeScalarsCons(c: nat, cs: seq<nat>)
    requires IsScalar(c) && AllScalars(cs)
    ensures AllScalars([c] + cs) && EncodeScalars([c] + cs) == EncodeScalar(c) + EncodeScalars(cs)
  {
    assert ([c] + cs)[1..] == cs;
  }

  lemma {:induction false} EncodeDecode(s: bytes)
    requires ValidUtf8(s)
    ensures AllScalars(DecodeScalars(s)) && EncodeScalars(DecodeScalars(s)) == s
    decreases |s|
  {
    if s != [] {
      var (c, n) := DecodeOne(s).value;
      EncodeDecodeOne(s);
      EncodeDecode(s[n..]);
      EncodeScalarsCons(c, DecodeScalars(s[n..]));
    }
  }

  lemma {:induction false} DecodeEncode(cs: seq<nat>)
    requires AllScalars(cs)
    ensures ValidUtf8(EncodeScalars(cs)) && DecodeScalars(EncodeScalars(cs)) == cs
  {
    if cs != [] {
      var s, n := EncodeScalars(cs), |EncodeScalar(cs[0])|;
      DecodeOneEncode(cs[0], EncodeScalars(cs[1..]));
      DecodeEncode(cs[1..]);
      assert s[n..] == EncodeScalars(cs[1..]);
    }
  }

  ghost predicate EncodesScalars(s: bytes) {
    exists cs :: AllScalars(cs) && EncodeScalars(cs) == s
  }

  // Valid means: the encoding of some sequence of scalar values.
  lemma {:induction false} ValidIsEncoding(s: bytes)
    ensures ValidUtf8(s) <==> EncodesScalars(s)
  {
    if ValidUtf8(s) {
      EncodeDecode(s);
    }
    if EncodesScalars(s) {
      var cs :| AllScalars(cs) && EncodeScalars(cs) == s;
      DecodeEncode(cs);
    }
  }

  // No text has two readings.
  lemma {:induction false} DecodingIsUnique(cs: seq<nat>, ds: seq<nat>)
    requires AllScalars(cs) && AllScalars(ds) && EncodeScalars(cs) == EncodeScalars(ds)
    ensures cs == ds
  {
    DecodeEncode(cs);
    DecodeEncode(ds);
  }

  lemma {:induction false} DecodeOnePrefix(a: bytes, b: bytes)
    requires DecodeOne(a).Some?
    ensures DecodeOne(a + b) == DecodeOne(a)
  {
    var n := DecodeOne(a).value.1;
    assert forall i :: 0 <= i < n ==> (a + b)[i] == a[i];
  }

  // A valid text can be cut off the front without changing the verdict on the rest.
  lemma {:induction false} ValidConcat(a: bytes, b: bytes)
    requires ValidUtf8(a)
    ensures ValidUtf8(a + b) <==> ValidUtf8(b)
    decreases |a|
  {
    if a == [] {
      assert a + b == b;
    } else {
      var n := DecodeOne(a).value.1;
      DecodeOnePrefix(a, b);
      ValidConcat(a[n..], b);
      assert (a + b)[n..] == a[n..] + b;
    }
  }

  // _bijson_check_valid_utf8. Bit masks on a byte are written as quotients and remainders:
  // c & 0xE0 == 0xC0 is c / 32 == 6, c & 0x30 is c / 16 % 4, and so on.
  method CheckValidUtf8(s: bytes) returns (status: Status)
    ensures status == if ValidUtf8(s) then Success else Failure(InvalidUtf8)
  {
    var pos := 0;
    while pos != |s|
      invariant 0 <= pos <= |s|
      invariant ValidUtf8(s) <==> ValidUtf8(s[pos..])
    {
      ghost var rest := s[pos..];
      var length := CheckOne(s, pos);
      if length == 0 {
        return Failure(InvalidUtf8);
      }
      assert rest[length..] == s[pos + length..];
      pos := pos + length;
    }
    return Success;
  }

  // One round of the validator's loop: the length of the sequence at pos, or 0 on an error.
  method CheckOne(s: bytes, pos: nat) returns (length: nat)
    requires pos < |s|
    ensures length == LengthOfOne(s[pos..])
  {
    hide DecodeOne;
    var c := s[pos];
    if c / 128 == 0 {
      OneByteForm(s[pos..]);
      return 1;
    }
    if c / 32 == 6 {
      length := CheckTwo(s, pos);
    } else if c / 16 == 14 {
      length := CheckThree(s, pos);
    } else if c / 8 == 30 {
      length := CheckFour(s, pos);
    } else {
      OneByteForm(s[pos..]);
      return 0;
    }
  }

  function LengthOfOne(s: bytes): nat {
    if DecodeOne(s).Some? then DecodeOne(s).value.1 else 0
  }

  lemma {:induction false} OneByteForm(s: bytes)
    requires s != []
    ensures s[0] < 0x80 ==> LengthOfOne(s) == 1
    ensures 0x80 <= s[0] < 0xC0 || s[0] >= 0xF8 ==> LengthOfOne(s) == 0
  {
  }

  // What a sequence of two, three or four bytes must look like.
  lemma {:induction false} TwoByteForm(s: bytes)
    requires s != [] && 0xC0 <= s[0] < 0xE0
    ensures LengthOfOne(s) == if s[0] >= 0xC2 && |s| >= 2 && IsContinuation(s[1]) then 2 else 0
  {
  }

  lemma {:induction false} ThreeByteForm(s: bytes)
    requires s != [] && 0xE0 <= s[0] < 0xF0
    ensures LengthOfOne(s) ==
      if |s| >= 3 && IsContinuation(s[1]) && IsContinuation(s[2])
         && !(s[0] == 0xE0 && s[1] < 0xA0) && !(s[0] == 0xED && s[1] >= 0xA0) then 3 else 0
  {
    if |s| >= 3 && IsContinuation(s[1]) && IsContinuation(s[2]) {
      var c := Join(Join(s[0] - 0xE0, s[1]), s[2]);
      assert c >= 0x800 <==> !(s[0] == 0xE0 && s[1] < 0xA0);
      assert IsScalar(c) <==> !(s[0] == 0xED && s[1] >= 0xA0);
    }
  }

  lemma {:induction false} FourByteForm(s: bytes)
    requires s != [] && 0xF0 <= s[0] < 0xF8
    ensures LengthOfOne(s) ==
      if |s| >= 4 && IsContinuation(s[1]) && IsContinuation(s[2]) && IsContinuation(s[3])
         && !(s[0] == 0xF0 && s[1] < 0x90) && (s[0] < 0xF4 || (s[0] == 0xF4 && s[1] < 0x90)) then 4 else 0
  {
    if |s| >= 4 && IsContinuation(s[1]) && IsContinuation(s[2]) && IsContinuation(s[3]) {
      var c := Join(Join(Join(s[0] - 0xF0, s[1]), s[2]), s[3]);
      assert c >= 0x10000 <==> !(s[0] == 0xF0 && s[1] < 0x90);
      assert c >= 0x10000 ==> (IsScalar(c) <==> s[0] < 0xF4 || (s[0] == 0xF4 && s[1] < 0x90));
    }
  }

  method CheckTwo(s: bytes, pos: nat) returns (length: nat)
    requires pos < |s| && s[pos] / 32 == 6
    ensures length == LengthOfOne(s[pos..])
  {
    hide DecodeOne, LengthOfOne;
    TwoByteForm(s[pos..]);
    var end, c := |s|, s[pos];
    var p := pos + 1;
    if c / 2 % 16 == 0 { return 0; }            // could be one byte
    if p == end { return 0; }                   // cut off
    if s[p] / 64 != 2 { return 0; }             // the tail has a wrong form
    return 2;
  }

  method CheckThree(s: bytes, pos: nat) returns (length: nat)
    requires pos < |s| && s[pos] / 16 == 14
    ensures length == LengthOfOne(s[pos..])
  {
    hide DecodeOne, LengthOfOne;
    ThreeByteForm(s[pos..]);
    var end, c := |s|, s[pos];
    var p := pos + 1;
    if p == end { return 0; }
    var c2 := s[p];
    p := p + 1;
    if c2 / 64 != 2 { return 0; }
    if c % 16 == 0 && c2 / 16 % 4 == 0 { return 0; }
    if c == 0xE0 && c2 / 32 % 2 == 0 { return 0; }
    if c == 0xED && c2 / 32 % 2 == 1 { return 0; } // half of a pair
    if p == end { return 0; }
    if s[p] / 64 != 2 { return 0; }
    return 3;
  }

  method CheckFour(s: bytes, pos: nat) returns (length: nat)
    requires pos < |s| && s[pos] / 8 == 30
    ensures length == LengthOfOne(s[pos..])
  {
    hide DecodeOne, LengthOfOne;
    FourByteForm(s[pos..]);
    var end, c := |s|, s[pos];
    var p := pos + 1;
    if p == end { return 0; }
    var c2 := s[p];
    p := p + 1;
    if c2 / 64 != 2 { return 0; }
    if c % 8 == 0 && c2 / 16 % 4 == 0 { return 0; }
    if c == 0xF4 {
      if c2 / 16 % 4 != 0 { return 0; }         // above 0x10FFFF
    } else if c / 4 % 4 != 0 {
      return 0;
    }
    if p == end { return 0; }
    if s[p] / 64 != 2 { return 0; }
    p := p + 1;
    if p == end { return 0; }
    if s[p] / 64 != 2 { return 0; }
    return 4;
  }
}
