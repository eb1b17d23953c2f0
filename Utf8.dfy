/** The strict UTF-8 code point decoder of the value reader (RFC 3629, sections 3 and 4).

    Every malformed sequence yields the replacement code point U+FFFD instead of an
    error.  Consumption policy on malformed input: a byte that cannot start a sequence
    is consumed alone; for a multi-byte lead, the lead and the continuation bytes that
    follow it are consumed, and the first byte that is not a continuation byte is left
    in the input; a complete sequence that is overlong, a surrogate or above U+10FFFF
    is consumed whole. */
module Utf8 {
  import opened Bytes
  import opened Errors

  /** Text as the sequence of code points it decodes to. */
  type Str = seq<nat>

  /** U+FFFD REPLACEMENT CHARACTER. */
  const Replacement: nat := 0xFFFD

  /** A Unicode scalar value: a code point that is not a UTF-16 surrogate. */
  predicate IsScalar(cp: int) {
    0 <= cp <= 0x10FFFF && !(0xD800 <= cp <= 0xDFFF)
  }

  predicate IsContinuation(b: byte) {
    0x80 <= b < 0xC0
  }

  /** One decoded code point and the number of input bytes it used. */
  datatype Decoded = Decoded(codepoint: nat, length: nat)

  /** The sequence length a lead byte declares by its high bits, or 0 for a byte
      that cannot start a sequence (a continuation byte, or 0xF8..0xFF). */
  function DeclaredLength(lead: byte): (n: nat)
    ensures n <= 4
    ensures n == 0 <==> IsContinuation(lead) || lead >= 0xF8
  {
    if lead < 0x80 then 1
    else if lead < 0xC0 then 0
    else if lead < 0xE0 then 2
    else if lead < 0xF0 then 3
    else if lead < 0xF8 then 4
    else 0
  }

  /** How many continuation bytes follow from index `i` on, counting at most `want`. */
  function RunFrom(s: seq<byte>, i: nat, want: nat): (k: nat)
    decreases want
    ensures k <= want && (k > 0 ==> i + k <= |s|)
    ensures forall j :: i <= j < i + k ==> IsContinuation(s[j])
    ensures k < want ==> i + k >= |s| || !IsContinuation(s[i + k])
  {
    if want == 0 || i >= |s| || !IsContinuation(s[i]) then 0
    else 1 + RunFrom(s, i + 1, want - 1)
  }

  /** The value carried by a complete `n`-byte sequence. */
  function Assemble(s: seq<byte>, n: nat): int
    requires 2 <= n <= 4 && |s| >= n
  {
    var b0: int, b1: int := s[0], s[1];
    if n == 2 then (b0 - 0xC0) * 0x40 + (b1 - 0x80)
    else
      var b2: int := s[2];
      if n == 3 then (b0 - 0xE0) * 0x1000 + (b1 - 0x80) * 0x40 + (b2 - 0x80)
      else
        var b3: int := s[3];
        (b0 - 0xF0) * 0x40000 + (b1 - 0x80) * 0x1000 + (b2 - 0x80) * 0x40 + (b3 - 0x80)
  }

  /** The smallest value an `n`-byte sequence may carry; anything below is overlong. */
  function MinScalar(n: nat): nat
    requires 2 <= n <= 4
  {
    if n == 2 then 0x80 else if n == 3 then 0x800 else 0x10000
  }

  /** Decodes the code point at the head of `s`.  Fails only on empty input. */
  function DecodeCodepoint(s: seq<byte>): (r: Result<Decoded>)
    ensures r.Fail? <==> s == []
    ensures r.Fail? ==> r.error == EndOfStream
    ensures r.Ok? ==> 1 <= r.value.length <= 4 && r.value.length <= |s|
    ensures r.Ok? ==> IsScalar(r.value.codepoint)
  {
    if s == [] then Fail(EndOfStream)
    else
      var n := DeclaredLength(s[0]);
      if n == 1 then Ok(Decoded(s[0], 1))
      else if n == 0 then Ok(Decoded(Replacement, 1))
      else
        var k := RunFrom(s, 1, n - 1);
        if k < n - 1 then Ok(Decoded(Replacement, 1 + k))
        else
          var v := Assemble(s, n);
          if v < MinScalar(n) || !IsScalar(v) then Ok(Decoded(Replacement, n))
          else Ok(Decoded(v, n))
  }

  /** The shortest UTF-8 encoding of a scalar value: the reference the decoder is
      checked against. */
  function Encode(cp: nat): (e: seq<byte>)
    requires IsScalar(cp)
    ensures 1 <= |e| <= 4
  {
    if cp < 0x80 then [cp]
    else if cp < 0x800 then [0xC0 + cp / 0x40, 0x80 + cp % 0x40]
    else if cp < 0x10000 then [0xE0 + cp / 0x1000, 0x80 + (cp / 0x40) % 0x40, 0x80 + cp % 0x40]
    else [0xF0 + cp / 0x40000, 0x80 + (cp / 0x1000) % 0x40, 0x80 + (cp / 0x40) % 0x40, 0x80 + cp % 0x40]
  }

  /** Regrouping base-64 digits: the identities behind every multi-byte form. */
  lemma Base64Digits(x: int)
    requires x >= 0
    ensures (x / 0x40) / 0x40 == x / 0x1000
    ensures (x / 0x1000) / 0x40 == x / 0x40000
  {
  }

  /** The encoding of `cp` carries `cp`: a lead byte declaring its length, then
      continuation bytes, whose assembled value is `cp`. */
  lemma EncodeShape(cp: nat)
    requires IsScalar(cp)
    ensures var e := Encode(cp);
            DeclaredLength(e[0]) == |e| &&
            (forall j :: 1 <= j < |e| ==> IsContinuation(e[j])) &&
            (|e| >= 2 ==> Assemble(e, |e|) == cp && MinScalar(|e|) <= cp)
  {
    Base64Digits(cp);
  }

  /** Decoding the encoding of any scalar value gives that value back and consumes
      exactly its bytes, whatever follows. */
  lemma EncodeDecode(cp: nat, rest: seq<byte>)
    requires IsScalar(cp)
    ensures DecodeCodepoint(Encode(cp) + rest) == Ok(Decoded(cp, |Encode(cp)|))
  {
    var e := Encode(cp);
    var s := e + rest;
    var n := |e|;
    EncodeShape(cp);
    assert forall j :: 0 <= j < n ==> s[j] == e[j];
    if n >= 2 {
      assert RunFrom(s, n, 0) == 0;
      if n >= 3 { assert RunFrom(s, n - 1, 1) == 1; }
      if n == 4 { assert RunFrom(s, 2, 2) == 2; }
      assert RunFrom(s, 1, n - 1) == n - 1;
      assert Assemble(s, n) == Assemble(e, n);
    }
  }

  /** The decoder is strict: whatever it accepts other than U+FFFD is the shortest
      encoding of the value it returns, so overlong forms, surrogates and values above
      U+10FFFF can only come back as U+FFFD. */
  lemma DecodeIsCanonical(s: seq<byte>)
    requires DecodeCodepoint(s).Ok?
    ensures var d := DecodeCodepoint(s).value;
            d.codepoint == Replacement || s[..d.length] == Encode(d.codepoint)
  {
    var d := DecodeCodepoint(s).value;
    var n := DeclaredLength(s[0]);
    if d.codepoint != Replacement && n >= 2 {
      assert RunFrom(s, 1, n - 1) == n - 1;
      assert d.codepoint == Assemble(s, n) && d.length == n;
      if n == 2 {
        CanonicalTwo(s[0], s[1]);
        assert s[..2] == [s[0], s[1]];
      } else if n == 3 {
        CanonicalThree(s[0], s[1], s[2]);
        assert s[..3] == [s[0], s[1], s[2]];
      } else {
        CanonicalFour(s[0], s[1], s[2], s[3]);
        assert s[..4] == [s[0], s[1], s[2], s[3]];
      }
    }
  }

  /** A two-byte sequence that is not overlong is the encoding of its value. */
  lemma CanonicalTwo(b0: byte, b1: byte)
    requires 0xC0 <= b0 < 0xE0 && IsContinuation(b1)
    requires (b0 - 0xC0) * 0x40 + (b1 - 0x80) >= 0x80
    ensures Encode((b0 - 0xC0) * 0x40 + (b1 - 0x80)) == [b0, b1]
  {
  }

  /** A three-byte sequence that is neither overlong nor a surrogate is the encoding
      of its value. */
  lemma CanonicalThree(b0: byte, b1: byte, b2: byte)
    requires 0xE0 <= b0 < 0xF0 && IsContinuation(b1) && IsContinuation(b2)
    requires var v := (b0 - 0xE0) * 0x1000 + (b1 - 0x80) * 0x40 + (b2 - 0x80);
             v >= 0x800 && IsScalar(v)
    ensures Encode((b0 - 0xE0) * 0x1000 + (b1 - 0x80) * 0x40 + (b2 - 0x80)) == [b0, b1, b2]
  {
    var v := (b0 - 0xE0) * 0x1000 + (b1 - 0x80) * 0x40 + (b2 - 0x80);
    var high := (b0 - 0xE0) * 0x40 + (b1 - 0x80);
    assert v == high * 0x40 + (b2 - 0x80);
    SixBits(high, b2 - 0x80);
    SixBits(b0 - 0xE0, b1 - 0x80);
    Base64Digits(v);
  }

  /** A four-byte sequence that is not overlong and stays within U+10FFFF is the
      encoding of its value. */
  lemma CanonicalFour(b0: byte, b1: byte, b2: byte, b3: byte)
    requires 0xF0 <= b0 < 0xF8 && IsContinuation(b1) && IsContinuation(b2) && IsContinuation(b3)
    requires var v := (b0 - 0xF0) * 0x40000 + (b1 - 0x80) * 0x1000 + (b2 - 0x80) * 0x40 + (b3 - 0x80);
             v >= 0x10000 && IsScalar(v)
    ensures Encode((b0 - 0xF0) * 0x40000 + (b1 - 0x80) * 0x1000 + (b2 - 0x80) * 0x40 + (b3 - 0x80))
              == [b0, b1, b2, b3]
  {
    var v := (b0 - 0xF0) * 0x40000 + (b1 - 0x80) * 0x1000 + (b2 - 0x80) * 0x40 + (b3 - 0x80);
    Base64Digits(v);
    assert v / 0x40 == (b0 - 0xF0) * 0x1000 + (b1 - 0x80) * 0x40 + (b2 - 0x80);
    assert v / 0x1000 == (b0 - 0xF0) * 0x40 + (b1 - 0x80);
  }

  /** Splitting off the low six bits of a number written in base 64. */
  lemma SixBits(q: int, r: int)
    requires 0 <= r < 0x40
    ensures (q * 0x40 + r) / 0x40 == q && (q * 0x40 + r) % 0x40 == r
  {
  }

  /** A byte below 0x80 decodes to itself. */
  lemma DecodesAscii(b: byte, rest: seq<byte>)
    requires b < 0x80
    ensures DecodeCodepoint([b] + rest) == Ok(Decoded(b, 1))
  {
  }

  /** Overlong encodings of '/' in two, three and four bytes are rejected. */
  lemma RejectsOverlongSlashes()
    ensures DecodeCodepoint([0xC0, 0xAF]).value.codepoint == Replacement
    ensures DecodeCodepoint([0xE0, 0x80, 0xAF]).value.codepoint == Replacement
    ensures DecodeCodepoint([0xF0, 0x80, 0x80, 0xAF]).value.codepoint == Replacement
  {
  }

  /** The largest overlong encoding of each length is rejected. */
  lemma RejectsBoundaryOverlongs()
    ensures DecodeCodepoint([0xC1, 0xBF]).value.codepoint == Replacement
    ensures DecodeCodepoint([0xE0, 0x9F, 0xBF]).value.codepoint == Replacement
    ensures DecodeCodepoint([0xF0, 0x8F, 0xBF, 0xBF]).value.codepoint == Replacement
  {
  }

  /** A continuation byte in lead position yields U+FFFD and consumes that byte only,
      so the next read starts at the following byte. */
  lemma LoneContinuationConsumesOne(s: seq<byte>)
    requires s != [] && IsContinuation(s[0])
    ensures DecodeCodepoint(s) == Ok(Decoded(Replacement, 1))
  {
  }

  /** A multi-byte lead followed by a byte that is not a continuation byte yields
      U+FFFD; the lead alone is consumed. */
  lemma RejectsLonelyStart(lead: byte, next: byte, rest: seq<byte>)
    requires 0xC0 <= lead < 0xF8 && !IsContinuation(next)
    ensures DecodeCodepoint([lead, next] + rest) == Ok(Decoded(Replacement, 1))
  {
    assert RunFrom([lead, next] + rest, 1, DeclaredLength(lead) - 1) == 0;
  }

  /** The bytes 0xFE and 0xFF (and every other byte from 0xF8 up) never start a sequence. */
  lemma RejectsImpossibleBytes(b: byte, rest: seq<byte>)
    requires b >= 0xF8
    ensures DecodeCodepoint([b] + rest) == Ok(Decoded(Replacement, 1))
  {
  }

  /** The three-byte encodings of U+D800..U+DFFF are well formed but rejected. */
  lemma RejectsSurrogates(b1: byte, b2: byte, rest: seq<byte>)
    requires 0xA0 <= b1 < 0xC0 && IsContinuation(b2)
    ensures DecodeCodepoint([0xED, b1, b2] + rest) == Ok(Decoded(Replacement, 3))
  {
    var s := [0xED, b1, b2] + rest;
    assert RunFrom(s, 3, 0) == 0;
    assert RunFrom(s, 1, 2) == 2;
    assert 0xD800 <= Assemble(s, 3) <= 0xDFFF;
  }

  predicate AllScalars(cps: Str) {
    forall i :: 0 <= i < |cps| ==> IsScalar(cps[i])
  }

  /** The UTF-8 encoding of a whole string, code point after code point. */
  function EncodeString(cps: Str): (e: seq<byte>)
    requires AllScalars(cps)
    ensures |e| >= |cps|
    decreases |cps|, 1
  {
    if cps == [] then [] else EncodeFirst(cps)
  }

  /** The encoding of the first code point, then of the others.  Kept apart from
      `EncodeString` so that unfolding the latter does not expose `Encode`. */
  function EncodeFirst(cps: Str): (e: seq<byte>)
    requires cps != [] && AllScalars(cps)
    ensures |e| >= |cps|
    decreases |cps|, 0
  {
    Encode(cps[0]) + EncodeString(cps[1..])
  }
}
