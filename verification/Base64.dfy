/** Base64 as the codec writes and reads it (deps/src/base64.c). */
module Base64 {
  import opened Bytes

  const PAD: byte := 61

  // ---- The tables ----

  /** The encoder's table: A-Z a-z 0-9 + /. */
  function Symbol(n: int): byte
    requires 0 <= n < 64
  {
    if n < 26 then 65 + n
    else if n < 52 then 97 + (n - 26)
    else if n < 62 then 48 + (n - 52)
    else if n == 62 then 43
    else 47
  }

  /** The decoder's table: total, with the URL variants and zero for every other byte. */
  function FromB64(c: byte): (n: int)
    ensures 0 <= n < 64
  {
    if 65 <= c <= 90 then c - 65
    else if 97 <= c <= 122 then c - 97 + 26
    else if 48 <= c <= 57 then c - 48 + 52
    else if c == 43 || c == 45 || c == 46 then 62
    else if c == 44 || c == 47 || c == 95 then 63
    else 0
  }

  lemma SymbolBack(n: int)
    requires 0 <= n < 64
    ensures FromB64(Symbol(n)) == n && Symbol(n) != PAD
  {
  }

  // ---- Reference: section 4 of RFC 4648 ----

  /** Bit `i` of a byte string, most significant bit first; zero past the end. */
  function Bit(s: bytes, i: nat): int {
    if i / 8 >= |s| then 0
    else
      var b, k := s[i / 8], i % 8;
      (if k == 0 then b / 128 else if k == 1 then b / 64 else if k == 2 then b / 32 else if k == 3 then b / 16
       else if k == 4 then b / 8 else if k == 5 then b / 4 else if k == 6 then b / 2 else b) % 2
  }

  /** The k-th group of six bits. */
  function Sextet(s: bytes, k: nat): (n: int)
    ensures 0 <= n < 64
  {
    BitIsBit(s, 6 * k); BitIsBit(s, 6 * k + 1); BitIsBit(s, 6 * k + 2);
    BitIsBit(s, 6 * k + 3); BitIsBit(s, 6 * k + 4); BitIsBit(s, 6 * k + 5);
    32 * Bit(s, 6 * k) + 16 * Bit(s, 6 * k + 1) + 8 * Bit(s, 6 * k + 2)
      + 4 * Bit(s, 6 * k + 3) + 2 * Bit(s, 6 * k + 4) + Bit(s, 6 * k + 5)
  }

  lemma BitIsBit(s: bytes, i: nat)
    ensures 0 <= Bit(s, i) <= 1
  {
  }

  /** Whether the k-th symbol carries bits of the input or pads the last group of four. */
  predicate Carries(s: bytes, k: nat) { 6 * k < 8 * |s| }

  function EncodedLength(n: nat): nat { 4 * ((n + 2) / 3) }

  /** The k-th symbol of the encoding. */
  function SymbolAt(s: bytes, k: nat): byte { if Carries(s, k) then Symbol(Sextet(s, k)) else PAD }

  /** The base64 text of `s`. */
  function Base64Of(s: bytes): (r: bytes)
    ensures |r| == EncodedLength(|s|)
  {
    seq(EncodedLength(|s|), k requires 0 <= k => SymbolAt(s, k))
  }

  // ---- The encoder ----

  /** The four symbols of three bytes. */
  function Quad(a: byte, b: byte, c: byte): bytes {
    [Symbol(a / 4), Symbol(a % 4 * 16 + b / 16), Symbol(b % 16 * 4 + c / 64), Symbol(c % 64)]
  }

  /** The bits of one byte put together again from their positions. */
  lemma ByteBits(s: bytes, i: nat)
    requires i < |s|
    ensures s[i] / 4 == 32 * Bit(s, 8 * i) + 16 * Bit(s, 8 * i + 1) + 8 * Bit(s, 8 * i + 2)
                      + 4 * Bit(s, 8 * i + 3) + 2 * Bit(s, 8 * i + 4) + Bit(s, 8 * i + 5)
    ensures s[i] % 4 == 2 * Bit(s, 8 * i + 6) + Bit(s, 8 * i + 7)
    ensures s[i] / 16 == 8 * Bit(s, 8 * i) + 4 * Bit(s, 8 * i + 1) + 2 * Bit(s, 8 * i + 2) + Bit(s, 8 * i + 3)
    ensures s[i] % 16 == 8 * Bit(s, 8 * i + 4) + 4 * Bit(s, 8 * i + 5) + 2 * Bit(s, 8 * i + 6) + Bit(s, 8 * i + 7)
    ensures s[i] / 64 == 2 * Bit(s, 8 * i) + Bit(s, 8 * i + 1)
    ensures s[i] % 64 == 32 * Bit(s, 8 * i + 2) + 16 * Bit(s, 8 * i + 3) + 8 * Bit(s, 8 * i + 4)
                       + 4 * Bit(s, 8 * i + 5) + 2 * Bit(s, 8 * i + 6) + Bit(s, 8 * i + 7)
  {
    var b := s[i];
    BitsAt(s, i);
    Halves(b);
  }

  lemma BitsAt(s: bytes, i: nat)
    requires i < |s|
    ensures Bit(s, 8 * i) == s[i] / 128 % 2 && Bit(s, 8 * i + 1) == s[i] / 64 % 2 && Bit(s, 8 * i + 2) == s[i] / 32 % 2
    ensures Bit(s, 8 * i + 3) == s[i] / 16 % 2 && Bit(s, 8 * i + 4) == s[i] / 8 % 2 && Bit(s, 8 * i + 5) == s[i] / 4 % 2
    ensures Bit(s, 8 * i + 6) == s[i] / 2 % 2 && Bit(s, 8 * i + 7) == s[i] % 2
  {
  }

  lemma Halves(b: byte)
    ensures b == b / 2 * 2 + b % 2 && b / 2 == b / 4 * 2 + b / 2 % 2 && b / 4 == b / 8 * 2 + b / 4 % 2
    ensures b / 8 == b / 16 * 2 + b / 8 % 2 && b / 16 == b / 32 * 2 + b / 16 % 2 && b / 32 == b / 64 * 2 + b / 32 % 2
    ensures b / 64 == b / 128 * 2 + b / 64 % 2 && b / 128 == b / 128 % 2
    ensures b == b / 4 * 4 + b % 4 && b == b / 16 * 16 + b % 16 && b == b / 64 * 64 + b % 64
  {
    HalvesLow(b);
    HalvesHigh(b);
  }

  lemma HalvesLow(b: byte)
    ensures b / 2 == b / 4 * 2 + b / 2 % 2 && b / 4 == b / 8 * 2 + b / 4 % 2 && b / 8 == b / 16 * 2 + b / 8 % 2
  {
    assert b / 2 / 2 == b / 4;
    assert b / 4 / 2 == b / 8;
    assert b / 8 / 2 == b / 16;
  }

  lemma HalvesHigh(b: byte)
    ensures b / 16 == b / 32 * 2 + b / 16 % 2 && b / 32 == b / 64 * 2 + b / 32 % 2 && b / 64 == b / 128 * 2 + b / 64 % 2
  {
    assert b / 16 / 2 == b / 32;
    assert b / 32 / 2 == b / 64;
    assert b / 64 / 2 == b / 128;
  }

  lemma NoBits(s: bytes, i: nat)
    requires i >= 8 * |s|
    ensures Bit(s, i) == 0
  {
  }

  lemma SextetIs(s: bytes, k: nat, i: nat)
    requires 6 * k == 8 * i || 6 * k == 8 * i + 6 || 6 * k == 8 * i + 4 || 6 * k == 8 * i + 2
    requires i < |s|
    ensures 6 * k == 8 * i ==> Sextet(s, k) == s[i] / 4
    ensures 6 * k == 8 * i + 6 && i + 1 < |s| ==> Sextet(s, k) == s[i] % 4 * 16 + s[i + 1] / 16
    ensures 6 * k == 8 * i + 4 && i + 1 < |s| ==> Sextet(s, k) == s[i] % 16 * 4 + s[i + 1] / 64
    ensures 6 * k == 8 * i + 2 ==> Sextet(s, k) == s[i] % 64
  {
    hide Bit;
    ByteBits(s, i);
    if i + 1 < |s| {
      ByteBits(s, i + 1);
    }
  }

  /** A whole group of three bytes is written as the reference says. */
  lemma QuadIs(s: bytes, g: nat)
    requires 3 * g + 2 < |s|
    ensures Quad(s[3 * g], s[3 * g + 1], s[3 * g + 2])
         == [SymbolAt(s, 4 * g), SymbolAt(s, 4 * g + 1), SymbolAt(s, 4 * g + 2), SymbolAt(s, 4 * g + 3)]
  {
    hide Bit, Sextet, Symbol;
    SextetIs(s, 4 * g, 3 * g);
    SextetIs(s, 4 * g + 1, 3 * g);
    SextetIs(s, 4 * g + 2, 3 * g + 1);
    SextetIs(s, 4 * g + 3, 3 * g + 2);
  }

  lemma TailOne(s: bytes, g: nat)
    requires |s| == 3 * g + 1
    ensures SymbolAt(s, 4 * g) == Symbol(s[3 * g] / 4) && SymbolAt(s, 4 * g + 1) == Symbol(s[3 * g] % 4 * 16)
    ensures SymbolAt(s, 4 * g + 2) == PAD && SymbolAt(s, 4 * g + 3) == PAD
  {
    hide Bit;
    ByteBits(s, 3 * g);
    forall i | 24 * g + 8 <= i < 24 * g + 12 ensures Bit(s, i) == 0 { NoBits(s, i); }
  }

  lemma TailTwo(s: bytes, g: nat)
    requires |s| == 3 * g + 2
    ensures SymbolAt(s, 4 * g) == Symbol(s[3 * g] / 4)
    ensures SymbolAt(s, 4 * g + 1) == Symbol(s[3 * g] % 4 * 16 + s[3 * g + 1] / 16)
    ensures SymbolAt(s, 4 * g + 2) == Symbol(s[3 * g + 1] % 16 * 4) && SymbolAt(s, 4 * g + 3) == PAD
  {
    hide Bit, Symbol;
    ByteBits(s, 3 * g + 1);
    NoBits(s, 24 * g + 16);
    NoBits(s, 24 * g + 17);
    assert Sextet(s, 4 * g + 2) == s[3 * g + 1] % 16 * 4;
    SextetIs(s, 4 * g, 3 * g);
    SextetIs(s, 4 * g + 1, 3 * g);
  }

  /** The loop over the whole groups. */
  method EncodeGroups(src: bytes, out: array<byte>) returns (i: nat, pos: nat)
    requires out.Length == EncodedLength(|src|)
    modifies out
    ensures i == |src| / 3 * 3 && pos == |src| / 3 * 4
    ensures forall k :: 0 <= k < pos ==> out[k] == SymbolAt(src, k)
  {
    hide SymbolAt, Quad;
    i, pos := 0, 0;
    while |src| - i >= 3
      invariant i <= |src| && i % 3 == 0 && pos == i / 3 * 4 && pos <= out.Length
      invariant forall k :: 0 <= k < pos ==> out[k] == SymbolAt(src, k)
    {
      QuadIs(src, i / 3);
      var q := Quad(src[i], src[i + 1], src[i + 2]);
      out[pos] := q[0];
      out[pos + 1] := q[1];
      out[pos + 2] := q[2];
      out[pos + 3] := q[3];
      i, pos := i + 3, pos + 4;
    }
  }

  method Encode(src: bytes) returns (out: array<byte>)
    ensures fresh(out) && out[..] == Base64Of(src)
  {
    hide SymbolAt, Symbol;
    out := new byte[EncodedLength(|src|)](_ => 0);
    var i, pos := EncodeGroups(src, out);
    if |src| - i > 0 {
      out[pos] := Symbol(src[i] / 4);
      if |src| - i == 1 {
        TailOne(src, |src| / 3);
        out[pos + 1] := Symbol(src[i] % 4 * 16);
        out[pos + 2] := PAD;
      } else {
        TailTwo(src, |src| / 3);
        out[pos + 1] := Symbol(src[i] % 4 * 16 + src[i + 1] / 16);
        out[pos + 2] := Symbol(src[i + 1] % 16 * 4);
      }
      out[pos + 3] := PAD;
      pos := pos + 4;
    }
    assert pos == out.Length;
    assert forall k :: 0 <= k < pos ==> out[..][k] == Base64Of(src)[k];
  }

  // ---- The decoder ----

  function Triple(p: bytes, i: nat): bytes
    requires i + 4 <= |p|
  {
    var n := FromB64(p[i]) * 0x40000 + FromB64(p[i + 1]) * 0x1000 + FromB64(p[i + 2]) * 0x40 + FromB64(p[i + 3]);
    [n / 0x10000 % 256, n / 0x100 % 256, n % 256]
  }

  /** All whole groups of four symbols below `last`, from `i` on. */
  function Triples(p: bytes, i: nat, last: nat): bytes
    requires last <= |p|
    decreases last - i
  {
    if i + 4 > last then [] else Triple(p, i) + Triples(p, i + 4, last)
  }

  function Pad1(p: bytes): nat
    requires |p| > 2
  {
    if |p| % 4 != 0 || p[|p| - 1] == PAD then 1 else 0
  }

  function Pad2(p: bytes): nat
    requires |p| > 2
  {
    if Pad1(p) == 1 && (|p| % 4 > 2 || p[|p| - 2] != PAD) then 1 else 0
  }

  function Last(p: bytes): nat
    requires |p| > 2
  {
    (|p| - Pad1(p)) / 4 * 4
  }

  /** What the decoder returns for any input; too short a last group gives the empty string. */
  function Decode(p: bytes): bytes {
    if |p| <= 2 then []
    else
      var last := Last(p);
      if Pad1(p) == 0 then Triples(p, 0, last)
      else if last + 1 >= |p| then []
      else
        var n := FromB64(p[last]) * 0x40000 + FromB64(p[last + 1]) * 0x1000;
        if Pad2(p) == 0 then Triples(p, 0, last) + [n / 0x10000 % 256]
        else if last + 2 >= |p| then []
        else Triples(p, 0, last) + [n / 0x10000 % 256, (n + FromB64(p[last + 2]) * 0x40) / 0x100 % 256]
  }

  /** The loop over the whole groups. */
  method DecodeGroups(p: bytes, last: nat, out: array<byte>) returns (pos: nat)
    requires last <= |p| && last % 4 == 0 && last / 4 * 3 <= out.Length
    modifies out
    ensures pos == last / 4 * 3 && out[..pos] == Triples(p, 0, last)
  {
    hide Triple;
    var i := 0;
    pos := 0;
    assert out[..0] + Triples(p, 0, last) == Triples(p, 0, last);
    while i < last
      invariant 0 <= i <= last && i % 4 == 0 && pos == i / 4 * 3
      invariant out[..pos] + Triples(p, i, last) == Triples(p, 0, last)
    {
      var t := Triple(p, i);
      ghost var before, after := out[..pos], Triples(p, i + 4, last);
      TripleLength(p, i);
      out[pos] := t[0];
      out[pos + 1] := t[1];
      out[pos + 2] := t[2];
      assert out[..pos + 3] == before + t;
      assert before + (t + after) == (before + t) + after;
      pos, i := pos + 3, i + 4;
    }
    assert out[..pos] + [] == out[..pos];
  }

  lemma TripleLength(p: bytes, i: nat)
    requires i + 4 <= |p|
    ensures |Triple(p, i)| == 3
  {
  }

  /** The bytes of the last, padded group; `len` is 0 when that group is too short. */
  method DecodePadded(p: bytes, out: array<byte>, pos: nat) returns (len: nat)
    requires |p| > 2 && Pad1(p) == 1 && pos + 1 + Pad2(p) == out.Length
    requires out[..pos] == Triples(p, 0, Last(p))
    modifies out
    ensures len <= out.Length && out[..len] == Decode(p)
  {
    hide Triples, FromB64;
    var last := Last(p);
    if last + 1 >= |p| {
      return 0;
    }
    var n := FromB64(p[last]) * 0x40000 + FromB64(p[last + 1]) * 0x1000;
    Put(out, pos, n / 0x10000 % 256);
    len := pos + 1;
    if Pad2(p) == 1 {
      if last + 2 >= |p| {
        return 0;
      }
      Put(out, len, (n + FromB64(p[last + 2]) * 0x40) / 0x100 % 256);
      len := len + 1;
    }
  }

  method DecodeLoop(p: bytes) returns (out: array<byte>, len: nat)
    ensures fresh(out) && len <= out.Length && out[..len] == Decode(p)
  {
    hide Triples, FromB64;
    if |p| <= 2 {
      out := new byte[0];
      return out, 0;
    }
    var pad1 := if |p| % 4 != 0 || p[|p| - 1] == PAD then 1 else 0;
    var pad2 := if pad1 == 1 && (|p| % 4 > 2 || p[|p| - 2] != PAD) then 1 else 0;
    var last := (|p| - pad1) / 4 * 4;
    out := new byte[last / 4 * 3 + pad1 + pad2](_ => 0);
    len := DecodeGroups(p, last, out);
    if pad1 == 1 {
      len := DecodePadded(p, out, len);
    }
  }

  // ---- Decoding undoes encoding ----

  /** Three bytes cut into four groups of six bits and put together again. */
  lemma QuadBack(a: byte, b: byte, c: byte)
    ensures var n := a / 4 * 0x40000 + (a % 4 * 16 + b / 16) * 0x1000 + (b % 16 * 4 + c / 64) * 0x40 + c % 64;
            n == a * 0x10000 + b * 0x100 + c && n / 0x10000 % 256 == a && n / 0x100 % 256 == b && n % 256 == c
  {
    var n := a * 0x10000 + b * 0x100 + c;
    assert n / 0x100 == a * 0x100 + b;
  }

  lemma TripleBack(s: bytes, g: nat, p: bytes)
    requires 3 * g + 2 < |s| && 4 * g + 4 <= |p|
    requires forall k :: 4 * g <= k < 4 * g + 4 ==> p[k] == SymbolAt(s, k)
    ensures Triple(p, 4 * g) == s[3 * g..3 * g + 3]
  {
    hide Symbol, FromB64, SymbolAt;
    var a, b, c := s[3 * g], s[3 * g + 1], s[3 * g + 2];
    QuadIs(s, g);
    var q := Quad(a, b, c);
    assert p[4 * g] == q[0] && p[4 * g + 1] == q[1] && p[4 * g + 2] == q[2] && p[4 * g + 3] == q[3];
    SymbolBack(a / 4);
    SymbolBack(a % 4 * 16 + b / 16);
    SymbolBack(b % 16 * 4 + c / 64);
    SymbolBack(c % 64);
    QuadBack(a, b, c);
    assert s[3 * g..3 * g + 3] == [a, b, c];
  }

  lemma TriplesStep(p: bytes, i: nat, last: nat)
    requires last <= |p|
    ensures i + 4 > last ==> Triples(p, i, last) == []
    ensures i + 4 <= last ==> Triples(p, i, last) == Triple(p, i) + Triples(p, i + 4, last)
  {
  }

  lemma Pieces(s: bytes, i: nat, j: nat, k: nat)
    requires i <= j <= k <= |s|
    ensures s[i..k] == s[i..j] + s[j..k]
  {
  }

  lemma {:induction false} TriplesBack(s: bytes, g: nat, h: nat, p: bytes)
    requires g <= h && 3 * h <= |s| && 4 * h <= |p|
    requires forall k :: 0 <= k < 4 * h ==> p[k] == SymbolAt(s, k)
    ensures Triples(p, 4 * g, 4 * h) == s[3 * g..3 * h]
    decreases h - g
  {
    hide SymbolAt, Triple, Triples;
    TriplesStep(p, 4 * g, 4 * h);
    if g < h {
      TripleBack(s, g, p);
      TriplesBack(s, g + 1, h, p);
      Pieces(s, 3 * g, 3 * g + 3, 3 * h);
    }
  }

  /** The text without its padding. */
  function Unpadded(s: bytes): bytes { Base64Of(s)[..EncodedLength(|s|) - (if |s| % 3 == 0 then 0 else 3 - |s| % 3)] }

  /** Any text that starts with the symbols of `s` that carry bits, the last group having two of them. */
  lemma DecodesOne(s: bytes, p: bytes, g: nat)
    requires |s| == 3 * g + 1 && |p| > 2 && |p| > 4 * g + 1
    requires forall k :: 0 <= k <= 4 * g + 1 ==> p[k] == SymbolAt(s, k)
    requires Pad1(p) == 1 && Pad2(p) == 0 && Last(p) == 4 * g
    ensures Decode(p) == s
  {
    hide Symbol, FromB64, SymbolAt, Triples, Pad1, Pad2, Last;
    TriplesBack(s, 0, g, p);
    var a := s[3 * g];
    TailOne(s, g);
    SymbolBack(a / 4);
    SymbolBack(a % 4 * 16);
    HighByte(a, 0);
    assert s == s[0..3 * g] + [a];
  }

  /** The same with three of them. */
  lemma DecodesTwo(s: bytes, p: bytes, g: nat)
    requires |s| == 3 * g + 2 && |p| > 4 * g + 2
    requires forall k :: 0 <= k <= 4 * g + 2 ==> p[k] == SymbolAt(s, k)
    requires Pad1(p) == 1 && Pad2(p) == 1 && Last(p) == 4 * g
    ensures Decode(p) == s
  {
    hide Symbol, FromB64, SymbolAt, Triples, Pad1, Pad2, Last;
    TriplesBack(s, 0, g, p);
    var a, b := s[3 * g], s[3 * g + 1];
    TailTwo(s, g);
    SymbolBack(a / 4);
    SymbolBack(a % 4 * 16 + b / 16);
    SymbolBack(b % 16 * 4);
    QuadBack(a, b, 0);
    HighByte(a, b);
    assert p[4 * g] == SymbolAt(s, 4 * g) && p[4 * g + 1] == SymbolAt(s, 4 * g + 1) && p[4 * g + 2] == SymbolAt(s, 4 * g + 2);
    assert s == s[0..3 * g] + [a, b];
  }

  lemma HighByte(a: byte, b: byte)
    ensures (a / 4 * 0x40000 + (a % 4 * 16 + b / 16) * 0x1000) / 0x10000 % 256 == a
  {
    assert a / 4 * 0x40000 + (a % 4 * 16 + b / 16) * 0x1000 == a * 0x10000 + b / 16 * 0x1000;
  }

  lemma SymbolsCarry(s: bytes, k: nat)
    requires Carries(s, k)
    ensures SymbolAt(s, k) != PAD
  {
    SymbolBack(Sextet(s, k));
  }

  /** Decoding the base64 text of a non-empty byte string gives it back. */
  lemma RoundTrip(s: bytes)
    requires s != []
    ensures Decode(Base64Of(s)) == s
  {
    hide Symbol, FromB64, SymbolAt, Triples;
    var p := Base64Of(s);
    var n := |p|;
    assert n % 4 == 0 && n >= 4;
    assert forall k :: 0 <= k < n ==> p[k] == SymbolAt(s, k);
    var g := |s| / 3;
    if |s| % 3 == 0 {
      SymbolsCarry(s, n - 1);
      TriplesBack(s, 0, g, p);
      assert s[0..3 * g] == s;
    } else {
      if |s| % 3 == 1 {
        TailOne(s, g);
        DecodesOne(s, p, g);
      } else {
        TailTwo(s, g);
        SymbolsCarry(s, n - 2);
        DecodesTwo(s, p, g);
      }
    }
  }

  /**
   Without the padding the text is still read back, unless its last group has two symbols
   (|s| leaves remainder 1): then the decoder returns the empty string.
   */
  lemma UnpaddedRoundTrip(s: bytes)
    requires s != []
    ensures Decode(Unpadded(s)) == (if |s| % 3 == 1 then [] else s)
    ensures Decode(Unpadded(s)) == s <==> |s| % 3 != 1
  {
    hide Symbol, FromB64, SymbolAt, Triples;
    var p := Unpadded(s);
    assert forall k :: 0 <= k < |p| ==> p[k] == SymbolAt(s, k);
    if |s| % 3 == 0 {
      assert p == Base64Of(s);
      RoundTrip(s);
    } else if |s| % 3 == 2 {
      DecodesTwo(s, p, |s| / 3);
    } else if |p| > 2 {
      assert |p| % 4 == 2;
      SymbolsCarry(s, |p| - 2);
      assert Last(p) + 2 == |p|;
    }
  }
}
