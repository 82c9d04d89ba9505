/**
 UTF-8 as the string codec reads and writes it (deps/src/string_escape.c).  Masks and shifts of
 the source are remainders and quotients by powers of two here.
 */
module Utf8 {
  import opened Bytes

  // ---- Decoding ----

  /** Length of the sequence a first byte announces; 0 if no sequence starts with it. */
  function CheckFirst(u: byte): nat {
    if u < 0x80 then 1
    else if u <= 0xBF then 0
    else if u == 0xC0 || u == 0xC1 then 0
    else if u <= 0xDF then 2
    else if u <= 0xEF then 3
    else if u <= 0xF4 then 4
    else 0
  }

  predicate IsContinuation(u: byte) { 0x80 <= u <= 0xBF }

  function FirstBits(u: byte, size: nat): int {
    if size == 2 then u % 0x20 else if size == 3 then u % 0x10 else u % 0x8
  }

  /** Accumulates the continuation bytes `i` up to `size`; -1 if one of them is none. */
  function Accumulate(b: bytes, i: nat, size: nat, value: int): int
    requires i <= size <= |b|
    decreases size - i
  {
    if i == size then value
    else if !IsContinuation(b[i]) then -1
    else Accumulate(b, i + 1, size, value * 64 + b[i] % 64)
  }

  predicate Surrogate(cp: int) { 0xD800 <= cp <= 0xDFFF }

  /** The code point of the `size` bytes, or -1. */
  function CheckFull(b: bytes, size: nat): int
    requires 0 < size <= |b|
  {
    if size < 2 || size > 4 then -1
    else
      var value := Accumulate(b, 1, size, FirstBits(b[0], size));
      if value > 0x10FFFF || Surrogate(value) then -1
      else if (size == 2 && value < 0x80) || (size == 3 && value < 0x800) || (size == 4 && value < 0x10000) then -1
      else value
  }

  /** The same by the loop of the source. */
  method CheckFullLoop(b: bytes, size: nat) returns (value: int)
    requires 0 < size <= |b|
    ensures value == CheckFull(b, size)
  {
    if size < 2 || size > 4 {
      return -1;
    }
    value := FirstBits(b[0], size);
    for i := 1 to size
      invariant Accumulate(b, 1, size, FirstBits(b[0], size)) == Accumulate(b, i, size, value)
    {
      if !IsContinuation(b[i]) {
        return -1;
      }
      value := value * 64 + b[i] % 64;
    }
    if value > 0x10FFFF {
      return -1;
    } else if Surrogate(value) {
      return -1;
    } else if (size == 2 && value < 0x80) || (size == 3 && value < 0x800) || (size == 4 && value < 0x10000) {
      return -1;
    }
  }

  datatype Iter = AtEnd | Malformed | Point(cp: int, len: nat)

  /** One step over a buffer: the code point at its start and the length of its bytes. */
  function Iterate(b: bytes): (r: Iter)
    ensures r.Point? ==> 1 <= r.len <= 4 && r.len <= |b|
  {
    if b == [] then AtEnd
    else
      var n := CheckFirst(b[0]);
      if n == 0 then Malformed
      else if n == 1 then Point(b[0], 1)
      else if n > |b| then Malformed
      else
        var v := CheckFull(b, n);
        if v < 0 then Malformed else Point(v, n)
  }

  // ---- Encoding ----

  /** The bytes of a code point; none for a number that is no code point.  Surrogates are not refused. */
  function Encode(cp: int): (r: bytes)
    ensures |r| <= 4
    ensures r == [] <==> cp < 0 || cp > 0x10FFFF
  {
    if cp < 0 then []
    else if cp < 0x80 then [cp]
    else if cp < 0x800 then [0xC0 + cp / 0x40 % 0x20, 0x80 + cp % 0x40]
    else if cp < 0x10000 then [0xE0 + cp / 0x1000 % 0x10, 0x80 + cp / 0x40 % 0x40, 0x80 + cp % 0x40]
    else if cp <= 0x10FFFF then
      [0xF0 + cp / 0x40000 % 0x8, 0x80 + cp / 0x1000 % 0x40, 0x80 + cp / 0x40 % 0x40, 0x80 + cp % 0x40]
    else []
  }

  // ---- The grammar of RFC 3629, section 4 ----

  predicate Utf8Char(b: bytes) {
    || (|b| == 1 && b[0] <= 0x7F)
    || (|b| == 2 && 0xC2 <= b[0] <= 0xDF && IsContinuation(b[1]))
    || (|b| == 3 && IsContinuation(b[2])
        && (|| (b[0] == 0xE0 && 0xA0 <= b[1] <= 0xBF)
            || (0xE1 <= b[0] <= 0xEC && IsContinuation(b[1]))
            || (b[0] == 0xED && 0x80 <= b[1] <= 0x9F)
            || (0xEE <= b[0] <= 0xEF && IsContinuation(b[1]))))
    || (|b| == 4 && IsContinuation(b[2]) && IsContinuation(b[3])
        && (|| (b[0] == 0xF0 && 0x90 <= b[1] <= 0xBF)
            || (0xF1 <= b[0] <= 0xF3 && IsContinuation(b[1]))
            || (b[0] == 0xF4 && 0x80 <= b[1] <= 0x8F)))
  }

  /** A text is a row of UTF-8 characters. */
  ghost predicate Utf8Text(s: bytes)
    decreases |s|
  {
    s == [] || exists n :: 1 <= n <= 4 && n <= |s| && Utf8Char(s[..n]) && Utf8Text(s[n..])
  }

  // ---- Theorems ----

  function Low6(u: byte): int { u as int - 0x80 }

  /** The number made of `d` and the low bits of up to three continuation bytes. */
  function Value(d: int, c: bytes): int
    requires |c| <= 3
  {
    if |c| == 0 then d
    else if |c| == 1 then d * 64 + Low6(c[0])
    else if |c| == 2 then (d * 64 + Low6(c[0])) * 64 + Low6(c[1])
    else ((d * 64 + Low6(c[0])) * 64 + Low6(c[1])) * 64 + Low6(c[2])
  }

  ghost predicate Continuations(b: bytes, n: nat)
    requires n <= |b|
  {
    forall k :: 1 <= k < n ==> IsContinuation(b[k])
  }

  lemma {:induction false} AccumulateIs(b: bytes, i: nat, size: nat, d: int)
    requires 1 <= i <= size <= 4 && size <= |b| && d >= 0
    ensures Accumulate(b, i, size, d) ==
      if forall k :: i <= k < size ==> IsContinuation(b[k]) then Value(d, b[i..size]) else -1
    decreases size - i
  {
    if i < size && IsContinuation(b[i]) {
      AccumulateIs(b, i + 1, size, d * 64 + b[i] % 64);
      assert b[i] % 64 == b[i] - 0x80;
      var t, u := b[i..size], b[i + 1..size];
      assert |u| == |t| - 1 && forall k :: 0 <= k < |u| ==> u[k] == t[k + 1];
    }
  }

  lemma FirstBitsAre(u: byte)
    ensures 0xC2 <= u <= 0xDF ==> FirstBits(u, 2) == u - 0xC0
    ensures 0xE0 <= u <= 0xEF ==> FirstBits(u, 3) == u - 0xE0
    ensures 0xF0 <= u <= 0xF4 ==> FirstBits(u, 4) == u - 0xF0
  {
  }

  function Lead(n: nat): int { if n == 2 then 0xC0 else if n == 3 then 0xE0 else 0xF0 }

  /** A multi-byte sequence: its value, and when it is refused. */
  lemma CheckFullIs(b: bytes, n: nat)
    requires 2 <= n <= 4 && n <= |b| && CheckFirst(b[0]) == n
    ensures var v := Value(b[0] - Lead(n), b[1..n]);
            CheckFull(b, n) ==
              if !Continuations(b, n) || v > 0x10FFFF || Surrogate(v)
                 || v < (if n == 2 then 0x80 else if n == 3 then 0x800 else 0x10000)
              then -1 else v
  {
    FirstBitsAre(b[0]);
    AccumulateIs(b, 1, n, b[0] - Lead(n));
  }

  /** Reading accepts exactly the grammar: a character of that length stands at the start. */
  lemma AcceptsGrammar(b: bytes, n: nat)
    requires 1 <= n <= 4 && n <= |b|
    ensures (Iterate(b).Point? && Iterate(b).len == n) <==> Utf8Char(b[..n])
  {
    hide CheckFull;
    var t := b[..n];
    assert forall k :: 0 <= k < n ==> t[k] == b[k];
    if CheckFirst(b[0]) == n && n >= 2 {
      CheckFullIs(b, n);
      var c := b[1..n];
      assert forall k :: 0 <= k < |c| ==> c[k] == t[k + 1];
      assert Continuations(b, n) <==> (IsContinuation(t[1]) && (n >= 3 ==> IsContinuation(t[2])) && (n >= 4 ==> IsContinuation(t[3]))) by {
        assert IsContinuation(b[1]) || !Continuations(b, n);
        assert n >= 3 ==> IsContinuation(b[2]) || !Continuations(b, n);
        assert n >= 4 ==> IsContinuation(b[3]) || !Continuations(b, n);
      }
    }
  }

  /** A number put together from groups of six bits falls apart into them again. */
  lemma SixBits(d: int, x: int, y: int, z: int)
    requires 0 <= d && 0 <= x < 64 && 0 <= y < 64 && 0 <= z < 64
    ensures (d * 64 + x) / 64 == d && (d * 64 + x) % 64 == x
    ensures var v := (d * 64 + x) * 64 + y; v / 4096 == d && v / 64 % 64 == x && v % 64 == y
    ensures var v := ((d * 64 + x) * 64 + y) * 64 + z;
            v / 0x40000 == d && v / 0x1000 % 64 == x && v / 64 % 64 == y && v % 64 == z
  {
    var v2 := (d * 64 + x) * 64 + y;
    assert v2 / 64 == d * 64 + x;
    var v3 := v2 * 64 + z;
    assert v3 / 64 == v2;
    assert v3 / 0x1000 == d * 64 + x;
  }

  lemma EncodeValueTwo(d: int, z: int)
    requires 2 <= d < 0x20 && 0 <= z < 64
    ensures Encode(d * 64 + z) == [0xC0 + d, 0x80 + z]
  {
    SixBits(d, z, 0, 0);
  }

  lemma EncodeValueThree(d: int, z: int, y: int)
    requires 0 <= d < 0x10 && 0 <= z < 64 && 0 <= y < 64 && (d * 64 + z) * 64 + y >= 0x800
    ensures Encode((d * 64 + z) * 64 + y) == [0xE0 + d, 0x80 + z, 0x80 + y]
  {
    SixBits(d, z, y, 0);
  }

  lemma EncodeValueFour(d: int, z: int, y: int, x: int)
    requires 0 <= d < 8 && 0 <= z < 64 && 0 <= y < 64 && 0 <= x < 64
    requires 0x10000 <= ((d * 64 + z) * 64 + y) * 64 + x <= 0x10FFFF
    ensures Encode(((d * 64 + z) * 64 + y) * 64 + x) == [0xF0 + d, 0x80 + z, 0x80 + y, 0x80 + x]
  {
    SixBits(d, z, y, x);
  }

  /** The encoding of a value built from a first byte's bits and continuation bytes. */
  lemma EncodeValue(d: int, c: bytes)
    requires 1 <= |c| <= 3 && (forall k :: 0 <= k < |c| ==> IsContinuation(c[k]))
    requires var v := Value(d, c);
             (|c| == 1 && 2 <= d < 0x20) || (|c| == 2 && 0 <= d < 0x10 && 0x800 <= v)
             || (|c| == 3 && 0 <= d < 8 && 0x10000 <= v <= 0x10FFFF)
    ensures Encode(Value(d, c)) == [d + Lead(|c| + 1)] + c
  {
    hide Encode;
    if |c| == 1 {
      EncodeValueTwo(d, Low6(c[0]));
      assert c == [c[0]];
    } else if |c| == 2 {
      EncodeValueThree(d, Low6(c[0]), Low6(c[1]));
      assert c == [c[0], c[1]];
    } else {
      EncodeValueFour(d, Low6(c[0]), Low6(c[1]), Low6(c[2]));
      assert c == [c[0], c[1], c[2]];
    }
  }

  /** What reading accepts is the one encoding of the code point it reports. */
  lemma IterateIsCanonical(b: bytes)
    requires Iterate(b).Point?
    ensures var r := Iterate(b); 0 <= r.cp <= 0x10FFFF && !Surrogate(r.cp) && Encode(r.cp) == b[..r.len]
  {
    hide CheckFull;
    var r := Iterate(b);
    if r.len >= 2 {
      CheckFullIs(b, r.len);
      var c := b[1..r.len];
      assert forall k :: 0 <= k < |c| ==> c[k] == b[k + 1];
      EncodeValue(b[0] - Lead(r.len), c);
      assert b[..r.len] == [b[0]] + c;
    } else {
      assert b[..1] == [b[0]];
    }
  }

  /** Every code point from 0x80 on is a value of that form. */
  lemma ValueEncode(cp: int)
    requires 0x80 <= cp <= 0x10FFFF
    ensures var e := Encode(cp);
            && 2 <= |e| <= 4 && CheckFirst(e[0]) == |e|
            && cp == Value(e[0] - Lead(|e|), e[1..]) && Continuations(e, |e|)
  {
    hide Encode, CheckFirst, Value;
    EncodeLength(cp);
    if cp < 0x800 {
      EncodeTwo(cp);
    } else if cp < 0x10000 {
      EncodeThree(cp);
    } else {
      EncodeFour(cp);
    }
  }

  lemma EncodeTwo(cp: int)
    requires 0x80 <= cp < 0x800
    ensures var e := Encode(cp); CheckFirst(e[0]) == 2 && cp == Value(e[0] - 0xC0, e[1..]) && Continuations(e, 2)
  {
  }

  lemma EncodeThree(cp: int)
    requires 0x800 <= cp < 0x10000
    ensures var e := Encode(cp); CheckFirst(e[0]) == 3 && cp == Value(e[0] - 0xE0, e[1..]) && Continuations(e, 3)
  {
    var e := Encode(cp);
    var d, y, x := cp / 0x1000, cp / 64 % 64, cp % 64;
    assert cp / 64 == d * 64 + y;
    assert e == [0xE0 + d, 0x80 + y, 0x80 + x];
    assert e[1..] == [0x80 + y, 0x80 + x];
  }

  lemma EncodeFour(cp: int)
    requires 0x10000 <= cp <= 0x10FFFF
    ensures var e := Encode(cp); CheckFirst(e[0]) == 4 && cp == Value(e[0] - 0xF0, e[1..]) && Continuations(e, 4)
  {
    var e := Encode(cp);
    var d, z, y, x := cp / 0x40000, cp / 0x1000 % 64, cp / 64 % 64, cp % 64;
    assert cp / 0x1000 == d * 64 + z;
    assert cp / 64 == (d * 64 + z) * 64 + y;
    assert e == [0xF0 + d, 0x80 + z, 0x80 + y, 0x80 + x];
    assert e[1..] == [0x80 + z, 0x80 + y, 0x80 + x];
  }

  /** Reading an encoded code point gives it back, unless it is a surrogate: then it is refused. */
  lemma IterateEncode(cp: int, rest: bytes)
    requires 0 <= cp <= 0x10FFFF
    ensures Iterate(Encode(cp) + rest) == if Surrogate(cp) then Malformed else Point(cp, |Encode(cp)|)
  {
    hide CheckFull, Encode;
    var e := Encode(cp);
    var b := e + rest;
    assert forall k :: 0 <= k < |e| ==> b[k] == e[k];
    if cp >= 0x80 {
      ValueEncode(cp);
      CheckFullIs(b, |e|);
      assert b[1..|e|] == e[1..];
      EncodeLength(cp);
    } else {
      EncodeLength(cp);
    }
  }

  lemma EncodeLength(cp: int)
    requires 0 <= cp <= 0x10FFFF
    ensures |Encode(cp)| == if cp < 0x80 then 1 else if cp < 0x800 then 2 else if cp < 0x10000 then 3 else 4
    ensures cp < 0x80 ==> Encode(cp) == [cp]
  {
  }
}
