/** Numerals: deps/src/itoa.c and deps/src/atoi.c. */
module Itoa {
  import opened Arith
  import opened Bytes

  const UINT64_LIMIT: int := 0x1_0000_0000_0000_0000
  const INT64_MAX: int := 0x7FFF_FFFF_FFFF_FFFF
  const INT64_MIN: int := -0x8000_0000_0000_0000

  // ---- Specification: positional numerals ----

  function DigitChar(d: int): byte
    requires 0 <= d < 36
  {
    if d >= 10 then 65 + (d - 10) else 48 + d
  }

  /** The value of a digit character in base `b`, or -1. */
  function DigitValue(c: byte, b: int): int {
    var d := if 48 <= c <= 57 then c - 48 else if 65 <= c <= 90 then c - 65 + 10 else 36;
    if d < b then d else -1
  }

  /** The digits, spelled out. */
  lemma DigitsAre(d: int)
    ensures 0 <= d < 10 ==> DigitChar(d) == Ascii("0123456789")[d]
    ensures 10 <= d < 36 ==> DigitChar(d) == Ascii("ABCDEFGHIJKLMNOPQRSTUVWXYZ")[d - 10]
  {
    if 10 <= d < 36 {
      Letters(d - 10);
    }
  }

  lemma Letters(k: nat)
    requires k < 26
    ensures Ascii("ABCDEFGHIJKLMNOPQRSTUVWXYZ")[k] == 65 + k
  {
  }

  /** The value of a row of digits, most significant first. */
  function NumeralValue(s: bytes, b: int): int
    decreases |s|
  {
    if s == [] then 0 else NumeralValue(s[..|s| - 1], b) * b + DigitValue(s[|s| - 1], b)
  }

  /** A row of digits of base `b` without a leading zero (the number zero is one digit). */
  ghost predicate CanonicalNumeral(s: bytes, b: int) {
    s != [] && (forall i :: 0 <= i < |s| ==> DigitValue(s[i], b) >= 0) && (|s| > 1 ==> DigitValue(s[0], b) > 0)
  }

  /** The numeral of `n`. */
  function Numeral(n: nat, b: int): (r: bytes)
    requires 2 <= b <= 36
    ensures r != []
  {
    if n < b then [DigitChar(n)] else Numeral(n / b, b) + [DigitChar(n % b)]
  }

  function SignedNumeral(v: int): bytes {
    if v < 0 then [MINUS] + Numeral(-v, 10) else Numeral(v, 10)
  }

  // ---- What the numeral is ----

  lemma {:induction false} NumeralIs(n: nat, b: int)
    requires 2 <= b <= 36
    ensures CanonicalNumeral(Numeral(n, b), b) && NumeralValue(Numeral(n, b), b) == n
    ensures n > 0 ==> DigitValue(Numeral(n, b)[0], b) > 0
    decreases n
  {
    var s := Numeral(n, b);
    if n < b {
      assert s[..0] == [];
    } else {
      DivFacts(n, b);
      NumeralIs(n / b, b);
      assert s[..|s| - 1] == Numeral(n / b, b);
    }
  }

  /** The value of a numeral determines it: there is no other one without leading zeros. */
  lemma {:induction false} NumeralUnique(s: bytes, b: int)
    requires 2 <= b <= 36 && CanonicalNumeral(s, b)
    ensures NumeralValue(s, b) >= 0 && s == Numeral(NumeralValue(s, b), b)
    ensures DigitValue(s[0], b) > 0 ==> NumeralValue(s, b) > 0
    decreases |s|
  {
    var last := DigitValue(s[|s| - 1], b);
    DigitBack(s[|s| - 1], b);
    if |s| == 1 {
      assert s[..0] == [];
    } else {
      var t := s[..|s| - 1];
      NumeralUnique(t, b);
      var m := NumeralValue(t, b);
      DivModOf(m, last, b);
      AtLeastOne(m, b);
      assert s == t + [s[|s| - 1]];
    }
  }

  lemma DigitBack(c: byte, b: int)
    requires 2 <= b <= 36 && DigitValue(c, b) >= 0
    ensures DigitChar(DigitValue(c, b)) == c
  {
  }

  function Pow10(k: nat): nat { if k == 0 then 1 else 10 * Pow10(k - 1) }

  /** A decimal numeral has at most `k` digits exactly when the number is below 10^k. */
  lemma {:induction false} NumeralLength(n: nat, k: nat)
    requires k > 0
    ensures |Numeral(n, 10)| <= k <==> n < Pow10(k)
    decreases k
  {
    if k == 1 {
      assert Pow10(1) == 10;
    } else if n >= 10 {
      NumeralLength(n / 10, k - 1);
    } else {
      assert Pow10(k) >= 10 by { PowPositive(k - 1); }
    }
  }

  lemma {:induction false} PowPositive(k: nat)
    ensures Pow10(k) >= 1
  {
    if k > 0 { PowPositive(k - 1); }
  }

  /** The stack buffers of the integer encoders hold the longest value of their type, its sign, quotes and NUL. */
  lemma BuffersFit(v: int)
    ensures 0 <= v < 0x100 ==> |Numeral(v, 10)| + 1 <= 4
    ensures -0x80 <= v < 0x80 ==> |SignedNumeral(v)| + 1 <= 5
    ensures 0 <= v < 0x1_0000 ==> |Numeral(v, 10)| + 1 <= 6
    ensures -0x8000 <= v < 0x8000 ==> |SignedNumeral(v)| + 1 <= 7
    ensures 0 <= v < 0x1_0000_0000 ==> |Numeral(v, 10)| + 1 <= 11
    ensures -0x8000_0000 <= v < 0x8000_0000 ==> |SignedNumeral(v)| + 1 <= 12
    ensures 0 <= v < UINT64_LIMIT ==> 1 + |Numeral(v, 10)| + 1 <= 23
    ensures INT64_MIN <= v <= INT64_MAX ==> 1 + |SignedNumeral(v)| + 1 <= 23
  {
    var n := if v < 0 then -v else v;
    Powers();
    NumeralLength(n, 3);
    NumeralLength(n, 5);
    NumeralLength(n, 10);
    NumeralLength(n, 20);
    NumeralLength(n, 19);
  }

  lemma Powers()
    ensures Pow10(3) == 1000 && Pow10(5) == 100000 && Pow10(10) == 10000000000
    ensures Pow10(19) == 10000000000000000000 && Pow10(20) == 100000000000000000000
  {
    assert Pow10(1) == 10;
    assert Pow10(3) == 1000;
    assert Pow10(5) == 100000;
    assert Pow10(7) == 10000000;
    assert Pow10(9) == 1000000000;
    assert Pow10(11) == 100000000000;
    assert Pow10(13) == 10000000000000;
    assert Pow10(15) == 1000000000000000;
    assert Pow10(17) == 100000000000000000;
  }

  // ---- Writing ----

  /** The digits as the loop produces them, least significant first; zero has none. */
  function Backwards(n: nat, b: int): bytes
    requires 2 <= b <= 36
  {
    if n == 0 then [] else [DigitChar(n % b)] + Backwards(n / b, b)
  }

  function Reversed(s: bytes): (r: bytes)
    ensures |r| == |s|
  {
    if s == [] then [] else Reversed(s[1..]) + [s[0]]
  }

  lemma {:induction false} ReversedAt(s: bytes, k: nat)
    requires k < |s|
    ensures Reversed(s)[k] == s[|s| - 1 - k]
  {
    if k < |s| - 1 {
      ReversedAt(s[1..], k);
    }
  }

  lemma {:induction false} BackwardsReversed(n: nat, b: int)
    requires 2 <= b <= 36
    ensures n > 0 ==> Reversed(Backwards(n, b)) == Numeral(n, b)
    decreases n
  {
    if n > 0 {
      DivFacts(n, b);
      BackwardsReversed(n / b, b);
      assert Backwards(n, b)[1..] == Backwards(n / b, b);
    }
  }

  method Reverse(buffer: array<byte>, len: nat)
    requires len <= buffer.Length
    modifies buffer
    ensures buffer[..len] == Reversed(old(buffer[..len])) && buffer[len..] == old(buffer[len..])
  {
    var i, j := 0, len - 1;
    while i < j
      invariant 0 <= i <= len && i + j == len - 1
      invariant forall k :: 0 <= k < i ==> buffer[k] == old(buffer[len - 1 - k]) && buffer[len - 1 - k] == old(buffer[k])
      invariant forall k :: i <= k <= j ==> buffer[k] == old(buffer[k])
      invariant buffer[len..] == old(buffer[len..])
    {
      buffer[i], buffer[j] := buffer[j], buffer[i];
      i, j := i + 1, j - 1;
    }
    ghost var was := old(buffer[..len]);
    forall k | 0 <= k < len
      ensures buffer[..len][k] == Reversed(was)[k]
    {
      ReversedAt(was, k);
    }
  }

  /** The digit loop: fills the buffer from its start. */
  method Digits(value: nat, buffer: array<byte>, base: int) returns (i: nat)
    requires 2 <= base <= 36 && |Numeral(value, base)| < buffer.Length
    modifies buffer
    ensures 0 < i == |Numeral(value, base)| && Reversed(buffer[..i]) == Numeral(value, base)
  {
    var n: nat := value;
    i := 0;
    BackwardsLength(value, base);
    while n > 0
      invariant i + |Backwards(n, base)| == |Backwards(value, base)|
      invariant i <= buffer.Length && buffer[..i] + Backwards(n, base) == Backwards(value, base)
      decreases n
    {
      DivFacts(n, base);
      ghost var before := buffer[..i];
      buffer[i] := DigitChar(n % base);
      assert buffer[..i + 1] == before + [DigitChar(n % base)];
      assert before + ([DigitChar(n % base)] + Backwards(n / base, base)) == buffer[..i + 1] + Backwards(n / base, base);
      i := i + 1;
      n := n / base;
    }
    assert buffer[..i] + [] == buffer[..i];
    BackwardsReversed(value, base);
    if i == 0 {
      buffer[0] := 48;
      i := 1;
      assert buffer[..1] == [DigitChar(0)];
      ReversedAt(buffer[..1], 0);
      assert Reversed(buffer[..1]) == [48];
    }
  }

  lemma BackwardsLength(n: nat, b: int)
    requires 2 <= b <= 36
    ensures n > 0 ==> |Backwards(n, b)| == |Numeral(n, b)|
    ensures n == 0 ==> |Numeral(n, b)| == 1
  {
    BackwardsReversed(n, b);
  }

  method ItoaUnsigned(value: nat, buffer: array<byte>, base: int) returns (len: nat)
    requires value < UINT64_LIMIT && 2 <= base <= 36 && |Numeral(value, base)| < buffer.Length
    modifies buffer
    ensures len < buffer.Length && buffer[..len] == Numeral(value, base) && buffer[len] == NUL
  {
    len := Digits(value, buffer, base);
    ghost var written := buffer[..len];
    buffer[len] := NUL;
    assert buffer[..len] == written;
    Reverse(buffer, len);
    assert buffer[len] == buffer[len..][0];
  }

  method ItoaSigned(value: int, buffer: array<byte>) returns (len: nat)
    requires INT64_MIN <= value <= INT64_MAX && |SignedNumeral(value)| < buffer.Length
    modifies buffer
    ensures len < buffer.Length && buffer[..len] == SignedNumeral(value) && buffer[len] == NUL
  {
    hide Numeral, Reversed;
    var n: nat;
    if value == INT64_MIN {
      n := INT64_MAX + 1;
    } else {
      n := if value < 0 then -value else value;
    }
    len := Digits(n, buffer, 10);
    ghost var digits := buffer[..len];
    if value < 0 {
      buffer[len] := MINUS;
      len := len + 1;
      assert buffer[..len] == digits + [MINUS];
      ReversedSnoc(digits, MINUS);
    }
    ghost var written := buffer[..len];
    buffer[len] := NUL;
    assert buffer[..len] == written;
    Reverse(buffer, len);
    assert buffer[len] == buffer[len..][0];
  }

  lemma {:induction false} ReversedSnoc(s: bytes, c: byte)
    ensures Reversed(s + [c]) == [c] + Reversed(s)
    decreases |s|
  {
    if s == [] {
      assert (s + [c])[1..] == [];
    } else {
      assert (s + [c])[1..] == s[1..] + [c];
      ReversedSnoc(s[1..], c);
    }
  }

  // ---- Reading ----

  /** The outcome of a conversion; `Overflow` when a signed accumulator leaves int64, which C leaves undefined. */
  datatype Parsed = Malformed | Overflow | Number(n: int)

  /** The unsigned loop from index `i`: it wraps around at 2^64. */
  function ParseUnsigned(s: bytes, i: nat, n: nat): Parsed
    requires i <= |s|
    decreases |s| - i
  {
    if i == |s| then Number(n)
    else if IsDigit(s[i]) then ParseUnsigned(s, i + 1, (n * 10 + (s[i] - 48)) % UINT64_LIMIT)
    else Malformed
  }

  /** The signed loop from index `i`: both the product and the sum must stay in int64. */
  function ParseSigned(s: bytes, i: nat, n: nat): Parsed
    requires i <= |s|
    decreases |s| - i
  {
    if i == |s| then Number(n)
    else if IsDigit(s[i]) then
      if n * 10 + (s[i] - 48) > INT64_MAX then Overflow else ParseSigned(s, i + 1, n * 10 + (s[i] - 48))
    else Malformed
  }

  function AtoiUnsignedOf(s: bytes): Parsed { if |s| < 1 then Malformed else ParseUnsigned(s, 0, 0) }

  function AtoiSignedOf(s: bytes): Parsed {
    if |s| < 1 then Malformed
    else if s[0] == MINUS then
      var r := ParseSigned(s, 1, 0);
      if r.Number? then Number(-r.n) else r
    else ParseSigned(s, 0, 0)
  }

  method AtoiUnsigned(s: bytes) returns (r: Parsed)
    ensures r == AtoiUnsignedOf(s)
    ensures r == if s != [] && DigitsEnd(s, 0) == |s| then Number(NumeralValue(s, 10) % UINT64_LIMIT) else Malformed
  {
    hide NumeralValue, DigitsEnd;
    AtoiUnsignedReads(s);
    if |s| < 1 {
      return Malformed;
    }
    var i, n := 0, 0;
    while i < |s|
      invariant 0 <= i <= |s| && 0 <= n
      invariant ParseUnsigned(s, 0, 0) == ParseUnsigned(s, i, n)
    {
      if !IsDigit(s[i]) {
        return Malformed;
      }
      n := (n * 10 + (s[i] - 48)) % UINT64_LIMIT;
      i := i + 1;
    }
    return Number(n);
  }

  method AtoiSigned(s: bytes) returns (r: Parsed)
    ensures r == AtoiSignedOf(s)
    ensures r.Number? ==>
      var from := if s != [] && s[0] == MINUS then 1 else 0;
      s != [] && DigitsEnd(s, from) == |s| && r.n == if from == 1 then -NumeralValue(s[1..], 10) else NumeralValue(s, 10)
  {
    hide NumeralValue, DigitsEnd;
    AtoiSignedReads(s);
    assert s[0..|s|] == s && (s != [] ==> s[1..|s|] == s[1..]);
    if |s| < 1 {
      return Malformed;
    }
    var i, n, neg := 0, 0, false;
    if s[0] == MINUS {
      neg := true;
      i := 1;
    }
    while i < |s|
      invariant (if neg then 1 else 0) <= i <= |s| && 0 <= n
      invariant ParseSigned(s, if neg then 1 else 0, 0) == ParseSigned(s, i, n)
    {
      if !IsDigit(s[i]) {
        return Malformed;
      }
      if n * 10 + (s[i] - 48) > INT64_MAX {
        return Overflow;
      }
      n := n * 10 + (s[i] - 48);
      i := i + 1;
    }
    return Number(if neg then -n else n);
  }

  // ---- What is read ----

  /** The index after the digits that start at `i`. */
  function DigitsEnd(s: bytes, i: nat): (e: nat)
    requires i <= |s|
    ensures i <= e <= |s| && (e < |s| ==> !IsDigit(s[e])) && forall k :: i <= k < e ==> IsDigit(s[k])
    decreases |s| - i
  {
    if i < |s| && IsDigit(s[i]) then DigitsEnd(s, i + 1) else i
  }

  lemma OneDigitMore(s: bytes, from: nat, i: nat)
    requires from <= i < |s| && IsDigit(s[i])
    ensures NumeralValue(s[from..i + 1], 10) == NumeralValue(s[from..i], 10) * 10 + (s[i] - 48)
  {
    var d := s[from..i + 1];
    assert d[..|d| - 1] == s[from..i] && d[|d| - 1] == s[i];
  }

  /** More digits make no smaller number. */
  lemma {:induction false} ValueGrows(s: bytes, from: nat, i: nat, j: nat)
    requires from <= i <= j <= |s| && forall k :: from <= k < j ==> IsDigit(s[k])
    ensures 0 <= NumeralValue(s[from..i], 10) <= NumeralValue(s[from..j], 10)
    decreases j
  {
    if i < j {
      ValueGrows(s, from, i, j - 1);
      OneDigitMore(s, from, j - 1);
    } else if from < j {
      ValueGrows(s, from, j - 1, j - 1);
      OneDigitMore(s, from, j - 1);
    } else {
      assert s[from..j] == [];
    }
  }

  /** One more digit modulo the limit. */
  lemma WrapsOnce(v: nat, d: nat)
    ensures (v % UINT64_LIMIT * 10 + d) % UINT64_LIMIT == (v * 10 + d) % UINT64_LIMIT
  {
    var q, r := v / UINT64_LIMIT, v % UINT64_LIMIT;
    var y := r * 10 + d;
    var a, b := y / UINT64_LIMIT, y % UINT64_LIMIT;
    assert v == q * UINT64_LIMIT + r && y == a * UINT64_LIMIT + b;
    var m := 10 * q + a;
    assert v * 10 + d == m * UINT64_LIMIT + b;
    DivModOf(m, b, UINT64_LIMIT);
  }

  lemma {:induction false} ParseUnsignedIs(s: bytes, i: nat)
    requires i <= DigitsEnd(s, 0)
    ensures ParseUnsigned(s, i, NumeralValue(s[..i], 10) % UINT64_LIMIT) ==
      if DigitsEnd(s, 0) == |s| then Number(NumeralValue(s, 10) % UINT64_LIMIT) else Malformed
    decreases |s| - i
  {
    hide DigitsEnd, NumeralValue;
    ValueGrows(s, 0, i, i);
    assert s[0..i] == s[..i];
    if i == |s| {
      assert s[..i] == s;
    } else if i < DigitsEnd(s, 0) {
      OneDigitMore(s, 0, i);
      assert s[0..i + 1] == s[..i + 1];
      WrapsOnce(NumeralValue(s[..i], 10), s[i] - 48);
      ParseUnsignedIs(s, i + 1);
    }
  }

  /** A non-empty row of digits, leading zeros or not, is read as its value modulo 2^64; anything else is malformed. */
  lemma AtoiUnsignedReads(s: bytes)
    ensures AtoiUnsignedOf(s) ==
      if s != [] && DigitsEnd(s, 0) == |s| then Number(NumeralValue(s, 10) % UINT64_LIMIT) else Malformed
  {
    hide NumeralValue;
    if s != [] {
      EmptyIsZero();
      assert s[..0] == [];
      ParseUnsignedIs(s, 0);
    }
  }

  lemma EmptyIsZero()
    ensures NumeralValue([], 10) == 0
  {
  }

  lemma {:induction false} ParseSignedIs(s: bytes, from: nat, i: nat)
    requires from <= i <= |s| && i <= DigitsEnd(s, from) && NumeralValue(s[from..i], 10) <= INT64_MAX
    ensures NumeralValue(s[from..i], 10) >= 0
    ensures var e := DigitsEnd(s, from);
            var v := NumeralValue(s[from..e], 10);
            ParseSigned(s, i, NumeralValue(s[from..i], 10)) ==
              if v > INT64_MAX then Overflow else if e < |s| then Malformed else Number(v)
    decreases |s| - i
  {
    hide DigitsEnd, NumeralValue;
    var e := DigitsEnd(s, from);
    ValueGrows(s, from, i, i);
    if i < e {
      OneDigitMore(s, from, i);
      ValueGrows(s, from, i + 1, e);
      if NumeralValue(s[from..i + 1], 10) <= INT64_MAX {
        ParseSignedIs(s, from, i + 1);
      }
    }
  }

  /**
   After an optional minus the digits are read, none being zero.  The accumulator overflows exactly
   when the number of the leading digits leaves int64, whatever follows them; otherwise the text is
   malformed exactly when something follows.
   */
  lemma AtoiSignedReads(s: bytes)
    ensures AtoiSignedOf(s) ==
      if s == [] then Malformed
      else
        var from := if s[0] == MINUS then 1 else 0;
        var e := DigitsEnd(s, from);
        var v := NumeralValue(s[from..e], 10);
        if v > INT64_MAX then Overflow
        else if e < |s| then Malformed
        else Number(if from == 1 then -v else v)
  {
    hide NumeralValue;
    if s != [] {
      var from := if s[0] == MINUS then 1 else 0;
      EmptyIsZero();
      assert s[from..from] == [];
      ParseSignedIs(s, from, from);
    }
  }

  // ---- Reading what was written ----

  /** After the digits of the front part the accumulator holds its value; `limit` is the last value reached. */
  lemma {:induction false} ParseNumeral(s: bytes, k: nat, n: nat)
    requires k + |Numeral(n, 10)| <= |s| && At(s, k, Numeral(n, 10))
    ensures n < UINT64_LIMIT ==> ParseUnsigned(s, k, 0) == ParseUnsigned(s, k + |Numeral(n, 10)|, n)
    ensures n <= INT64_MAX ==> ParseSigned(s, k, 0) == ParseSigned(s, k + |Numeral(n, 10)|, n)
    ensures n > INT64_MAX ==> ParseSigned(s, k, 0) == Overflow
    decreases n
  {
    if n < 10 {
      assert s[k] == Numeral(n, 10)[0];
      assert ParseUnsigned(s, k, 0) == ParseUnsigned(s, k + 1, (0 * 10 + n) % UINT64_LIMIT);
      assert ParseSigned(s, k, 0) == ParseSigned(s, k + 1, 0 * 10 + n);
    } else {
      var front := Numeral(n / 10, 10);
      AtSplit(s, k, front, [DigitChar(n % 10)]);
      ParseNumeral(s, k, n / 10);
      var e := k + |front|;
      assert s[e] == [DigitChar(n % 10)][0] == 48 + n % 10;
      assert n / 10 * 10 + n % 10 == n;
    }
  }

  /** Base-10 numerals of all of uint64 are read back. */
  lemma UnsignedRoundTrip(v: nat)
    requires v < UINT64_LIMIT
    ensures AtoiUnsignedOf(Numeral(v, 10)) == Number(v)
  {
    ParseNumeral(Numeral(v, 10), 0, v);
  }

  /** Signed numerals are read back, except that of INT64_MIN, whose digits do not fit the accumulator. */
  lemma SignedRoundTrip(v: int)
    requires INT64_MIN <= v <= INT64_MAX
    ensures AtoiSignedOf(SignedNumeral(v)) == if v == INT64_MIN then Overflow else Number(v)
  {
    var s := SignedNumeral(v);
    if v < 0 {
      assert s[0] == MINUS;
      assert At(s, 1, Numeral(-v, 10));
      ParseNumeral(s, 1, -v);
    } else {
      NumeralIs(v, 10);
      assert DigitValue(s[0], 10) >= 0;
      ParseNumeral(s, 0, v);
    }
  }

  /** Numerals as the JSON layer sees them: digits only, none of them special. */
  lemma {:induction false} NumeralDigits(n: nat)
    ensures forall i :: 0 <= i < |Numeral(n, 10)| ==> IsDigit(Numeral(n, 10)[i])
    decreases n
  {
    if n >= 10 {
      NumeralDigits(n / 10);
    }
  }
}
