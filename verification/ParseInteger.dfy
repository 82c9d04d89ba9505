/**
 The integers of the default build: strtoull and strtoll, as section 7.22.1.4 of ISO/IEC 9899:2011
 describes them for base 10, and the checks around them
 (deps/src/ua_types_encoding_json.c:1681-1754).
 */
module ParseInteger {
  import opened Bytes
  import opened Itoa

  const PLUS: byte := 43

  predicate IsSpace(c: byte) { c == SPACE || 9 <= c <= 13 }

  function SkipSpaces(s: bytes, i: nat): (r: nat)
    requires i <= |s|
    ensures i <= r <= |s| && (r < |s| ==> !IsSpace(s[r])) && forall k :: i <= k < r ==> IsSpace(s[k])
    decreases |s| - i
  {
    if i < |s| && IsSpace(s[i]) then SkipSpaces(s, i + 1) else i
  }

  /** The parts of the subject sequence: a sign, and the digits up to the first other character. */
  datatype Subject = Subject(negative: bool, digits: bytes)

  function SubjectOf(s: bytes): (r: Subject)
    ensures forall k :: 0 <= k < |r.digits| ==> IsDigit(r.digits[k])
  {
    var i := SkipSpaces(s, 0);
    var j := if i < |s| && (s[i] == MINUS || s[i] == PLUS) then i + 1 else i;
    Subject(i < |s| && s[i] == MINUS, s[j..DigitsEnd(s, j)])
  }

  /** Nothing converted, a value out of range, or the value. */
  datatype Converted = NoDigits | OutOfRange | Value(n: int)

  /** An unsigned magnitude in range; a minus negates it in the return type. */
  function Strtoull(s: bytes): Converted {
    var p := SubjectOf(s);
    var v := NumeralValue(p.digits, 10);
    if p.digits == [] then NoDigits
    else if v >= UINT64_LIMIT then OutOfRange
    else Value(if p.negative then (UINT64_LIMIT - v) % UINT64_LIMIT else v)
  }

  function Strtoll(s: bytes): Converted {
    var p := SubjectOf(s);
    var v := NumeralValue(p.digits, 10);
    var n := if p.negative then -v else v;
    if p.digits == [] then NoDigits else if n < INT64_MIN || n > INT64_MAX then OutOfRange else Value(n)
  }

  /** At most twenty characters, some digits, and no range error. */
  function UnsignedOf(s: bytes): Option<int> {
    if |s| > 20 then None else match Strtoull(s) case Value(n) => Some(n) case _ => None
  }

  function SignedOf(s: bytes): Option<int> {
    if |s| > 20 then None else match Strtoll(s) case Value(n) => Some(n) case _ => None
  }

  // ---- What the two functions accept ----

  /** White space in the C locale: space, tab, newline, vertical tab, form feed and carriage return; and the signs. */
  lemma Characters(c: byte)
    ensures IsSpace(c) <==> c == ' ' as int || c in [9, 10, 11, 12, 13]
    ensures c in Ascii("+-") <==> c == PLUS || c == MINUS
  {
    assert Ascii("+-") == [43, 45];
  }

  /** White space, at most one sign, and digits, each as long as possible; then the rest, which is ignored. */
  ghost predicate Parts(text: bytes, blanks: bytes, sign: bytes, digits: bytes, tail: bytes) {
    && text == blanks + sign + digits + tail
    && (forall k :: 0 <= k < |blanks| ==> IsSpace(blanks[k]))
    && (sign == [] || sign == [PLUS] || sign == [MINUS])
    && (forall k :: 0 <= k < |digits| ==> IsDigit(digits[k]))
    && (tail != [] ==> !IsDigit(tail[0]))
    && (sign == [] && digits == [] && tail != [] ==> !IsSpace(tail[0]) && tail[0] != PLUS && tail[0] != MINUS)
  }

  /** Every text can be read this way. */
  lemma PartsOf(text: bytes) returns (blanks: bytes, sign: bytes, digits: bytes, tail: bytes)
    ensures Parts(text, blanks, sign, digits, tail)
  {
    var i := SkipSpaces(text, 0);
    var j := if i < |text| && (text[i] == MINUS || text[i] == PLUS) then i + 1 else i;
    var e := DigitsEnd(text, j);
    blanks, sign, digits, tail := text[..i], text[i..j], text[j..e], text[e..];
    assert sign == [] || sign == [text[i]];
  }

  lemma SubjectIs(text: bytes, blanks: bytes, sign: bytes, digits: bytes, tail: bytes)
    requires Parts(text, blanks, sign, digits, tail)
    ensures SubjectOf(text) == Subject(sign == [MINUS], digits)
  {
    hide SkipSpaces, DigitsEnd;
    var b, d := |blanks|, |blanks| + |sign|;
    var e := d + |digits|;
    PartsStand(text, blanks, sign, digits, tail);
    SpacesEndAt(text, b);
    DigitsEndAt(text, d, e);
  }

  lemma PartsStand(text: bytes, blanks: bytes, sign: bytes, digits: bytes, tail: bytes)
    requires Parts(text, blanks, sign, digits, tail)
    ensures var b, d, e := |blanks|, |blanks| + |sign|, |blanks| + |sign| + |digits|;
            && b <= d <= e <= |text| && text[d..e] == digits
            && (forall k :: 0 <= k < b ==> IsSpace(text[k])) && (b < |text| ==> !IsSpace(text[b]))
            && (if sign == [] then d == b && (b < |text| ==> text[b] != MINUS && text[b] != PLUS) else d == b + 1 && sign == [text[b]])
            && (forall k :: d <= k < e ==> IsDigit(text[k])) && (e < |text| ==> !IsDigit(text[e]))
  {
    var b, d, e := |blanks|, |blanks| + |sign|, |blanks| + |sign| + |digits|;
    forall k | 0 <= k < b ensures IsSpace(text[k]) { assert text[k] == blanks[k]; }
    forall k | d <= k < e ensures IsDigit(text[k]) { assert text[k] == digits[k - d]; }
    if e < |text| { assert text[e] == tail[0]; }
    if sign != [] {
      assert text[b] == sign[0];
    } else if digits != [] {
      assert text[b] == digits[0];
    }
  }

  lemma SpacesEndAt(s: bytes, b: nat)
    requires b <= |s| && (forall k :: 0 <= k < b ==> IsSpace(s[k])) && (b < |s| ==> !IsSpace(s[b]))
    ensures SkipSpaces(s, 0) == b
  {
  }

  lemma DigitsEndAt(s: bytes, i: nat, e: nat)
    requires i <= e <= |s| && (forall k :: i <= k < e ==> IsDigit(s[k])) && (e < |s| ==> !IsDigit(s[e]))
    ensures DigitsEnd(s, i) == e
  {
  }

  /** A number is read exactly from at most twenty characters with digits of a magnitude below 2^64; a minus negates it modulo 2^64. */
  lemma UnsignedReads(text: bytes, blanks: bytes, sign: bytes, digits: bytes, tail: bytes)
    requires Parts(text, blanks, sign, digits, tail)
    ensures var v, r := NumeralValue(digits, 10), UnsignedOf(text);
            && (r.Some? <==> |text| <= 20 && digits != [] && v < UINT64_LIMIT)
            && (r.Some? ==> r.value == (if sign == [MINUS] then (UINT64_LIMIT - v) % UINT64_LIMIT else v))
  {
    SubjectIs(text, blanks, sign, digits, tail);
  }

  /** The same for signed numbers, with the range of int64. */
  lemma SignedReads(text: bytes, blanks: bytes, sign: bytes, digits: bytes, tail: bytes)
    requires Parts(text, blanks, sign, digits, tail)
    ensures var n := if sign == [MINUS] then -NumeralValue(digits, 10) else NumeralValue(digits, 10);
            var r := SignedOf(text);
            && (r.Some? <==> |text| <= 20 && digits != [] && INT64_MIN <= n <= INT64_MAX)
            && (r.Some? ==> r.value == n)
  {
    SubjectIs(text, blanks, sign, digits, tail);
  }

  /** Every uint64 is read back from its numeral, which fits the twenty characters. */
  lemma UnsignedReadBack(v: nat)
    requires v < UINT64_LIMIT
    ensures UnsignedOf(Numeral(v, 10)) == Some(v)
  {
    hide Numeral, NumeralValue;
    var s := Numeral(v, 10);
    NumeralDigits(v);
    NumeralIs(v, 10);
    NumeralLength(v, 20);
    Powers();
    DigitsEndAt(s, 0, |s|);
    assert s[0..|s|] == s;
  }

  /** Every int64 is read back from its numeral, INT64_MIN included. */
  lemma SignedReadBack(v: int)
    requires INT64_MIN <= v <= INT64_MAX
    ensures SignedOf(SignedNumeral(v)) == Some(v)
  {
    hide Numeral, NumeralValue;
    var n := if v < 0 then -v else v;
    var d, s := Numeral(n, 10), SignedNumeral(v);
    NumeralDigits(n);
    NumeralIs(n, 10);
    NumeralLength(n, 19);
    Powers();
    if v < 0 {
      assert s[1..] == d;
      DigitsEndAt(s, 1, |s|);
      assert s[1..|s|] == d;
    } else {
      DigitsEndAt(s, 0, |s|);
      assert s[0..|s|] == d;
    }
  }

  /** On the numerals the encoder writes, the build with the custom libc reads the same, but for INT64_MIN. */
  lemma BuildsAgree(v: int)
    requires INT64_MIN <= v <= INT64_MAX
    ensures AtoiSignedOf(SignedNumeral(v)).Number? <==> v != INT64_MIN
    ensures AtoiSignedOf(SignedNumeral(v)).Number? ==> SignedOf(SignedNumeral(v)) == Some(AtoiSignedOf(SignedNumeral(v)).n)
  {
    hide Numeral, NumeralValue, SignedNumeral;
    SignedRoundTrip(v);
    SignedReadBack(v);
  }
}
