/**
 What the escapes of a JSON string stand for (section 7 of RFC 8259), for all of them: also those the
 encoder never writes.  A `\u` escape is given by the value of its four digits, in either case.
 */
module EscapeLaws {
  import opened Bytes
  import opened StringCodec
  import opened Utf8

  // ---- Four hexadecimal digits ----

  /** The value of a hexadecimal digit. */
  function HexValue(c: byte): int
    requires IsHex(c)
  {
    if c <= '9' as int then c - '0' as int else if c <= 'F' as int then c - 'A' as int + 10 else c - 'a' as int + 10
  }

  /** The four digits write the number. */
  predicate Writes(d: bytes, n: int) {
    && |d| == 4 && IsHex(d[0]) && IsHex(d[1]) && IsHex(d[2]) && IsHex(d[3])
    && n == HexValue(d[0]) * 0x1000 + HexValue(d[1]) * 0x100 + HexValue(d[2]) * 0x10 + HexValue(d[3])
  }

  lemma DigitsAgree(c: byte)
    requires IsHex(c)
    ensures DigitOrLetter(c) == HexValue(c) && 0 <= HexValue(c) < 16
  {
  }

  /** A `\u` and its digits. */
  function Unit(d: bytes): bytes { Ascii("\\u") + d }

  /** Every number of sixteen bits has digits. */
  lemma DigitsFor(n: int) returns (d: bytes)
    requires 0 <= n < 0x10000
    ensures Writes(d, n)
  {
    hide IsHex, HexValue, Ascii;
    var s := Ascii("0123456789ABCDEF");
    HexLetters();
    var n0, n1, n2, n3 := n / 0x1000, n / 0x100 % 16, n / 0x10 % 16, n % 16;
    FourDigits(n);
    d := [s[n0], s[n1], s[n2], s[n3]];
  }

  lemma FourDigits(n: int)
    requires 0 <= n < 0x10000
    ensures n == n / 0x1000 * 0x1000 + n / 0x100 % 16 * 0x100 + n / 0x10 % 16 * 0x10 + n % 16 && n / 0x1000 < 16
  {
    assert n / 0x10 / 0x10 == n / 0x100 && n / 0x100 / 0x10 == n / 0x1000;
  }

  lemma HexLetters()
    ensures forall k :: 0 <= k < 16 ==> IsHex(Ascii("0123456789ABCDEF")[k]) && HexValue(Ascii("0123456789ABCDEF")[k]) == k
  {
    var s := Ascii("0123456789ABCDEF");
    assert s == [48, 49, 50, 51, 52, 53, 54, 55, 56, 57, 65, 66, 67, 68, 69, 70];
  }

  lemma UnitIs(b: bytes, i: nat, d: bytes, n: int)
    requires At(b, i, Unit(d)) && Writes(d, n)
    ensures i + 6 <= |b| && b[i] == BACKSLASH && b[i + 1] == 117 && DecodeHex4(b, i + 2) == n && 0 <= n < 0x10000
  {
    hide HexValue, DigitOrLetter, HexFold;
    var u := Unit(d);
    assert Ascii("\\u") == [BACKSLASH, 117];
    assert b[i] == u[0] && b[i + 1] == u[1] && b[i + 2] == u[2] && b[i + 3] == u[3] && b[i + 4] == u[4] && b[i + 5] == u[5];
    HexFold4(b, i + 2);
    DigitsAgree(d[0]);
    DigitsAgree(d[1]);
    DigitsAgree(d[2]);
    DigitsAgree(d[3]);
  }

  // ---- Units and pairs ----

  /** A unit that is no surrogate stands for the UTF-8 of its number. */
  lemma UnitReads(b: bytes, i: nat, d: bytes, n: int)
    requires At(b, i, Unit(d)) && Writes(d, n) && !Surrogate(n)
    ensures i + 6 <= |b| && Unescape(b, i) == Prepend(Encode(n), Unescape(b, i + 6))
  {
    hide DecodeHex4, Encode;
    UnitIs(b, i, d, n);
    assert UnescapeItem(b, i) == Item(Encode(n), i + 6);
  }

  /** The high and the low surrogate of a code point behind the first plane. */
  function High(cp: int): int { 0xD800 + (cp - 0x10000) / 0x400 }

  function Low(cp: int): int { 0xDC00 + (cp - 0x10000) % 0x400 }

  /** A pair of surrogates stands for the UTF-8 of its code point. */
  lemma PairReads(b: bytes, i: nat, d: bytes, e: bytes, cp: int)
    requires 0x10000 <= cp <= 0x10FFFF && At(b, i, Unit(d) + Unit(e)) && Writes(d, High(cp)) && Writes(e, Low(cp))
    ensures i + 12 <= |b| && Unescape(b, i) == Prepend(Encode(cp), Unescape(b, i + 12))
  {
    hide DecodeHex4, Encode;
    AtSplit(b, i, Unit(d), Unit(e));
    assert |Unit(d)| == 6;
    UnitIs(b, i, d, High(cp));
    UnitIs(b, i + 6, e, Low(cp));
    PairValue(cp);
    assert UnescapeItem(b, i) == Item(Encode(cp), i + 12);
  }

  lemma PairValue(cp: int)
    requires 0x10000 <= cp <= 0x10FFFF
    ensures 0xD800 <= High(cp) <= 0xDBFF && 0xDC00 <= Low(cp) <= 0xDFFF
    ensures (High(cp) - 0xD800) * 0x400 + (Low(cp) - 0xDC00) + 0x10000 == cp
  {
  }

  /** A low surrogate without a high one in front is refused; so a reversed pair is. */
  lemma LowAlone(b: bytes, i: nat, d: bytes, n: int)
    requires At(b, i, Unit(d)) && Writes(d, n) && 0xDC00 <= n <= 0xDFFF
    ensures i <= |b| && Unescape(b, i) == None
  {
    hide DecodeHex4, Encode;
    UnitIs(b, i, d, n);
    assert UnescapeItem(b, i) == BadItem;
  }

  /** A high surrogate is refused when the text ends too soon, no unit follows, or one that is no low surrogate. */
  lemma HighAlone(b: bytes, i: nat, d: bytes, n: int, e: bytes, m: int)
    requires At(b, i, Unit(d)) && Writes(d, n) && 0xD800 <= n <= 0xDBFF
    requires
      || |b| < i + 12
      || !At(b, i + 6, Ascii("\\u"))
      || (At(b, i + 6, Unit(e)) && Writes(e, m) && !(0xDC00 <= m <= 0xDFFF))
    ensures i <= |b| && Unescape(b, i) == None
  {
    hide DecodeHex4, Encode;
    UnitIs(b, i, d, n);
    assert Ascii("\\u") == [BACKSLASH, 117];
    if At(b, i + 6, Unit(e)) && Writes(e, m) && !(0xDC00 <= m <= 0xDFFF) {
      UnitIs(b, i + 6, e, m);
    }
    assert UnescapeItem(b, i) == BadItem;
  }

  /** Whole strings: the escape of a code point alone, whatever the case of its digits. */
  lemma EscapeReads(cp: int, d: bytes, e: bytes)
    requires 0 <= cp <= 0x10FFFF && !Surrogate(cp)
    ensures cp < 0x10000 && Writes(d, cp) ==> Unescape(Unit(d), 0) == Some(Encode(cp))
    ensures cp >= 0x10000 && Writes(d, High(cp)) && Writes(e, Low(cp)) ==> Unescape(Unit(d) + Unit(e), 0) == Some(Encode(cp))
  {
    hide Encode;
    PrependIs(Encode(cp), Some([]));
    if cp < 0x10000 && Writes(d, cp) {
      UnitReads(Unit(d), 0, d, cp);
    }
    if cp >= 0x10000 && Writes(d, High(cp)) && Writes(e, Low(cp)) {
      PairReads(Unit(d) + Unit(e), 0, d, e, cp);
    }
  }

  // ---- Short escapes ----

  /** The characters after a backslash, and what they stand for. */
  const SHORT: string := "\"\\/bfnrt"
  const MEANT: seq<int> := [34, 92, 47, 8, 12, 10, 13, 9]

  lemma Shorts()
    ensures Ascii(SHORT) == [34, 92, 47, 98, 102, 110, 114, 116]
  {
  }

  /** Each two-character escape gives its character. */
  lemma ShortReads(b: bytes, i: nat, k: nat)
    requires k < 8 && i + 2 <= |b| && b[i] == BACKSLASH && b[i + 1] == Ascii(SHORT)[k]
    ensures Unescape(b, i) == Prepend([MEANT[k]], Unescape(b, i + 2))
  {
    Shorts();
    assert UnescapeItem(b, i) == Item([MEANT[k]], i + 2);
  }

  /** Any other character after a backslash is refused, and so is a backslash at the end. */
  lemma OtherEscapes(b: bytes, i: nat)
    requires i < |b| && b[i] == BACKSLASH && (i + 1 < |b| ==> b[i + 1] !in Ascii(SHORT) && b[i + 1] != 'u' as int)
    ensures Unescape(b, i) == None
  {
    Shorts();
    if i + 1 < |b| {
      var s := Ascii(SHORT);
      assert s[0] == 34 && s[1] == 92 && s[2] == 47 && s[3] == 98 && s[4] == 102 && s[5] == 110 && s[6] == 114 && s[7] == 116;
    }
    assert UnescapeItem(b, i) == BadItem;
  }

  /** A `\u` with fewer than four bytes behind it is refused. */
  lemma ShortUnit(b: bytes, i: nat)
    requires At(b, i, Ascii("\\u")) && |b| < i + 6
    ensures i <= |b| && Unescape(b, i) == None
  {
    assert Ascii("\\u") == [BACKSLASH, 117];
    AtIndex(b, i, Ascii("\\u"), 0);
    AtIndex(b, i, Ascii("\\u"), 1);
    assert UnescapeItem(b, i) == BadItem;
  }

  /** Letters count as digits as far as z; any other byte in a unit is refused. */
  lemma LetterDigits(b: bytes, i: nat)
    requires i + 4 <= |b|
    ensures (exists k :: i <= k < i + 4 && Place(b[k]) < 0) <==> DecodeHex4(b, i) < 0
    ensures DecodeHex4(b, i) >= 0 ==>
      DecodeHex4(b, i) == Place(b[i]) * 0x1000 + Place(b[i + 1]) * 0x100 + Place(b[i + 2]) * 0x10 + Place(b[i + 3])
  {
    hide DigitOrLetter, Place, HexFold;
    HexFold4(b, i);
    SamePlace(b[i]);
    SamePlace(b[i + 1]);
    SamePlace(b[i + 2]);
    SamePlace(b[i + 3]);
  }

  /** The place of a digit or letter in 0 to 9, a to z. */
  function Place(c: byte): int {
    if '0' as int <= c <= '9' as int then c - '0' as int
    else if 'a' as int <= c <= 'z' as int then c - 'a' as int + 10
    else if 'A' as int <= c <= 'Z' as int then c - 'A' as int + 10
    else -1
  }

  lemma SamePlace(c: byte)
    ensures DigitOrLetter(c) == Place(c) && -1 <= Place(c) < 36
  {
  }

  /** Anything but a backslash stands for itself. */
  lemma PlainReads(b: bytes, i: nat)
    requires i < |b| && b[i] != BACKSLASH
    ensures Unescape(b, i) == Prepend([b[i]], Unescape(b, i + 1))
  {
    assert UnescapeItem(b, i) == Item([b[i]], i + 1);
  }

  // ---- What the encoder writes ----

  /** Quote, backslash and the control characters: a short escape, or `\u00` and two lower-case digits. */
  lemma WrittenEscapes(cp: int)
    requires 0 <= cp < 0x20 || cp == 34 || cp == 92
    ensures cp == 34 ==> EscapeOf(cp) == Ascii("\\\"")
    ensures cp == 92 ==> EscapeOf(cp) == Ascii("\\\\")
    ensures cp == 8 ==> EscapeOf(cp) == Ascii("\\b")
    ensures cp == 9 ==> EscapeOf(cp) == Ascii("\\t")
    ensures cp == 10 ==> EscapeOf(cp) == Ascii("\\n")
    ensures cp == 12 ==> EscapeOf(cp) == Ascii("\\f")
    ensures cp == 13 ==> EscapeOf(cp) == Ascii("\\r")
    ensures cp < 0x20 && cp !in {8, 9, 10, 12, 13} ==>
      EscapeOf(cp) == Ascii("\\u00") + [Ascii("0123456789abcdef")[cp / 16], Ascii("0123456789abcdef")[cp % 16]]
  {
    hide HexLower;
    LowerLetters();
    ShortTexts();
    if cp < 0x20 && cp !in {8, 9, 10, 12, 13} { ControlDigits(cp); }
  }

  lemma ShortTexts()
    ensures Ascii("\\u00") == [BACKSLASH, 117, 48, 48] && Ascii("\\\"") == [92, 34] && Ascii("\\\\") == [92, 92]
    ensures Ascii("\\b") == [92, 98] && Ascii("\\t") == [92, 116] && Ascii("\\n") == [92, 110]
    ensures Ascii("\\r") == [92, 114] && Ascii("\\f") == [92, 102]
  {
  }

  lemma ControlDigits(cp: int)
    requires 0 <= cp < 0x20
    ensures HexEscape(cp) == [BACKSLASH, 117, 48, 48, HexLower(cp / 16), HexLower(cp % 16)]
  {
    assert cp / 0x1000 == 0 && cp / 0x100 % 16 == 0 && cp / 16 % 16 == cp / 16;
  }

  lemma LowerLetters()
    ensures forall k :: 0 <= k < 16 ==> Ascii("0123456789abcdef")[k] == HexLower(k)
  {
    var s := Ascii("0123456789abcdef");
    assert s == [48, 49, 50, 51, 52, 53, 54, 55, 56, 57, 97, 98, 99, 100, 101, 102];
  }

  /** Any other code point has an escape of one unit, or of two behind the first plane, with lower-case digits. */
  lemma OtherWritten(cp: int) returns (d: bytes, e: bytes)
    requires 0 <= cp <= 0x10FFFF && cp !in {8, 9, 10, 12, 13, 34, 47, 92}
    ensures cp < 0x10000 ==> Writes(d, cp) && EscapeOf(cp) == Unit(d)
    ensures cp >= 0x10000 ==> Writes(d, High(cp)) && Writes(e, Low(cp)) && EscapeOf(cp) == Unit(d) + Unit(e)
  {
    hide Writes, HexEscape;
    if cp < 0x10000 {
      d := UnitWritten(cp);
      e := [];
    } else {
      PairValue(cp);
      d := UnitWritten(High(cp));
      e := UnitWritten(Low(cp));
    }
  }

  lemma UnitWritten(n: int) returns (d: bytes)
    requires 0 <= n < 0x10000
    ensures Writes(d, n) && HexEscape(n) == Unit(d)
  {
    hide HexLower, IsHex, HexValue;
    d := HexEscape(n)[2..];
    assert Ascii("\\u") == [BACKSLASH, 117];
    FourDigits(n);
    forall k | 0 <= k < 16 ensures IsHex(HexLower(k)) && HexValue(HexLower(k)) == k { LowerValue(k); }
  }

  lemma LowerValue(k: int)
    requires 0 <= k < 16
    ensures IsHex(HexLower(k)) && HexValue(HexLower(k)) == k
  {
  }

  /** Exactly these are escaped; all other characters are copied, and what is no UTF-8 has no escaped text. */
  lemma CopiedOrEscaped(s: bytes, i: nat)
    requires i < |s|
    ensures var it := Iterate(s[i..]);
            if !it.Point? then Escape(s, i) == None
            else i + it.len <= |s| && Escape(s, i) ==
                   Prepend(if it.cp >= 0x20 && it.cp != '"' as int && it.cp != '\\' as int then s[i..i + it.len]
                           else EscapeOf(if 0 <= it.cp <= 0x10FFFF then it.cp else 0),
                           Escape(s, i + it.len))
  {
    hide Iterate, EscapeOf;
    if Iterate(s[i..]).Point? { IterateIsCanonical(s[i..]); }
  }

  // ---- UTF-8 keeps the order of code points ----

  /** Less in the order of dictionaries, byte by byte. */
  predicate Before(a: bytes, b: bytes) {
    a != b && (a == [] || (b != [] && (a[0] < b[0] || (a[0] == b[0] && Before(a[1..], b[1..])))))
  }

  /** The first byte in which two sequences differ decides. */
  lemma {:induction false} DiffersAt(a: bytes, b: bytes, k: nat)
    requires k < |a| && k < |b| && a[..k] == b[..k] && a[k] < b[k]
    ensures Before(a, b)
    decreases k
  {
    if k > 0 {
      assert a[0] == a[..k][0] && b[0] == b[..k][0];
      assert a[1..][..k - 1] == a[..k][1..] && b[1..][..k - 1] == b[..k][1..];
      DiffersAt(a[1..], b[1..], k - 1);
    }
  }

  /** The digits of a number in base 64. */
  lemma Sixes(c: int)
    requires c >= 0
    ensures c == c / 0x40 * 0x40 + c % 0x40 && c / 0x40 == c / 0x1000 * 0x40 + c / 0x40 % 0x40
    ensures c / 0x1000 == c / 0x40000 * 0x40 + c / 0x1000 % 0x40
  {
    assert c / 0x40 / 0x40 == c / 0x1000;
    assert c / 0x1000 / 0x40 == c / 0x40000;
  }

  lemma LengthsOrder(c: int, d: int)
    requires 0 <= c < d <= 0x10FFFF && |Encode(c)| != |Encode(d)|
    ensures Encode(c) != [] && Encode(d) != [] && Encode(c)[0] < Encode(d)[0]
  {
  }

  /** The bytes of a code point are a first byte that grows with it, and digits in base 64. */
  lemma BytesOf(c: int)
    requires 0x80 <= c <= 0x10FFFF
    ensures c < 0x800 ==> Encode(c) == [0xC0 + c / 0x40, 0x80 + c % 0x40]
    ensures 0x800 <= c < 0x10000 ==> Encode(c) == [0xE0 + c / 0x1000, 0x80 + c / 0x40 % 0x40, 0x80 + c % 0x40]
    ensures 0x10000 <= c ==>
      Encode(c) == [0xF0 + c / 0x40000, 0x80 + c / 0x1000 % 0x40, 0x80 + c / 0x40 % 0x40, 0x80 + c % 0x40]
  {
  }

  lemma SameLengthOrder(c: int, d: int)
    requires 0x80 <= c < d <= 0x10FFFF && |Encode(c)| == |Encode(d)|
    requires (c < 0x800 && d < 0x800) || (0x800 <= c && d < 0x10000) || 0x10000 <= c
    ensures Before(Encode(c), Encode(d))
  {
    hide Before, Encode;
    BytesOf(c);
    BytesOf(d);
    Sixes(c);
    Sixes(d);
    var a, b := Encode(c), Encode(d);
    if a[0] != b[0] {
      DiffersAt(a, b, 0);
    } else if a[1] != b[1] {
      DiffersAt(a, b, 1);
    } else if a[2] != b[2] {
      DiffersAt(a, b, 2);
    } else {
      DiffersAt(a, b, 3);
    }
  }

  lemma LengthsApart(c: int, d: int)
    requires 0 <= c < d <= 0x10FFFF && |Encode(c)| == |Encode(d)|
    ensures d < 0x80 || (0x80 <= c && d < 0x800) || (0x800 <= c && d < 0x10000) || 0x10000 <= c
    ensures d < 0x80 ==> Encode(c) == [c] && Encode(d) == [d]
  {
  }

  /** A smaller code point has the smaller bytes (section 1 of RFC 3629). */
  lemma OrderKept(c: int, d: int)
    requires 0 <= c < d <= 0x10FFFF
    ensures Before(Encode(c), Encode(d))
  {
    hide Before, Encode;
    if |Encode(c)| != |Encode(d)| {
      LengthsOrder(c, d);
      DiffersAt(Encode(c), Encode(d), 0);
    } else {
      LengthsApart(c, d);
      if d < 0x80 { DiffersAt(Encode(c), Encode(d), 0); } else { SameLengthOrder(c, d); }
    }
  }
}
