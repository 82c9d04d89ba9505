/** The text of a Guid by the values of its digit groups, in both directions (section 5.1.3 of OPC 10000-6). */
module GuidLaws {
  import opened Bytes
  import opened Decoder
  import opened EscapeLaws
  import opened RoundTrip
  import opened U = UaTypes

  predicate AllHex(t: bytes) { forall k :: 0 <= k < |t| ==> IsHex(t[k]) }

  /** The number a row of hexadecimal digits of either case writes. */
  function HexOf(t: bytes): int
    requires AllHex(t)
    decreases |t|
  {
    if t == [] then 0 else HexOf(t[..|t| - 1]) * 16 + HexValue(t[|t| - 1])
  }

  lemma {:induction false} LastDigit(t: bytes)
    requires t != []
    ensures HexNumber(t) == HexNumber(t[..|t| - 1]) * 16 + Hex2Int(t[|t| - 1])
    decreases |t|
  {
    var n := |t| - 1;
    if n > 0 {
      LastDigit(t[1..]);
      assert t[1..][..n - 1] == t[..n][1..];
      var first, p := Hex2Int(t[0]), Pow16(n - 1);
      assert Pow16(n) == 16 * p;
      assert first * (16 * p) == first * p * 16 by { Regroup(first, p); }
    } else {
      assert t[..0] == [] && t[1..] == [];
    }
  }

  lemma Regroup(a: int, p: int)
    ensures a * (16 * p) == a * p * 16
  {
  }

  lemma {:induction false} NumberIs(t: bytes)
    requires AllHex(t)
    ensures HexNumber(t) == HexOf(t)
    decreases |t|
  {
    hide Hex2Int, HexValue;
    if t != [] {
      LastDigit(t);
      NumberIs(t[..|t| - 1]);
      SameValue(t[|t| - 1]);
    }
  }

  lemma SameValue(c: byte)
    requires IsHex(c)
    ensures Hex2Int(c) == HexValue(c)
  {
  }

  lemma PairIs(c: bytes, i: nat)
    requires i + 2 <= |c| && AllHex(c[i..i + 2])
    ensures HexByte(c, i) == HexOf(c[i..i + 2])
  {
    hide Hex2Int, HexValue;
    var t := c[i..i + 2];
    SameValue(t[0]);
    SameValue(t[1]);
    assert t[..1] == [t[0]] && t[..1][..0] == [];
    assert HexOf(t[..1]) == HexValue(t[0]);
  }

  /** Hexadecimal digits everywhere but where the dashes stand. */
  ghost predicate Groups(c: bytes) {
    |c| == 36 && AllHex(c[0..8]) && AllHex(c[9..13]) && AllHex(c[14..18]) && AllHex(c[19..23]) && AllHex(c[24..36])
  }

  /** The groups of the text are the fields of the Guid, each highest digit first; its last eight bytes are in order. */
  ghost predicate Spells(c: bytes, g: U.Guid)
    requires Groups(c)
  {
    && g.data1 == HexOf(c[0..8]) && g.data2 == HexOf(c[9..13]) && g.data3 == HexOf(c[14..18]) && |g.data4| == 8
    && g.data4[0] == PairOf(c, 19) && g.data4[1] == PairOf(c, 21)
    && forall k :: 2 <= k < 8 ==> g.data4[k] == PairOf(c, 20 + 2 * k)
  }

  function PairOf(c: bytes, i: nat): int { if i + 2 <= |c| && AllHex(c[i..i + 2]) then HexOf(c[i..i + 2]) else 0 }

  lemma PairIsHex(c: bytes, i: nat)
    requires Groups(c) && (19 <= i <= 21 || 24 <= i <= 34)
    ensures AllHex(c[i..i + 2])
  {
    if i <= 21 {
      assert c[i] == c[19..23][i - 19] && c[i + 1] == c[19..23][i - 18];
    } else {
      assert c[i] == c[24..36][i - 24] && c[i + 1] == c[24..36][i - 23];
    }
  }

  /** What the decoder reads, digits of either case. */
  lemma ReadsGroups(c: bytes)
    requires Groups(c)
    ensures Spells(c, GuidFromChars(c))
  {
    hide HexNumber, HexOf, HexByte;
    NumberIs(c[0..8]);
    NumberIs(c[9..13]);
    NumberIs(c[14..18]);
    PairIsHex(c, 19);
    PairIsHex(c, 21);
    PairIs(c, 19);
    PairIs(c, 21);
    forall k | 2 <= k < 8 ensures HexByte(c, 20 + 2 * k) == PairOf(c, 20 + 2 * k) {
      PairIsHex(c, 20 + 2 * k);
      PairIs(c, 20 + 2 * k);
    }
    LastSix(c);
  }

  lemma LastSix(c: bytes)
    requires |c| == 36
    ensures var d := GuidFromChars(c).data4; |d| == 8 && forall k :: 2 <= k < 8 ==> d[k] == HexByte(c, 20 + 2 * k)
  {
    hide HexNumber, HexByte;
  }

  /** What the encoder writes: capital digits in groups of 8, 4, 4, 4 and 12 with dashes between, spelling the Guid. */
  lemma WritesGroups(g: U.Guid)
    requires ValidGuid(g)
    ensures var c := GuidText(g);
            && Groups(c) && Spells(c, g)
            && c[8] == c[13] == c[18] == c[23] == '-' as int
            && forall k :: 0 <= k < 36 ==> !('a' as int <= c[k] <= 'f' as int)
  {
    hide GuidText, GuidFromChars, HexText, HexBytes, HexOf, Spells;
    var c := GuidText(g);
    GuidBack(g);
    GuidGroups(g);
    ReadsGroups(c);
  }

  predicate Capital(t: bytes) { forall k :: 0 <= k < |t| ==> IsHex(t[k]) && t[k] < 'a' as int }

  lemma {:induction false} HexTextCapital(d: nat, n: nat)
    ensures Capital(HexText(d, n))
    decreases n
  {
    if n > 0 { HexTextCapital(d, n - 1); }
  }

  lemma {:induction false} HexBytesCapital(b: bytes)
    ensures Capital(HexBytes(b))
    decreases |b|
  {
    hide HexText;
    if b != [] {
      HexTextCapital(b[0], 2);
      HexBytesCapital(b[1..]);
    }
  }

  lemma GuidGroups(g: U.Guid)
    requires ValidGuid(g)
    ensures var c := GuidText(g);
            && Groups(c) && c[8] == c[13] == c[18] == c[23] == '-' as int
            && forall k :: 0 <= k < 36 ==> !('a' as int <= c[k] <= 'f' as int)
  {
    hide HexText, HexBytes;
    HexTextCapital(g.data1, 8);
    HexTextCapital(g.data2, 4);
    HexTextCapital(g.data3, 4);
    HexBytesCapital(g.data4[..2]);
    HexBytesCapital(g.data4[2..]);
    Laid(HexText(g.data1, 8), HexText(g.data2, 4), HexText(g.data3, 4), HexBytes(g.data4[..2]), HexBytes(g.data4[2..]));
  }

  lemma Laid(a: bytes, b: bytes, d: bytes, e: bytes, f: bytes)
    requires |a| == 8 && |b| == |d| == |e| == 4 && |f| == 12
    requires Capital(a) && Capital(b) && Capital(d) && Capital(e) && Capital(f)
    ensures var c := a + [MINUS] + b + [MINUS] + d + [MINUS] + e + [MINUS] + f;
            && Groups(c) && c[8] == c[13] == c[18] == c[23] == '-' as int
            && forall k :: 0 <= k < 36 ==> !('a' as int <= c[k] <= 'f' as int)
  {
    var c := a + [MINUS] + b + [MINUS] + d + [MINUS] + e + [MINUS] + f;
    assert c[0..8] == a && c[9..13] == b && c[14..18] == d && c[19..23] == e && c[24..36] == f;
    forall k | 0 <= k < 36 ensures !('a' as int <= c[k] <= 'f' as int) {
      assert k < 8 ==> c[k] == a[k];
      assert 9 <= k < 13 ==> c[k] == b[k - 9];
      assert 14 <= k < 18 ==> c[k] == d[k - 14];
      assert 19 <= k < 23 ==> c[k] == e[k - 19];
      assert 24 <= k ==> c[k] == f[k - 24];
    }
  }
}
