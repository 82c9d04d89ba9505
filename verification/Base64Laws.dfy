/**
 Base64 by its alphabet and its bits, for every text the decoder is given, written by the encoder or not
 (sections 4 and 5 of RFC 4648).
 */
module Base64Laws {
  import opened Bytes
  import opened Base64

  function Alphabet(): (r: bytes)
    ensures |r| == 64
  {
    Ascii("ABCDEFGHIJKLMNOPQRSTUVWXYZ") + Ascii("abcdefghijklmnopqrstuvwxyz") + Ascii("0123456789+/")
  }

  lemma Capitals(n: nat)
    requires n < 26
    ensures Ascii("ABCDEFGHIJKLMNOPQRSTUVWXYZ")[n] == 65 + n
  {
  }

  lemma Smalls(n: nat)
    requires n < 26
    ensures Ascii("abcdefghijklmnopqrstuvwxyz")[n] == 97 + n
  {
  }

  lemma Digits(n: nat)
    requires n < 12
    ensures Ascii("0123456789+/")[n] == if n < 10 then 48 + n else if n == 10 then 43 else 47
  {
  }

  /** The encoder writes this alphabet. */
  lemma SymbolIs(n: int)
    requires 0 <= n < 64
    ensures Symbol(n) == Alphabet()[n]
  {
    hide Ascii;
    if n < 26 {
      Capitals(n);
    } else if n < 52 {
      Smalls(n - 26);
    } else {
      Digits(n - 52);
    }
  }

  /** The decoder reads it, dash and dot like plus, underline and comma like slash, and any other byte as zero. */
  lemma ReadAs(c: byte)
    ensures forall n :: 0 <= n < 64 && c == Alphabet()[n] ==> FromB64(c) == n
    ensures c == '-' as int || c == '.' as int ==> FromB64(c) == 62
    ensures c == '_' as int || c == ',' as int ==> FromB64(c) == 63
    ensures c !in Alphabet() && c != '-' as int && c != '.' as int && c != '_' as int && c != ',' as int ==> FromB64(c) == 0
  {
    hide Alphabet, Symbol, FromB64;
    forall n | 0 <= n < 64 ensures c == Alphabet()[n] ==> FromB64(c) == n {
      SymbolIs(n);
      SymbolBack(n);
    }
    OtherBytes(c);
    SymbolIs(FromB64(c));
  }

  lemma OtherBytes(c: byte)
    ensures c == '-' as int || c == '.' as int ==> FromB64(c) == 62
    ensures c == '_' as int || c == ',' as int ==> FromB64(c) == 63
    ensures c == '-' as int || c == '.' as int || c == '_' as int || c == ',' as int || FromB64(c) == 0 || c == Symbol(FromB64(c))
  {
  }

  // ---- What decoding gives ----

  /** Symbols in the last, unfinished group: of a text of whole groups, four less the padding. */
  function LastGroup(p: bytes): nat {
    if |p| % 4 != 0 then |p| % 4
    else if p == [] || p[|p| - 1] != '=' as int then 0
    else if p[|p| - 2] == '=' as int then 2 else 3
  }

  /**
   The length of what is decoded: three bytes a group, and one or two for a padded one.  Without padding
   three last symbols give two bytes; one or two make the whole text decode to nothing, except that
   a text of length 4k+2 whose last but one symbol is an equals sign gives one byte more.
   */
  function DecodedLength(p: bytes): nat {
    if |p| <= 2 then 0
    else if |p| % 4 == 1 then 0
    else if |p| % 4 == 2 then (if p[|p| - 2] == '=' as int then |p| / 4 * 3 + 1 else 0)
    else if |p| % 4 == 3 then |p| / 4 * 3 + 2
    else if LastGroup(p) == 0 then |p| / 4 * 3
    else |p| / 4 * 3 - 4 + LastGroup(p)
  }

  /** The bits of the text: group by group six of them, the last ones cut off with the byte they do not fill. */
  lemma DecodesBits(p: bytes, k: nat)
    ensures |Decode(p)| == DecodedLength(p)
    ensures 6 * k + 6 <= 8 * DecodedLength(p) ==> k < |p| && Sextet(Decode(p), k) == FromB64(p[k])
    ensures 6 * k + 4 == 8 * DecodedLength(p) ==> k < |p| && Sextet(Decode(p), k) == FromB64(p[k]) / 4 * 4
    ensures 6 * k + 2 == 8 * DecodedLength(p) ==> k < |p| && Sextet(Decode(p), k) == FromB64(p[k]) / 16 * 16
  {
    hide FromB64, Sextet, Triples;
    if |p| > 2 {
      Lengths(p);
      if DecodedLength(p) > 0 {
        var last := Last(p);
        if k < last {
          Whole(p, k / 4);
        } else if 8 * DecodedLength(p) == 6 * last + 8 {
          OneByte(p);
        } else if 8 * DecodedLength(p) == 6 * last + 16 {
          TwoBytes(p);
        }
      }
    }
  }

  lemma {:induction false} TriplesAt(p: bytes, i: nat, last: nat, g: nat)
    requires last <= |p| && last % 4 == 0 && i % 4 == 0 && i <= last
    ensures |Triples(p, i, last)| == (last - i) / 4 * 3
    ensures i + 4 * g + 4 <= last ==> Triples(p, i, last)[3 * g..3 * g + 3] == Triple(p, i + 4 * g)
    decreases last - i
  {
    hide Triple;
    if i < last {
      TripleLength(p, i);
      var rest := Triples(p, i + 4, last);
      if g == 0 {
        TriplesAt(p, i + 4, last, 0);
        assert (Triple(p, i) + rest)[0..3] == Triple(p, i);
      } else {
        TriplesAt(p, i + 4, last, g - 1);
        if i + 4 * g + 4 <= last { Behind(Triple(p, i), rest, 3 * (g - 1), 3 * g); }
      }
    }
  }

  lemma Behind(t: bytes, rest: bytes, a: nat, b: nat)
    requires |t| == 3 && a <= b <= |rest|
    ensures (t + rest)[a + 3..b + 3] == rest[a..b]
  {
  }

  /** Which length, and which branch of the decoder: whole groups only, or one or two bytes more. */
  lemma Lengths(p: bytes)
    requires |p| > 2
    ensures Last(p) <= |p| && Last(p) % 4 == 0 && |Decode(p)| == DecodedLength(p)
    ensures DecodedLength(p) > 0 ==>
      || (Pad1(p) == 0 && DecodedLength(p) == Last(p) / 4 * 3)
      || (Pad1(p) == 1 && Pad2(p) == 0 && DecodedLength(p) == Last(p) / 4 * 3 + 1 && Last(p) + 1 < |p|)
      || (Pad1(p) == 1 && Pad2(p) == 1 && DecodedLength(p) == Last(p) / 4 * 3 + 2 && Last(p) + 2 < |p|)
  {
    hide Triples, FromB64;
    TriplesAt(p, 0, Last(p), 0);
  }

  /** Four symbols put together and cut into three bytes. */
  lemma Cut(a: int, b: int, c: int, d: int)
    requires 0 <= a < 64 && 0 <= b < 64 && 0 <= c < 64 && 0 <= d < 64
    ensures var n := a * 0x40000 + b * 0x1000 + c * 0x40 + d;
            && n / 0x10000 % 256 == a * 4 + b / 16
            && n / 0x100 % 256 == b % 16 * 16 + c / 4
            && n % 256 == c % 4 * 64 + d
  {
    var n := a * 0x40000 + b * 0x1000 + c * 0x40 + d;
    ThreeBytes(n, a * 4 + b / 16, b % 16 * 16 + c / 4, c % 4 * 64 + d);
  }

  lemma ThreeBytes(n: int, x: int, y: int, z: int)
    requires n == x * 0x10000 + y * 0x100 + z && 0 <= x < 256 && 0 <= y < 256 && 0 <= z < 256
    ensures n / 0x10000 % 256 == x && n / 0x100 % 256 == y && n % 256 == z
  {
    assert n / 0x100 == x * 0x100 + y;
  }

  /** Three bytes put together again. */
  lemma Glue(x: int, y: int, z: int, a: int, b: int, c: int, d: int)
    requires 0 <= a < 64 && 0 <= b < 64 && 0 <= c < 64 && 0 <= d < 64
    requires x == a * 4 + b / 16 && y == b % 16 * 16 + c / 4 && z == c % 4 * 64 + d
    ensures x / 4 == a && x % 4 * 16 + y / 16 == b && y % 16 * 4 + z / 64 == c && z % 64 == d
    ensures x % 4 * 16 == b / 16 * 16 && y % 16 * 4 == c / 4 * 4
  {
  }

  /** A group of four. */
  lemma Whole(p: bytes, g: nat)
    requires |p| > 2 && 4 * g + 4 <= Last(p) && DecodedLength(p) > 0
    ensures forall k :: 4 * g <= k < 4 * g + 4 ==> Sextet(Decode(p), k) == FromB64(p[k])
  {
    hide FromB64, Sextet, Triples;
    Lengths(p);
    TriplesAt(p, 0, Last(p), g);
    hide Decode, Triple;
    GroupBits(Decode(p), p, g);
  }

  lemma GroupBits(s: bytes, p: bytes, g: nat)
    requires 4 * g + 4 <= |p| && 3 * g + 3 <= |s| && s[3 * g..3 * g + 3] == Triple(p, 4 * g)
    ensures forall k :: 4 * g <= k < 4 * g + 4 ==> Sextet(s, k) == FromB64(p[k])
  {
    hide FromB64, Sextet, Triple;
    var t := Triple(p, 4 * g);
    assert s[3 * g] == t[0] && s[3 * g + 1] == t[1] && s[3 * g + 2] == t[2];
    TripleIs(p, 4 * g);
    SextetIs(s, 4 * g, 3 * g);
    SextetIs(s, 4 * g + 1, 3 * g);
    SextetIs(s, 4 * g + 2, 3 * g + 1);
    SextetIs(s, 4 * g + 3, 3 * g + 2);
  }

  lemma TripleIs(p: bytes, i: nat)
    requires i + 4 <= |p|
    ensures var t := Triple(p, i);
            && |t| == 3 && t[0] / 4 == FromB64(p[i]) && t[0] % 4 * 16 + t[1] / 16 == FromB64(p[i + 1])
            && t[1] % 16 * 4 + t[2] / 64 == FromB64(p[i + 2]) && t[2] % 64 == FromB64(p[i + 3])
  {
    hide FromB64;
    var t, a, b, c, d := Triple(p, i), FromB64(p[i]), FromB64(p[i + 1]), FromB64(p[i + 2]), FromB64(p[i + 3]);
    Cut(a, b, c, d);
    Glue(t[0], t[1], t[2], a, b, c, d);
  }

  /** Two last symbols. */
  lemma OneByte(p: bytes)
    requires |p| > 2 && DecodedLength(p) == Last(p) / 4 * 3 + 1
    ensures Last(p) + 1 < |p| && var s, n := Decode(p), Last(p);
            Sextet(s, n) == FromB64(p[n]) && Sextet(s, n + 1) == FromB64(p[n + 1]) / 16 * 16
  {
    hide FromB64, Sextet, Triples;
    Lengths(p);
    var s, n, g := Decode(p), Last(p), Last(p) / 4;
    TriplesAt(p, 0, n, 0);
    var a, b := FromB64(p[n]), FromB64(p[n + 1]);
    Cut(a, b, 0, 0);
    Glue(s[3 * g], b % 16 * 16, 0, a, b, 0, 0);
    SextetIs(s, n, 3 * g);
    LastSextet(s, g);
  }

  /** Three last symbols. */
  lemma TwoBytes(p: bytes)
    requires |p| > 2 && DecodedLength(p) == Last(p) / 4 * 3 + 2
    ensures Last(p) + 2 < |p| && var s, n := Decode(p), Last(p);
            && Sextet(s, n) == FromB64(p[n]) && Sextet(s, n + 1) == FromB64(p[n + 1])
            && Sextet(s, n + 2) == FromB64(p[n + 2]) / 4 * 4
  {
    hide FromB64, Sextet, Triples;
    Lengths(p);
    var s, n, g := Decode(p), Last(p), Last(p) / 4;
    TriplesAt(p, 0, n, 0);
    var a, b, c := FromB64(p[n]), FromB64(p[n + 1]), FromB64(p[n + 2]);
    Cut(a, b, 0, 0);
    Cut(a, b, c, 0);
    Glue(s[3 * g], s[3 * g + 1], c % 4 * 64, a, b, c, 0);
    SextetIs(s, n, 3 * g);
    SextetIs(s, n + 1, 3 * g);
    LastSextet(s, g);
  }

  /** Bits past the end are zero. */
  lemma LastSextet(s: bytes, g: nat)
    ensures |s| == 3 * g + 1 ==> Sextet(s, 4 * g + 1) == s[3 * g] % 4 * 16
    ensures |s| == 3 * g + 2 ==> Sextet(s, 4 * g + 2) == s[3 * g + 1] % 16 * 4
  {
    hide Bit;
    if |s| == 3 * g + 1 {
      ByteBits(s, 3 * g);
      NoBits(s, 24 * g + 8);
      NoBits(s, 24 * g + 9);
      NoBits(s, 24 * g + 10);
      NoBits(s, 24 * g + 11);
    } else if |s| == 3 * g + 2 {
      ByteBits(s, 3 * g + 1);
      NoBits(s, 24 * g + 16);
      NoBits(s, 24 * g + 17);
    }
  }
}
