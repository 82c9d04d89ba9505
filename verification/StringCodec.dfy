/**
 The body of a JSON string: escaping a UTF-8 text for output and undoing it on input
 (deps/src/ua_types_encoding_json.c, String_encodeJson and String_decodeJson).
 */
module StringCodec {
  import opened Bytes
  import opened Utf8
  import Jsmn
  import JsonTree

  // ---- Escaping ----

  predicate MustEscape(cp: int) { cp == BACKSLASH || cp == QUOTE || cp < 0x20 }

  function HexLower(n: int): byte
    requires 0 <= n < 16
  {
    if n < 10 then 48 + n else 97 + (n - 10)
  }

  function HexEscape(n: int): bytes
    requires 0 <= n < 0x10000
  {
    [BACKSLASH, 117, HexLower(n / 0x1000), HexLower(n / 0x100 % 16), HexLower(n / 16 % 16), HexLower(n % 16)]
  }

  /** The escape of a code point: a short one, `\uXXXX`, or a surrogate pair. */
  function EscapeOf(cp: int): bytes
    requires 0 <= cp <= 0x10FFFF
  {
    if cp == BACKSLASH then [BACKSLASH, BACKSLASH]
    else if cp == QUOTE then [BACKSLASH, QUOTE]
    else if cp == 8 then [BACKSLASH, 98]
    else if cp == 12 then [BACKSLASH, 102]
    else if cp == LF then [BACKSLASH, 110]
    else if cp == CR then [BACKSLASH, 114]
    else if cp == TAB then [BACKSLASH, 116]
    else if cp == SLASH then [BACKSLASH, SLASH]
    else if cp < 0x10000 then HexEscape(cp)
    else
      var c := cp - 0x10000;
      HexEscape(0xD800 + c / 0x400) + HexEscape(0xDC00 + c % 0x400)
  }

  /** What one character of the text becomes. */
  function Piece(s: bytes, i: nat): bytes
    requires i < |s| && Iterate(s[i..]).Point?
  {
    var it := Iterate(s[i..]);
    if !MustEscape(it.cp) then s[i..i + it.len]
    else IterateIsCanonical(s[i..]); EscapeOf(it.cp)
  }

  /** The escaped text from index `i` on; none if it is not UTF-8. */
  function Escape(s: bytes, i: nat): Option<bytes>
    requires i <= |s|
    decreases |s| - i
  {
    if i == |s| then Some([])
    else
      var it := Iterate(s[i..]);
      if !it.Point? then None
      else
        var rest := Escape(s, i + it.len);
        if rest.None? then None else Some(Piece(s, i) + rest.value)
  }

  /** What was written so far in front of the rest. */
  function Prepend(acc: bytes, rest: Option<bytes>): Option<bytes> {
    if rest.None? then None else Some(acc + rest.value)
  }

  lemma PrependNothing(rest: Option<bytes>)
    ensures Prepend([], rest) == rest
  {
    assert rest.Some? ==> [] + rest.value == rest.value;
  }

  lemma PrependIs(acc: bytes, rest: Option<bytes>)
    ensures Prepend(acc, rest).Some? <==> rest.Some?
    ensures rest.Some? ==> Prepend(acc, rest) == Some(acc + rest.value) && |Prepend(acc, rest).value| >= |acc|
    ensures rest == Some([]) ==> Prepend(acc, rest) == Some(acc)
  {
    if rest == Some([]) { assert acc + [] == acc; }
  }

  lemma PrependTwice(a: bytes, b: bytes, rest: Option<bytes>)
    ensures Prepend(a, Prepend(b, rest)) == Prepend(a + b, rest)
  {
    assert rest.Some? ==> a + (b + rest.value) == (a + b) + rest.value;
  }

  /** A piece more has been written in front of the rest. */
  lemma PrependMore(acc: bytes, piece: bytes, rest: Option<bytes>)
    ensures Prepend(acc, Prepend(piece, rest)) == Prepend(acc + piece, rest)
    ensures Prepend(acc + piece, rest).Some? <==> rest.Some?
    ensures rest.Some? ==> |Prepend(acc + piece, rest).value| >= |acc| + |piece|
  {
    PrependTwice(acc, piece, rest);
  }

  lemma EscapeEnd(s: bytes)
    ensures Escape(s, |s|) == Some([])
  {
  }

  /** A character that needs no escape extends the run that starts at `from`. */
  lemma EscapePlainStep(s: bytes, from: nat, i: nat)
    requires from <= i < |s| && Iterate(s[i..]).Point? && !MustEscape(Iterate(s[i..]).cp)
    ensures var e := i + Iterate(s[i..]).len;
            Prepend(s[from..i], Escape(s, i)) == Prepend(s[from..e], Escape(s, e))
  {
    hide Iterate;
    var e := i + Iterate(s[i..]).len;
    assert Escape(s, i) == Prepend(s[i..e], Escape(s, e));
    PrependTwice(s[from..i], s[i..e], Escape(s, e));
    assert s[from..i] + s[i..e] == s[from..e];
  }

  lemma EscapeStopStep(s: bytes, i: nat)
    requires i < |s| && Iterate(s[i..]).Point? && MustEscape(Iterate(s[i..]).cp) && 0 <= Iterate(s[i..]).cp <= 0x10FFFF
    ensures var it := Iterate(s[i..]); Escape(s, i) == Prepend(EscapeOf(it.cp), Escape(s, i + it.len))
  {
    hide Iterate, EscapeOf;
  }

  // ---- Unescaping ----

  /** Value of a hexadecimal digit as `decode_unicode_escape` reads it: every letter counts; -1 otherwise. */
  function DigitOrLetter(c: byte): int {
    if IsDigit(c) then c - 48
    else if 97 <= c <= 122 then c - 97 + 10
    else if 65 <= c <= 90 then c - 65 + 10
    else -1
  }

  function HexFold(b: bytes, i: nat, n: nat, value: int): (r: int)
    requires i + n <= |b|
    decreases n
  {
    if n == 0 then value
    else if DigitOrLetter(b[i]) < 0 then -1
    else HexFold(b, i + 1, n - 1, value * 16 + DigitOrLetter(b[i]))
  }

  function DecodeHex4(b: bytes, i: nat): (r: int)
    requires i + 4 <= |b|
    ensures -1 <= r <= 35 * 0x1111
  {
    HexFold4(b, i);
    HexFold(b, i, 4, 0)
  }

  lemma HexFold4(b: bytes, i: nat)
    requires i + 4 <= |b|
    ensures var d0, d1, d2, d3 := DigitOrLetter(b[i]), DigitOrLetter(b[i + 1]), DigitOrLetter(b[i + 2]), DigitOrLetter(b[i + 3]);
            HexFold(b, i, 4, 0) == if d0 < 0 || d1 < 0 || d2 < 0 || d3 < 0 then -1
                                   else ((d0 * 16 + d1) * 16 + d2) * 16 + d3
  {
    var d0, d1, d2, d3 := DigitOrLetter(b[i]), DigitOrLetter(b[i + 1]), DigitOrLetter(b[i + 2]), DigitOrLetter(b[i + 3]);
    if d0 >= 0 {
      assert HexFold(b, i, 4, 0) == HexFold(b, i + 1, 3, d0);
      if d1 >= 0 {
        assert HexFold(b, i + 1, 3, d0) == HexFold(b, i + 2, 2, d0 * 16 + d1);
        if d2 >= 0 {
          assert HexFold(b, i + 2, 2, d0 * 16 + d1) == HexFold(b, i + 3, 1, (d0 * 16 + d1) * 16 + d2);
        }
      }
    }
  }

  /** The same by the loop of the source. */
  method DecodeHex4Loop(b: bytes, i: nat) returns (value: int)
    requires i + 4 <= |b|
    ensures value == DecodeHex4(b, i)
  {
    value := 0;
    for k := 0 to 4
      invariant HexFold(b, i, 4, 0) == HexFold(b, i + k, 4 - k, value)
    {
      var d := DigitOrLetter(b[i + k]);
      if d < 0 {
        return -1;
      }
      value := value * 16 + d;
    }
  }

  /** The character a two-byte escape stands for; -1 if it is none. */
  function ShortEscape(c: byte): int {
    if c == QUOTE || c == BACKSLASH || c == SLASH then c
    else if c == 98 then 8
    else if c == 102 then 12
    else if c == 110 then LF
    else if c == 114 then CR
    else if c == 116 then TAB
    else -1
  }

  /** One item at index `i`: the bytes it stands for and the index after it. */
  datatype Item = BadItem | Item(out: bytes, next: nat)

  function UnescapeItem(b: bytes, i: nat): (r: Item)
    requires i < |b|
    ensures r.Item? ==> i < r.next <= |b| && |r.out| <= r.next - i
  {
    if b[i] != BACKSLASH then Item([b[i]], i + 1)
    else if i + 1 == |b| then BadItem
    else if b[i + 1] != 117 then
      var c := ShortEscape(b[i + 1]);
      if c < 0 then BadItem else Item([c], i + 2)
    else if i + 5 >= |b| then BadItem
    else
      var value := DecodeHex4(b, i + 2);
      if value < 0 then BadItem
      else if 0xD800 <= value <= 0xDBFF then
        if i + 11 >= |b| || b[i + 6] != BACKSLASH || b[i + 7] != 117 then BadItem
        else
          var value2 := DecodeHex4(b, i + 8);
          if value2 < 0xDC00 || value2 > 0xDFFF then BadItem
          else Item(Encode((value - 0xD800) * 0x400 + (value2 - 0xDC00) + 0x10000), i + 12)
      else if 0xDC00 <= value <= 0xDFFF then BadItem
      else Item(Encode(value), i + 6)
  }

  function Unescape(b: bytes, i: nat): (r: Option<bytes>)
    requires i <= |b|
    ensures r.Some? ==> |r.value| <= |b| - i
    decreases |b| - i
  {
    if i == |b| then Some([])
    else
      var it := UnescapeItem(b, i);
      if it.BadItem? then None
      else
        var rest := Unescape(b, it.next);
        if rest.None? then None else Some(it.out + rest.value)
  }

  lemma UnescapeStep(b: bytes, i: nat, acc: bytes)
    requires i < |b|
    ensures var it := UnescapeItem(b, i);
            Prepend(acc, Unescape(b, i)) == if it.BadItem? then None else Prepend(acc + it.out, Unescape(b, it.next))
  {
    hide UnescapeItem;
    var it := UnescapeItem(b, i);
    if it.Item? && Unescape(b, it.next).Some? {
      var rest := Unescape(b, it.next).value;
      assert acc + (it.out + rest) == (acc + it.out) + rest;
    }
  }

  method CopyInto(out: array<byte>, n: nat, piece: bytes)
    requires n + |piece| <= out.Length
    modifies out
    ensures out[..n + |piece|] == old(out[..n]) + piece
  {
    for k := 0 to |piece|
      invariant out[..n + k] == old(out[..n]) + piece[..k]
    {
      out[n + k] := piece[k];
    }
    assert piece[..|piece|] == piece;
  }

  /** The decoder's loop: an output buffer as long as the token is always long enough. */
  method UnescapeLoop(b: bytes) returns (ok: bool, out: array<byte>, n: nat)
    ensures fresh(out) && out.Length == |b| && n <= out.Length
    ensures ok == Unescape(b, 0).Some?
    ensures ok ==> out[..n] == Unescape(b, 0).value
  {
    hide UnescapeItem;
    out := new byte[|b|](_ => 0);
    n := 0;
    var p := 0;
    PrependNothing(Unescape(b, 0));
    assert out[..0] == [];
    while p < |b|
      invariant 0 <= p <= |b| && n <= p
      invariant Unescape(b, 0) == Prepend(out[..n], Unescape(b, p))
      decreases |b| - p
    {
      UnescapeStep(b, p, out[..n]);
      var it := UnescapeItem(b, p);
      if it.BadItem? {
        return false, out, n;
      }
      CopyInto(out, n, it.out);
      n := n + |it.out|;
      p := it.next;
    }
    assert out[..n] + [] == out[..n];
    ok := true;
  }

  // ---- Escaping succeeds exactly on UTF-8, and gives a legal string body ----

  lemma {:induction false} EscapesUtf8(s: bytes, i: nat)
    requires i <= |s|
    ensures Escape(s, i).Some? <==> Utf8Text(s[i..])
    decreases |s| - i
  {
    if i < |s| {
      var t := s[i..];
      var it := Iterate(t);
      if it.Point? {
        AcceptsGrammar(t, it.len);
        EscapesUtf8(s, i + it.len);
        assert t[it.len..] == s[i + it.len..];
      }
      forall n | 1 <= n <= 4 && n <= |t| && Utf8Char(t[..n])
        ensures it.Point? && it.len == n
      {
        AcceptsGrammar(t, n);
      }
    }
  }

  /** The commented-out slash escape and the surrogate pair are never written. */
  lemma ReachedEscapes(s: bytes, i: nat)
    requires i < |s| && Iterate(s[i..]).Point?
    ensures var it := Iterate(s[i..]);
            MustEscape(it.cp) ==> it.len == 1 && it.cp == s[i] && it.cp != SLASH && it.cp < 0x10000
  {
    IterateIsCanonical(s[i..]);
  }

  lemma BodyEmpty()
    ensures JsonTree.Body([])
  {
  }

  lemma BodyPlain(c: byte, rest: bytes)
    requires c != NUL && c != QUOTE && c != BACKSLASH
    ensures JsonTree.Body([c] + rest) == JsonTree.Body(rest)
  {
    assert ([c] + rest)[1..] == rest;
  }

  lemma {:induction false} BodyPlainRun(run: bytes, rest: bytes)
    requires forall k :: 0 <= k < |run| ==> run[k] != NUL && run[k] != QUOTE && run[k] != BACKSLASH
    ensures JsonTree.Body(run + rest) == JsonTree.Body(rest)
    decreases |run|
  {
    if run == [] {
      assert run + rest == rest;
    } else {
      BodyPlainRun(run[1..], rest);
      BodyPlain(run[0], run[1..] + rest);
      assert run + rest == [run[0]] + (run[1..] + rest);
    }
  }

  lemma BodyEscape(cp: int, rest: bytes)
    requires 0 <= cp < 0x80 && MustEscape(cp)
    ensures JsonTree.Body(EscapeOf(cp) + rest) == JsonTree.Body(rest)
  {
    var e := EscapeOf(cp);
    assert (e + rest)[|e|..] == rest;
    assert |e| == 2 || |e| == 6;
    if |e| == 6 {
      assert Jsmn.SimpleEscape(117) == false;
      assert IsHex(e[2]) && IsHex(e[3]) && IsHex(e[4]) && IsHex(e[5]);
    }
  }

  /** Bytes of an unescaped character: none of them is special. */
  lemma PlainCharacter(s: bytes, i: nat)
    requires i < |s| && Iterate(s[i..]).Point? && !MustEscape(Iterate(s[i..]).cp)
    ensures forall k :: i <= k < i + Iterate(s[i..]).len ==> s[k] != NUL && s[k] != QUOTE && s[k] != BACKSLASH
  {
    var t := s[i..];
    var it := Iterate(t);
    AcceptsGrammar(t, it.len);
    forall k | i <= k < i + it.len
      ensures s[k] != NUL && s[k] != QUOTE && s[k] != BACKSLASH
    {
      assert t[..it.len][k - i] == s[k];
    }
  }

  lemma {:induction false} EscapedIsBody(s: bytes, i: nat)
    requires i <= |s| && Escape(s, i).Some?
    ensures JsonTree.Body(Escape(s, i).value)
    decreases |s| - i
  {
    hide Iterate, EscapeOf, JsonTree.Body;
    if i == |s| {
      BodyEmpty();
    } else {
      var it := Iterate(s[i..]);
      var rest := Escape(s, i + it.len).value;
      EscapedIsBody(s, i + it.len);
      ReachedEscapes(s, i);
      if MustEscape(it.cp) {
        BodyEscape(it.cp, rest);
      } else {
        PlainCharacter(s, i);
        BodyPlainRun(s[i..i + it.len], rest);
      }
    }
  }

  // ---- Unescaping undoes escaping ----

  lemma UnescapePlain(b: bytes, i: nat, rest: bytes)
    requires i < |b| && b[i] != BACKSLASH && Unescape(b, i + 1) == Some(rest)
    ensures Unescape(b, i) == Some([b[i]] + rest)
  {
    assert UnescapeItem(b, i) == Item([b[i]], i + 1);
  }

  lemma {:induction false} UnescapeRun(b: bytes, i: nat, run: bytes, rest: bytes)
    requires At(b, i, run) && forall k :: 0 <= k < |run| ==> run[k] != BACKSLASH
    requires Unescape(b, i + |run|) == Some(rest)
    ensures Unescape(b, i) == Some(run + rest)
    decreases |run|
  {
    hide Unescape;
    if run == [] {
      assert run + rest == rest;
    } else {
      AtIndex(b, i, run, 0);
      AtSplit(b, i, run[..1], run[1..]) by { assert run == run[..1] + run[1..]; }
      UnescapeRun(b, i + 1, run[1..], rest);
      UnescapePlain(b, i, run[1..] + rest);
      assert [run[0]] + (run[1..] + rest) == run + rest;
    }
  }

  lemma HexDigitBack(n: int)
    requires 0 <= n < 16
    ensures DigitOrLetter(HexLower(n)) == n
  {
  }

  lemma SixIsHex(cp: int)
    requires 0 <= cp < 0x80 && MustEscape(cp) && |EscapeOf(cp)| == 6
    ensures EscapeOf(cp) == HexEscape(cp)
  {
  }

  lemma HexEscapeBack(b: bytes, i: nat, cp: int)
    requires 0 <= cp < 0x10000 && At(b, i, HexEscape(cp))
    ensures i + 6 <= |b| && b[i] == BACKSLASH && b[i + 1] == 117 && DecodeHex4(b, i + 2) == cp
  {
    hide HexFold, HexLower, DigitOrLetter, At;
    var e := HexEscape(cp);
    var d0, d1, d2, d3 := HexParts(cp);
    assert i + 6 <= |b| by { AtFits(b, i, e); }
    AtIndex(b, i, e, 0);
    AtIndex(b, i, e, 1);
    AtIndex(b, i, e, 2);
    AtIndex(b, i, e, 3);
    AtIndex(b, i, e, 4);
    AtIndex(b, i, e, 5);
    HexDigitBack(d0);
    HexDigitBack(d1);
    HexDigitBack(d2);
    HexDigitBack(d3);
    HexFold4(b, i + 2);
  }

  lemma AtFits(b: bytes, i: nat, e: bytes)
    requires At(b, i, e)
    ensures i + |e| <= |b|
  {
  }

  /** The four hexadecimal digits of a 16-bit number. */
  lemma HexParts(n: int) returns (d0: int, d1: int, d2: int, d3: int)
    requires 0 <= n < 0x10000
    ensures d0 == n / 0x1000 && d1 == n / 0x100 % 16 && d2 == n / 16 % 16 && d3 == n % 16
    ensures 0 <= d0 < 16 && 0 <= d1 < 16 && 0 <= d2 < 16 && 0 <= d3 < 16
    ensures ((d0 * 16 + d1) * 16 + d2) * 16 + d3 == n
  {
    var q1 := n / 16;
    var q2 := q1 / 16;
    d3, d2, d1, d0 := n % 16, q1 % 16, q2 % 16, q2 / 16;
  }

  lemma UnescapeEscape(b: bytes, i: nat, cp: int)
    requires 0 <= cp < 0x80 && MustEscape(cp) && At(b, i, EscapeOf(cp))
    ensures i < |b| && UnescapeItem(b, i) == Item([cp], i + |EscapeOf(cp)|)
  {
    hide DecodeHex4, HexFold, HexLower;
    var e := EscapeOf(cp);
    AtIndex(b, i, e, 0);
    AtIndex(b, i, e, 1);
    if |e| == 6 {
      SixIsHex(cp);
      HexEscapeBack(b, i, cp);
      assert Encode(cp) == [cp];
    }
  }

  /** The escaped text from `i` on: the piece of one character, and the rest. */
  lemma EscapeUnfolds(s: bytes, i: nat)
    requires i < |s| && Escape(s, i).Some?
    ensures Iterate(s[i..]).Point?
    ensures var next := i + Iterate(s[i..]).len;
            i < next <= |s| && Escape(s, next).Some? && Escape(s, i).value == Piece(s, i) + Escape(s, next).value
  {
    hide Iterate, Piece;
  }

  lemma UnescapeOne(b: bytes, j: nat, cp: int, tail: bytes)
    requires 0 <= cp < 0x80 && MustEscape(cp) && At(b, j, EscapeOf(cp)) && j + |EscapeOf(cp)| <= |b|
    requires Unescape(b, j + |EscapeOf(cp)|) == Some(tail)
    ensures Unescape(b, j) == Some([cp] + tail)
  {
    hide EscapeOf, UnescapeItem, At;
    UnescapeEscape(b, j, cp);
  }

  lemma {:induction false} RoundTripFrom(s: bytes, i: nat, b: bytes, j: nat)
    requires i <= |s| && Escape(s, i).Some? && At(b, j, Escape(s, i).value) && j + |Escape(s, i).value| == |b|
    ensures Unescape(b, j) == Some(s[i..])
    decreases |s| - i
  {
    hide Iterate, EscapeOf, UnescapeItem, Unescape, At, Escape;
    if i == |s| {
      RoundTripEnd(s, b);
    } else {
      EscapeUnfolds(s, i);
      var it := Iterate(s[i..]);
      var piece, next := Piece(s, i), i + it.len;
      AtSplit(b, j, piece, Escape(s, next).value);
      RoundTripFrom(s, next, b, j + |piece|);
      ReachedEscapes(s, i);
      assert s[i..] == s[i..next] + s[next..];
      if MustEscape(it.cp) {
        UnescapeOne(b, j, it.cp, s[next..]);
        assert s[i..next] == [it.cp];
      } else {
        PlainCharacter(s, i);
        UnescapeRun(b, j, piece, s[next..]);
      }
    }
  }

  lemma RoundTripEnd(s: bytes, b: bytes)
    ensures Escape(s, |s|) == Some([]) && Unescape(b, |b|) == Some([]) && s[|s|..] == []
  {
  }

  /**
   The string codec: a text can be escaped exactly when it is UTF-8; the result is a legal
   string body no shorter than the text, and unescaping it gives the text back.
   */
  lemma StringRoundTrip(s: bytes)
    ensures Escape(s, 0).Some? <==> Utf8Text(s)
    ensures Escape(s, 0).Some? ==>
      var e := Escape(s, 0).value;
      JsonTree.Body(e) && |s| <= |e| && Unescape(e, 0) == Some(s) && (e == [] <==> s == [])
  {
    EscapesUtf8(s, 0);
    assert s[0..] == s;
    if Escape(s, 0).Some? {
      EscapedIsBody(s, 0);
      RoundTripFrom(s, 0, Escape(s, 0).value, 0);
      assert |Unescape(Escape(s, 0).value, 0).value| <= |Escape(s, 0).value|;
    }
  }
}
