/** Bytes, the ASCII codes the codecs use, and "this sequence stands at that index". */
module Bytes {
  type byte = x: int | 0 <= x < 256
  type bytes = seq<byte>

  datatype Option<+T> = None | Some(value: T)

  /** The bytes of a text of ASCII characters. */
  function Ascii(s: string): (r: bytes)
    ensures |r| == |s|
  {
    seq(|s|, i requires 0 <= i < |s| => s[i] as int % 256)
  }

  const NUL: byte := 0
  const TAB: byte := 9
  const LF: byte := 10
  const CR: byte := 13
  const SPACE: byte := 32
  const QUOTE: byte := 34
  const COMMA: byte := 44
  const MINUS: byte := 45
  const SLASH: byte := 47
  const COLON: byte := 58
  const LBRACKET: byte := 91
  const BACKSLASH: byte := 92
  const RBRACKET: byte := 93
  const LBRACE: byte := 123
  const RBRACE: byte := 125

  predicate IsDigit(c: byte) { 48 <= c <= 57 }

  predicate IsHex(c: byte) { 48 <= c <= 57 || 65 <= c <= 70 || 97 <= c <= 102 }

  /** The sequence `sub` occurs in `s` at index `i`. */
  ghost predicate At<T>(s: seq<T>, i: nat, sub: seq<T>) {
    i + |sub| <= |s| && forall k :: 0 <= k < |sub| ==> s[i + k] == sub[k]
  }

  lemma AtSlice<T>(s: seq<T>, i: nat, sub: seq<T>)
    requires At(s, i, sub)
    ensures s[i..i + |sub|] == sub
  {
  }

  lemma AtSplit<T>(s: seq<T>, i: nat, a: seq<T>, b: seq<T>)
    requires At(s, i, a + b)
    ensures At(s, i, a) && At(s, i + |a|, b)
  {
    forall k | 0 <= k < |a| ensures s[i + k] == a[k] { assert (a + b)[k] == a[k]; }
    forall k | 0 <= k < |b| ensures s[i + |a| + k] == b[k] { assert (a + b)[|a| + k] == b[k]; }
  }

  lemma AtIndex<T>(s: seq<T>, i: nat, a: seq<T>, k: nat)
    requires At(s, i, a) && k < |a|
    ensures s[i + k] == a[k]
  {
  }

  /** Three pieces in a row, the last two put together first. */
  lemma AtChain<T>(s: seq<T>, i: nat, a: seq<T>, b: seq<T>, rest: seq<T>)
    requires At(s, i, a + (b + rest))
    ensures At(s, i, a) && At(s, i + |a|, b) && At(s, i + |a| + |b|, rest)
  {
    AtSplit(s, i, a, b + rest);
    AtSplit(s, i + |a|, b, rest);
  }

  /** One byte more behind those written. */
  method Put(buf: array<byte>, at: nat, c: byte)
    requires at < buf.Length
    modifies buf
    ensures buf[..at + 1] == old(buf[..at]) + [c]
  {
    buf[at] := c;
  }
}
