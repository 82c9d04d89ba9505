/**
 The tokenizer as it runs: three parser fields and a flat token array, changed in place by
 character loops and back-scans, proved to compute `Jsmn.Run`.
 */
module JsmnParser {
  import opened Bytes
  import opened Jsmn

  class JsmnParser {
    var pos: nat
    var toknext: nat
    var toksuper: int

    constructor ()
      ensures pos == 0 && toknext == 0 && toksuper == -1
    {
      pos, toknext, toksuper := 0, 0, -1;
    }

    ghost predicate Valid(tokens: array<Token>, numTokens: nat)
      reads this
    {
      toknext <= numTokens <= tokens.Length && -1 <= toksuper < toknext
    }

    /** The abstract state: what `Jsmn` calls a parser. */
    ghost function State(tokens: array<Token>): Parser
      reads this, tokens
      requires toknext <= tokens.Length
    {
      Parser(pos, tokens[..toknext], toksuper)
    }

    method AllocToken(t: Token, tokens: array<Token>, numTokens: nat) returns (ok: bool)
      requires Valid(tokens, numTokens)
      modifies this`toknext, tokens
      ensures ok == (old(toknext) < numTokens)
      ensures ok ==> toknext == old(toknext) + 1 && tokens[..toknext] == old(tokens[..toknext]) + [t]
      ensures !ok ==> toknext == old(toknext) && tokens[..] == old(tokens[..])
    {
      if toknext >= numTokens {
        return false;
      }
      tokens[toknext] := t;
      toknext := toknext + 1;
      return true;
    }

    /** Scans a primitive; with tokens it allocates one.  A failure restores `pos`. */
    method ParsePrimitive(js: bytes, tokens: array?<Token>, numTokens: nat) returns (r: int)
      requires pos < |js| && StartsPrimitive(js[pos])
      requires tokens != null ==> Valid(tokens, numTokens)
      modifies this`pos, this`toknext, if tokens == null then {} else {tokens}
      ensures r != 0 ==> pos == old(pos) && toknext == old(toknext) && (tokens != null ==> tokens[..] == old(tokens[..]))
      ensures var scan := ScanPrimitive(js, old(pos));
              match scan
              case Inval => r == ERROR_INVAL
              case Part => r == ERROR_PART
              case Found(e) =>
                if tokens == null then r == 0 && pos + 1 == e && toknext == old(toknext)
                else if old(toknext) >= numTokens then r == ERROR_NOMEM
                else r == 0 && pos + 1 == e && toknext == old(toknext) + 1
                     && tokens[..toknext] == old(tokens[..toknext]) + [Token(Primitive, old(pos), e, 0)]
    {
      var start := pos;
      while pos < |js| && js[pos] != NUL && !EndsPrimitive(js[pos])
        invariant start <= pos <= |js|
        invariant ScanPrimitive(js, start) == ScanPrimitive(js, pos)
        invariant toknext == old(toknext)
        invariant tokens != null ==> tokens[..] == old(tokens[..])
        decreases |js| - pos
      {
        if js[pos] < 32 || js[pos] >= 127 {
          pos := start;
          return ERROR_INVAL;
        }
        pos := pos + 1;
      }
      if pos >= |js| || js[pos] == NUL {
        pos := start;
        return ERROR_PART;
      }
      PrimitiveMoves(js, start, pos);
      if tokens != null {
        var ok := AllocToken(Token(Primitive, start, pos, 0), tokens, numTokens);
        if !ok {
          pos := start;
          return ERROR_NOMEM;
        }
      }
      pos := pos - 1;
      return 0;
    }

    /** Scans a string; with tokens it allocates one.  A failure restores `pos`. */
    method ParseString(js: bytes, tokens: array?<Token>, numTokens: nat) returns (r: int)
      requires pos < |js| && js[pos] == QUOTE
      requires tokens != null ==> Valid(tokens, numTokens)
      modifies this`pos, this`toknext, if tokens == null then {} else {tokens}
      ensures r != 0 ==> pos == old(pos) && toknext == old(toknext) && (tokens != null ==> tokens[..] == old(tokens[..]))
      ensures var scan := ScanString(js, old(pos) + 1);
              match scan
              case Inval => r == ERROR_INVAL
              case Part => r == ERROR_PART
              case Found(e) =>
                if tokens == null then r == 0 && pos == e && toknext == old(toknext)
                else if old(toknext) >= numTokens then r == ERROR_NOMEM
                else r == 0 && pos == e && toknext == old(toknext) + 1
                     && tokens[..toknext] == old(tokens[..toknext]) + [Token(String, old(pos) + 1, e, 0)]
    {
      var start := pos;
      pos := pos + 1;
      while pos < |js| && js[pos] != NUL
        invariant start < pos
        invariant ScanString(js, start + 1) == ScanString(js, pos)
        invariant toknext == old(toknext)
        invariant tokens != null ==> tokens[..] == old(tokens[..])
        decreases |js| - pos
      {
        var c := js[pos];
        if c == QUOTE {
          if tokens != null {
            var ok := AllocToken(Token(String, start + 1, pos, 0), tokens, numTokens);
            if !ok {
              pos := start;
              return ERROR_NOMEM;
            }
          }
          return 0;
        }
        if c == BACKSLASH && pos + 1 < |js| {
          pos := pos + 1;
          if SimpleEscape(js[pos]) {
          } else if js[pos] == 117 {
            pos := pos + 1;
            ghost var hex := pos;
            var i := 0;
            while i < 4 && pos < |js| && js[pos] != NUL
              invariant 0 <= i <= 4 && hex <= pos
              invariant ScanHex(js, hex, 4) == ScanHex(js, pos, 4 - i)
              invariant toknext == old(toknext)
              invariant tokens != null ==> tokens[..] == old(tokens[..])
            {
              if !IsHex(js[pos]) {
                pos := start;
                return ERROR_INVAL;
              }
              pos := pos + 1;
              i := i + 1;
            }
            pos := pos - 1;
          } else {
            pos := start;
            return ERROR_INVAL;
          }
        }
        pos := pos + 1;
      }
      pos := start;
      return ERROR_PART;
    }

    /** The index of the last open token below `n`, by the loop that runs downwards. */
    method FindOpen(tokens: array<Token>, n: nat, containersOnly: bool) returns (i: int)
      requires n <= tokens.Length
      ensures i == if containersOnly then LastOpenContainer(tokens[..n], n) else LastOpen(tokens[..n], n)
    {
      i := n - 1;
      while i >= 0 && !(IsOpen(tokens[i]) && (containersOnly ==> IsContainer(tokens[i])))
        invariant -1 <= i < n
        invariant containersOnly ==> LastOpenContainer(tokens[..n], n) == LastOpenContainer(tokens[..n], i + 1)
        invariant !containersOnly ==> LastOpen(tokens[..n], n) == LastOpen(tokens[..n], i + 1)
      {
        i := i - 1;
      }
    }

    method Grow(tokens: array?<Token>, numTokens: nat, super: int)
      requires tokens != null ==> Valid(tokens, numTokens) && -1 <= super < toknext
      modifies if tokens == null then {} else {tokens}
      ensures tokens != null ==> tokens[..toknext] == Bump(old(tokens[..toknext]), super)
    {
      if super != -1 && tokens != null {
        tokens[super] := tokens[super].(size := tokens[super].size + 1);
      }
    }

    /** The closing bracket: the last open token must have its type; it is closed and the next open one becomes superior. */
    method Close(typ: TokType, tokens: array<Token>, numTokens: nat) returns (ok: bool)
      requires Valid(tokens, numTokens)
      modifies this`toksuper, tokens
      ensures Valid(tokens, numTokens)
      ensures var step := CloseStep(old(State(tokens)), typ);
              ok == step.Next? && (ok ==> step.p == State(tokens).(pos := pos + 1))
      ensures !ok ==> toksuper == old(toksuper) && tokens[..] == old(tokens[..])
    {
      var i := FindOpen(tokens, toknext, false);
      if i == -1 || tokens[i].typ != typ {
        return false;
      }
      tokens[i] := tokens[i].(end := pos + 1);
      toksuper := FindOpen(tokens, i, false);
      assert tokens[..toknext] == old(tokens[..toknext])[i := tokens[i]];
      LastOpenPrefix(tokens[..toknext], i);
      assert tokens[..toknext][..i] == tokens[..i];
      return true;
    }

    /** The opening bracket: one more token, a child of the superior one, which it replaces. */
    method Open(typ: TokType, tokens: array<Token>, numTokens: nat) returns (ok: bool)
      requires Valid(tokens, numTokens)
      modifies this`toknext, this`toksuper, tokens
      ensures Valid(tokens, numTokens)
      ensures var step := Alloc(old(State(tokens)), Token(typ, pos, -1, 0), numTokens, pos, old(toknext));
              ok == step.Next? && (ok ==> step.p == State(tokens) && toknext == old(toknext) + 1)
      ensures !ok ==> State(tokens) == old(State(tokens))
    {
      var t := Token(typ, pos, -1, 0);
      ok := AllocToken(t, tokens, numTokens);
      if ok {
        Grow(tokens, numTokens, toksuper);
        assert tokens[..toknext] == Bump(old(tokens[..toknext]), toksuper) + [t];
        toksuper := toknext - 1;
      }
    }

    /** A string or a primitive: scanned, allocated and counted as a child of the superior token. */
    method Lexeme(js: bytes, tokens: array<Token>, numTokens: nat) returns (r: int)
      requires Valid(tokens, numTokens)
      requires pos < |js| && (js[pos] == QUOTE || (StartsPrimitive(js[pos]) && PrimitiveAllowed(State(tokens))))
      modifies this`pos, this`toknext, tokens
      ensures Valid(tokens, numTokens)
      ensures StepAt(js, numTokens, old(State(tokens)))
           == if r < 0 then Stop(r) else Next(State(tokens).(pos := pos + 1))
      ensures if r < 0 then State(tokens) == old(State(tokens)) else toknext == old(toknext) + 1
    {
      ghost var before := State(tokens);
      if js[pos] == QUOTE {
        r := ParseString(js, tokens, numTokens);
      } else {
        r := ParsePrimitive(js, tokens, numTokens);
      }
      if r < 0 {
        assert tokens[..toknext] == before.toks;
        return;
      }
      ghost var t := tokens[..toknext][toknext - 1];
      assert tokens[..toknext] == before.toks + [t];
      Grow(tokens, numTokens, toksuper);
      assert tokens[..toknext] == Bump(before.toks, before.super) + [t];
    }

    method Comma(tokens: array<Token>, numTokens: nat)
      requires Valid(tokens, numTokens)
      modifies this`toksuper
      ensures Valid(tokens, numTokens)
      ensures CommaStep(old(State(tokens))) == Next(State(tokens).(pos := pos + 1))
    {
      if toksuper != -1 && !IsContainer(tokens[toksuper]) {
        var i := FindOpen(tokens, toknext, true);
        if i != -1 {
          toksuper := i;
        }
      }
    }

    /** The body of the main loop, up to its final `pos++`, with a token array. */
    method Character(js: bytes, tokens: array<Token>, numTokens: nat) returns (r: int, more: nat)
      requires Valid(tokens, numTokens) && pos < |js|
      modifies this, tokens
      ensures Valid(tokens, numTokens)
      ensures StepAt(js, numTokens, old(State(tokens)))
           == if r < 0 then Stop(r) else Next(State(tokens).(pos := pos + 1))
      ensures if r < 0 then State(tokens) == old(State(tokens)) else toknext == old(toknext) + more
    {
      var c := js[pos];
      r, more := 0, 0;
      if c == LBRACE || c == LBRACKET {
        var ok := Open(if c == LBRACE then Object else Array, tokens, numTokens);
        r, more := if ok then 0 else ERROR_NOMEM, 1;
      } else if c == RBRACE || c == RBRACKET {
        var ok := Close(if c == RBRACE then Object else Array, tokens, numTokens);
        r := if ok then 0 else ERROR_INVAL;
      } else if c == QUOTE {
        r := Lexeme(js, tokens, numTokens);
        more := 1;
      } else if IsSpace(c) {
      } else if c == COLON {
        toksuper := toknext - 1;
      } else if c == COMMA {
        Comma(tokens, numTokens);
      } else if StartsPrimitive(c) {
        if toksuper != -1 {
          if tokens[toksuper].typ.Object? || (tokens[toksuper].typ.String? && tokens[toksuper].size != 0) {
            return ERROR_INVAL, 0;
          }
        }
        r := Lexeme(js, tokens, numTokens);
        more := 1;
      } else {
        r := ERROR_INVAL;
      }
    }

    /** The same loop body when tokens == NULL; `more` says whether a token was counted. */
    method CountCharacter(js: bytes, ghost count: nat) returns (r: int, more: nat)
      requires pos < |js| && js[pos] != NUL
      modifies this
      ensures toknext == old(toknext) && pos >= old(pos)
      ensures CountRun(js, old(pos), count) == if r < 0 then r else CountRun(js, pos + 1, count + more)
    {
      var c := js[pos];
      r, more := 0, 0;
      if c == LBRACE || c == LBRACKET {
        more := 1;
      } else if c == QUOTE {
        r := ParseString(js, null, 0);
        more := 1;
      } else if c == COLON {
        toksuper := toknext - 1;
      } else if c == RBRACE || c == RBRACKET || IsSpace(c) || c == COMMA {
      } else if StartsPrimitive(c) {
        r := ParsePrimitive(js, null, 0);
        more := 1;
      } else {
        r := ERROR_INVAL;
      }
    }

    /** One call, tokens or none, from whatever state the parser was left in. */
    method Parse(js: bytes, tokens: array?<Token>, numTokens: nat) returns (r: int)
      requires tokens != null ==> Valid(tokens, numTokens)
      modifies this, if tokens == null then {} else {tokens}
      ensures tokens != null ==> Valid(tokens, numTokens)
      ensures tokens != null ==> (State(tokens), r) == Run(js, numTokens, old(State(tokens)))
      ensures tokens == null ==> r == CountRun(js, old(pos), old(toknext))
    {
      var count := toknext;
      while pos < |js| && js[pos] != NUL
        invariant tokens != null ==> Valid(tokens, numTokens) && count == toknext
        invariant tokens == null ==> toknext == old(toknext)
        invariant tokens != null ==> Run(js, numTokens, old(State(tokens))) == Run(js, numTokens, State(tokens))
        invariant tokens == null ==> CountRun(js, old(pos), old(toknext)) == CountRun(js, pos, count)
        decreases |js| - pos
      {
        var more;
        if tokens == null {
          r, more := CountCharacter(js, count);
        } else {
          r, more := Character(js, tokens, numTokens);
        }
        if r < 0 {
          return;
        }
        count := count + more;
        pos := pos + 1;
      }
      if tokens != null {
        var i := FindOpen(tokens, toknext, false);
        if i >= 0 {
          return ERROR_PART;
        }
      }
      return count;
    }
  }

  /** The back-scan looks at nothing above its start. */
  lemma {:induction false} LastOpenPrefix(toks: seq<Token>, n: nat)
    requires n <= |toks|
    ensures LastOpen(toks, n) == LastOpen(toks[..n], n)
    decreases n
  {
    if n > 0 {
      LastOpenPrefix(toks, n - 1);
      LastOpenPrefix(toks[..n], n - 1);
      assert toks[..n][..n - 1] == toks[..n - 1];
    }
  }
}
