/**
 * The template parser: one left-to-right pass that cuts a template string
 * into literal, argument and incomplete-argument tokens.
 *
 * The scan compares each single character with the delimiter strings, so a
 * delimiter only ever matches when it is exactly one character long. An
 * opening delimiter met inside an argument deepens the nesting; a closing
 * one ends the argument only at depth 1. The predicates below describe the
 * text of each token kind, as a window `template[lo..hi]`, by the running
 * depth of its delimiters, which is what the scan's `nesting` counter tracks.
 *
 * `TemplateParser.Parse` is the scan itself. Its result is tied to
 * `ParsedTokens`, the same scan written as a function (`ScanNext` is one
 * step, `Run` the rest of the scan); `ScanInvariant` holds along that
 * function, and what it gives at the end is stated in `ParsedTokensProperties`.
 */
module Parser {
  import opened Types
  import opened Utils

  /** The scan's test `character === delimiter`. */
  predicate IsDelimiter(c: char, delimiter: string)
  {
    delimiter == [c]
  }

  /** How one character moves the nesting depth; an opening delimiter wins over a closing one. */
  function Delta(c: char, start: string, end: string): int
  {
    if IsDelimiter(c, start) then 1 else if IsDelimiter(c, end) then -1 else 0
  }

  /** The nesting depth reached after reading `t[lo..hi]` from depth 0. */
  function Depth(t: string, start: string, end: string, lo: int, hi: int): int
    requires 0 <= lo <= hi <= |t|
    decreases hi - lo
  {
    if hi == lo then 0 else Depth(t, start, end, lo, hi - 1) + Delta(t[hi - 1], start, end)
  }

  /** After each character of `t[lo..hi]` the depth is positive. */
  predicate StaysOpen(t: string, start: string, end: string, lo: int, hi: int)
    requires 0 <= lo <= hi <= |t|
    decreases hi - lo
  {
    hi == lo || (StaysOpen(t, start, end, lo, hi - 1) && Depth(t, start, end, lo, hi) > 0)
  }

  /** Literal text: no character of `t[lo..hi]` is the start delimiter. */
  predicate LiteralSpan(t: string, start: string, lo: int, hi: int)
    requires 0 <= lo <= hi <= |t|
    decreases hi - lo
  {
    hi == lo || (LiteralSpan(t, start, lo, hi - 1) && !IsDelimiter(t[hi - 1], start))
  }

  /**
   * An argument's text `t[lo..hi]`: it opens with the start delimiter, its
   * depth stays positive until its last character and that character brings
   * it back to 0.
   */
  predicate ArgumentSpan(t: string, start: string, end: string, lo: int, hi: int)
    requires 0 <= lo <= hi <= |t|
  {
    && lo < hi
    && IsDelimiter(t[lo], start)
    && Depth(t, start, end, lo, hi) == 0
    && StaysOpen(t, start, end, lo, hi - 1)
  }

  /** An unterminated argument's text `t[lo..hi]`: it opens with the start delimiter and its depth never returns to 0. */
  predicate OpenSpan(t: string, start: string, end: string, lo: int, hi: int)
    requires 0 <= lo <= hi <= |t|
  {
    && lo < hi
    && IsDelimiter(t[lo], start)
    && StaysOpen(t, start, end, lo, hi)
  }

  /** Literal text is text in which no character is the start delimiter. */
  lemma {:induction false} LiteralSpanChars(t: string, start: string, lo: int, hi: int)
    requires 0 <= lo <= hi <= |t|
    ensures LiteralSpan(t, start, lo, hi) <==> (forall i :: lo <= i < hi ==> !IsDelimiter(t[i], start))
    decreases hi - lo
  {
    if hi > lo {
      LiteralSpanChars(t, start, lo, hi - 1);
    }
  }

  /** Text stays open exactly when the depth after each of its non-empty prefixes is positive. */
  lemma {:induction false} StaysOpenDepths(t: string, start: string, end: string, lo: int, hi: int)
    requires 0 <= lo <= hi <= |t|
    ensures StaysOpen(t, start, end, lo, hi) <==> (forall j :: lo < j <= hi ==> Depth(t, start, end, lo, j) > 0)
    decreases hi - lo
  {
    if hi > lo {
      StaysOpenDepths(t, start, end, lo, hi - 1);
      assert (forall j :: lo < j <= hi ==> Depth(t, start, end, lo, j) > 0)
         <==> (forall j :: lo < j <= hi - 1 ==> Depth(t, start, end, lo, j) > 0) && Depth(t, start, end, lo, hi) > 0;
      assert StaysOpen(t, start, end, lo, hi) <==> StaysOpen(t, start, end, lo, hi - 1) && Depth(t, start, end, lo, hi) > 0;
    } else {
      assert StaysOpen(t, start, end, lo, hi);
    }
  }

  /**
   * Token number `k` of the parse of `template`: a non-empty span of the
   * template whose label is the spanned text, whose id is derived from its
   * kind (the Literal kind for an incomplete argument) and `k`, and whose
   * text has the shape of its kind.
   */
  predicate ParsedToken(template: string, start: string, end: string, token: Token, k: int)
  {
    && 0 <= token.position.start <= token.position.end < |template|
    && token.labelText == template[token.position.start..token.position.end + 1]
    && token.id == GetTemplateTokenId(if token.IncompleteArgumentToken? then Literal else token.Kind(), k)
    && var lo, hi := token.position.start, token.position.end + 1;
       match token
       case LiteralToken(_, labelText, value, _) =>
         value == labelText && LiteralSpan(template, start, lo, hi)
       case ArgumentToken(_, labelText, value, rawValue, _) =>
         rawValue == labelText && ArgumentSpan(template, start, end, lo, hi) && start + value + end == rawValue
       case IncompleteArgumentToken(_, labelText, value, rawValue, _) =>
         rawValue == labelText && OpenSpan(template, start, end, lo, hi) && start + value == rawValue
  }

  function Clamp(i: int, length: nat): (r: nat)
    ensures r <= length
  {
    if i < 0 then 0 else if i > length then length else i
  }

  /** `String.prototype.substring`: both bounds clamped to the string, swapped when out of order. */
  function Substring(s: string, indexStart: int, indexEnd: int): (r: string)
    ensures 0 <= indexStart <= indexEnd <= |s| ==> r == s[indexStart..indexEnd]
  {
    var a := Clamp(indexStart, |s|);
    var b := Clamp(indexEnd, |s|);
    if a <= b then s[a..b] else s[b..a]
  }

  /** The pending text `template[offset..index]` begins an argument. */
  predicate Opened(template: string, start: string, offset: int, index: int)
  {
    0 <= offset < index <= |template| && IsDelimiter(template[offset], start)
  }

  /** No literal token is directly followed by another. */
  predicate NoAdjacentLiterals(tokens: seq<Token>)
  {
    forall k :: 0 <= k < |tokens| - 1 ==> tokens[k].LiteralToken? ==> !tokens[k + 1].LiteralToken?
  }

  /**
   * The tokens the scan has emitted, built up one at a time: each starts
   * right after the previous one (the first at 0), is parsed from its span,
   * is complete, and is not a literal following a literal.
   */
  predicate Emitted(template: string, start: string, end: string, tokens: seq<Token>)
    decreases |tokens|
  {
    tokens != [] ==>
      var m := |tokens| - 1;
      && Emitted(template, start, end, tokens[..m])
      && tokens[m].position.start == NextStart(tokens[..m])
      && ParsedToken(template, start, end, tokens[m], m)
      && !tokens[m].IncompleteArgumentToken?
      && (m > 0 && tokens[m - 1].LiteralToken? ==> !tokens[m].LiteralToken?)
  }

  lemma PushEmitted(template: string, start: string, end: string, tokens: seq<Token>, token: Token)
    requires Emitted(template, start, end, tokens)
    requires token.position.start == NextStart(tokens)
    requires ParsedToken(template, start, end, token, |tokens|) && !token.IncompleteArgumentToken?
    requires |tokens| > 0 && tokens[|tokens| - 1].LiteralToken? ==> !token.LiteralToken?
    ensures Emitted(template, start, end, tokens + [token])
  {
    assert (tokens + [token])[..|tokens|] == tokens;
  }

  /** Emitted tokens tile their span, each is parsed and complete, and no literals are adjacent. */
  lemma EmittedFacts(template: string, start: string, end: string, tokens: seq<Token>)
    requires Emitted(template, start, end, tokens)
    ensures Tiled(tokens, NextStart(tokens))
    ensures forall k :: 0 <= k < |tokens| ==> ParsedToken(template, start, end, tokens[k], k)
    ensures forall k :: 0 <= k < |tokens| ==> !tokens[k].IncompleteArgumentToken?
    ensures NoAdjacentLiterals(tokens)
  {
    forall k | 0 <= k < |tokens|
      ensures ParsedToken(template, start, end, tokens[k], k) && !tokens[k].IncompleteArgumentToken?
      ensures k == 0 ==> tokens[k].position.start == 0
      ensures k > 0 ==> tokens[k].position.start == tokens[k - 1].position.end + 1
    {
      EmittedAt(template, start, end, tokens, k);
    }
    forall k | 0 <= k < |tokens| - 1
      ensures tokens[k].LiteralToken? ==> !tokens[k + 1].LiteralToken?
    {
      EmittedAt(template, start, end, tokens, k + 1);
    }
  }

  /** Emitted token number `k` is parsed, complete, starts where its predecessor ends and is not a second literal in a row. */
  lemma {:induction false} EmittedAt(template: string, start: string, end: string, tokens: seq<Token>, k: int)
    requires Emitted(template, start, end, tokens) && 0 <= k < |tokens|
    ensures ParsedToken(template, start, end, tokens[k], k) && !tokens[k].IncompleteArgumentToken?
    ensures tokens[k].position.start == if k == 0 then 0 else tokens[k - 1].position.end + 1
    ensures k > 0 && tokens[k - 1].LiteralToken? ==> !tokens[k].LiteralToken?
    decreases |tokens|
  {
    var m := |tokens| - 1;
    var prefix := tokens[..m];
    if k == m {
      if m > 0 {
        assert prefix[m - 1] == tokens[m - 1];
      }
    } else {
      EmittedAt(template, start, end, prefix, k);
      assert prefix[k] == tokens[k];
      if k > 0 {
        assert prefix[k - 1] == tokens[k - 1];
      }
    }
  }

  /**
   * What holds before each character of the scan: the tokens emitted so far
   * tile `template[..offset]` and are complete, and the pending text
   * `template[offset..index]` is either an open argument at depth `nesting`
   * whose depth has stayed positive, or literal text at depth `nesting <= 0`.
   * A literal is only emitted when an argument opens right after it.
   */
  predicate ScanInvariant(template: string, start: string, end: string, tokens: seq<Token>, index: int, offset: int, nesting: int)
  {
    && 0 <= offset <= index <= |template|
    && Emitted(template, start, end, tokens)
    && NextStart(tokens) == offset
    && nesting == Depth(template, start, end, offset, index)
    && (Opened(template, start, offset, index) ==> StaysOpen(template, start, end, offset, index))
    && (!Opened(template, start, offset, index) ==> nesting <= 0 && LiteralSpan(template, start, offset, index))
    && (|tokens| > 0 && tokens[|tokens| - 1].LiteralToken? ==> Opened(template, start, offset, index))
  }

  /**
   * The parse of a whole template: tokens that tile it, each parsed from its
   * span, with no adjacent literals and an incomplete argument at most at
   * the end.
   */
  predicate ParseOutcome(template: string, start: string, end: string, tokens: seq<Token>)
  {
    && Tiled(tokens, |template|)
    && (forall k :: 0 <= k < |tokens| ==> ParsedToken(template, start, end, tokens[k], k))
    && (forall k :: 0 <= k < |tokens| - 1 ==> !tokens[k].IncompleteArgumentToken?)
    && NoAdjacentLiterals(tokens)
  }

  /** Appending a parsed token that starts where the tiling ends keeps the emitted tokens a parse prefix. */
  lemma PushScanned(template: string, start: string, end: string, tokens: seq<Token>, offset: int, token: Token, next: int)
    requires Tiled(tokens, offset)
    requires forall k :: 0 <= k < |tokens| ==> ParsedToken(template, start, end, tokens[k], k)
    requires forall k :: 0 <= k < |tokens| ==> !tokens[k].IncompleteArgumentToken?
    requires NoAdjacentLiterals(tokens)
    requires token.position.start == offset && token.position.end + 1 == next
    requires ParsedToken(template, start, end, token, |tokens|)
    requires |tokens| > 0 && tokens[|tokens| - 1].LiteralToken? ==> !token.LiteralToken?
    ensures Tiled(tokens + [token], next)
    ensures forall k :: 0 <= k < |tokens + [token]| ==> ParsedToken(template, start, end, (tokens + [token])[k], k)
    ensures forall k :: 0 <= k < |tokens| ==> !(tokens + [token])[k].IncompleteArgumentToken?
    ensures !token.IncompleteArgumentToken? ==>
              forall k :: 0 <= k < |tokens + [token]| ==> !(tokens + [token])[k].IncompleteArgumentToken?
    ensures NoAdjacentLiterals(tokens + [token])
  {
    PushTiled(tokens, offset, token, next);
    var tokens' := tokens + [token];
    forall k | 0 <= k < |tokens'|
      ensures ParsedToken(template, start, end, tokens'[k], k)
    {
      if k < |tokens| {
        assert tokens'[k] == tokens[k];
      }
    }
    forall k | 0 <= k < |tokens'| - 1
      ensures tokens'[k].LiteralToken? ==> !tokens'[k + 1].LiteralToken?
    {
      assert tokens'[k] == tokens[k];
      if k + 1 < |tokens| {
        assert tokens'[k + 1] == tokens[k + 1];
      }
    }
    forall k | 0 <= k < |tokens|
      ensures !tokens'[k].IncompleteArgumentToken?
    {
      assert tokens'[k] == tokens[k];
    }
  }

  /** Appending a token that starts where the tiling ends extends the tiling to its end. */
  lemma PushTiled(tokens: seq<Token>, offset: int, token: Token, next: int)
    requires Tiled(tokens, offset)
    requires token.position.start == offset && token.position.end + 1 == next
    ensures Tiled(tokens + [token], next)
  {
    var tokens' := tokens + [token];
    forall k | 0 < k < |tokens'|
      ensures tokens'[k].position.start == tokens'[k - 1].position.end + 1
    {
      if k < |tokens| {
        assert tokens'[k] == tokens[k] && tokens'[k - 1] == tokens[k - 1];
      }
    }
  }

  /** Literal text of the template, flushed as token number `k`. */
  lemma LiteralParsed(template: string, start: string, end: string, offset: int, index: int, k: int)
    requires 0 <= offset < index <= |template|
    requires LiteralSpan(template, start, offset, index)
    ensures var text := template[offset..index];
      ParsedToken(template, start, end, LiteralToken(GetTemplateTokenId(Literal, k), text, text, Position(offset, index - 1)), k)
  {
  }

  /** A closed argument of the template, emitted as token number `k`. */
  lemma ArgumentParsed(template: string, start: string, end: string, offset: int, index: int, k: int)
    requires 0 <= offset < index <= |template| && |start| == 1 && |end| == 1
    requires ArgumentSpan(template, start, end, offset, index)
    ensures var rawValue := template[offset..index];
      ParsedToken(template, start, end,
                  ArgumentToken(GetTemplateTokenId(Argument, k), rawValue,
                                Substring(rawValue, |start|, |rawValue| - |end|), rawValue, Position(offset, index - 1)), k)
  {
    var rawValue := template[offset..index];
    var m := index - 1;
    assert Depth(template, start, end, offset, offset + 1) == 1;
    assert m > offset;
    assert Depth(template, start, end, offset, m) > 0;
    assert IsDelimiter(template[m], end);
    assert rawValue == [template[offset]] + template[offset + 1..m] + [template[m]];
  }

  /** An unterminated argument at the end of the template, emitted as token number `k`. */
  lemma IncompleteParsed(template: string, start: string, end: string, offset: int, k: int)
    requires 0 <= offset < |template| && |start| == 1
    requires OpenSpan(template, start, end, offset, |template|)
    ensures var rawValue := template[offset..];
      ParsedToken(template, start, end,
                  IncompleteArgumentToken(GetTemplateTokenId(Literal, k), rawValue,
                                          Substring(rawValue, |start|, |rawValue|), rawValue, Position(offset, |template| - 1)), k)
  {
    var rawValue := template[offset..];
    assert rawValue == [template[offset]] + template[offset + 1..];
    assert template[offset..|template|] == rawValue;
  }

  /** The scan's running state: the tokens emitted, where the pending text starts and its nesting depth. */
  datatype Scan = Scan(tokens: seq<Token>, offset: int, nesting: int)

  /** The state after the scan reads `template[index]`. */
  ghost function ScanNext(template: string, start: string, end: string, s: Scan, index: int): (r: Scan)
    requires 0 <= s.offset <= index < |template|
    ensures s.offset <= r.offset <= index + 1
  {
    var Scan(tokens, offset, nesting) := s;
    var c := template[index];
    if IsDelimiter(c, start) then
      if index != offset && nesting <= 0 then
        var text := template[offset..index];
        Scan(tokens + [LiteralToken(GetTemplateTokenId(Literal, |tokens|), text, text, Position(offset, index - 1))], index, 1)
      else
        Scan(tokens, offset, nesting + 1)
    else if IsDelimiter(c, end) then
      if nesting == 1 then
        var rawValue := template[offset..index + 1];
        Scan(tokens + [ArgumentToken(GetTemplateTokenId(Argument, |tokens|), rawValue,
                                     Substring(rawValue, |start|, |rawValue| - |end|), rawValue, Position(offset, index))],
             index + 1, 0)
      else
        Scan(tokens, offset, nesting - 1)
    else
      Scan(tokens, offset, nesting)
  }

  /** The scan invariant of a scan state. */
  predicate Reachable(template: string, start: string, end: string, s: Scan, index: int)
  {
    ScanInvariant(template, start, end, s.tokens, index, s.offset, s.nesting)
  }

  lemma ScanStart(template: string, start: string, end: string)
    ensures ScanInvariant(template, start, end, [], 0, 0, 0)
  {
  }

  /** A start delimiter outside any argument flushes the pending text as a literal. */
  lemma StepFlushLiteral(template: string, start: string, end: string, s: Scan, index: int)
    requires Reachable(template, start, end, s, index)
    requires index < |template| && IsDelimiter(template[index], start)
    requires index != s.offset && s.nesting <= 0
    ensures Reachable(template, start, end, ScanNext(template, start, end, s, index), index + 1)
  {
    var Scan(tokens, offset, nesting) := s;
    var text := template[offset..index];
    var token := LiteralToken(GetTemplateTokenId(Literal, |tokens|), text, text, Position(offset, index - 1));
    assert ScanNext(template, start, end, s, index) == Scan(tokens + [token], index, 1);
    assert !Opened(template, start, offset, index);
    LiteralParsed(template, start, end, offset, index, |tokens|);
    PushEmitted(template, start, end, tokens, token);
    ScanOpenAt(template, start, end, tokens + [token], index);
  }

  /** Right after a flushed literal, the pending text is the start delimiter just read. */
  lemma ScanOpenAt(template: string, start: string, end: string, tokens: seq<Token>, n: int)
    requires 0 <= n < |template| && IsDelimiter(template[n], start)
    requires Emitted(template, start, end, tokens) && NextStart(tokens) == n
    ensures ScanInvariant(template, start, end, tokens, n + 1, n, 1)
  {
    assert Depth(template, start, end, n, n + 1) == 1;
    assert Opened(template, start, n, n + 1);
  }

  /** A start delimiter inside an argument, or one that opens right at the offset, only deepens the nesting. */
  lemma StepDeepen(template: string, start: string, end: string, s: Scan, index: int)
    requires Reachable(template, start, end, s, index)
    requires index < |template| && IsDelimiter(template[index], start)
    requires !(index != s.offset && s.nesting <= 0)
    ensures Reachable(template, start, end, ScanNext(template, start, end, s, index), index + 1)
  {
    var Scan(tokens, offset, nesting) := s;
    assert ScanNext(template, start, end, s, index) == Scan(tokens, offset, nesting + 1);
    assert Depth(template, start, end, offset, index + 1) == nesting + 1;
    assert Opened(template, start, offset, index + 1);
    if index == offset {
      assert !Opened(template, start, offset, index);
    } else {
      assert Opened(template, start, offset, index);
    }
  }

  /** An end delimiter at depth 1 closes the pending argument. */
  lemma StepCloseArgument(template: string, start: string, end: string, s: Scan, index: int)
    requires Reachable(template, start, end, s, index)
    requires index < |template| && !IsDelimiter(template[index], start) && IsDelimiter(template[index], end)
    requires s.nesting == 1
    ensures Reachable(template, start, end, ScanNext(template, start, end, s, index), index + 1)
  {
    var Scan(tokens, offset, nesting) := s;
    var rawValue := template[offset..index + 1];
    var token := ArgumentToken(GetTemplateTokenId(Argument, |tokens|), rawValue,
                               Substring(rawValue, |start|, |rawValue| - |end|), rawValue, Position(offset, index));
    assert ScanNext(template, start, end, s, index) == Scan(tokens + [token], index + 1, 0);
    CloseArgument(template, start, end, tokens, offset, index);
  }

  /** Closing the pending argument at `index` emits it and leaves nothing pending. */
  lemma CloseArgument(template: string, start: string, end: string, tokens: seq<Token>, offset: int, index: int)
    requires index < |template| && ScanInvariant(template, start, end, tokens, index, offset, 1)
    requires !IsDelimiter(template[index], start) && IsDelimiter(template[index], end)
    ensures var rawValue := template[offset..index + 1];
      ScanInvariant(template, start, end,
                    tokens + [ArgumentToken(GetTemplateTokenId(Argument, |tokens|), rawValue,
                                            Substring(rawValue, |start|, |rawValue| - |end|), rawValue, Position(offset, index))],
                    index + 1, index + 1, 0)
  {
    var rawValue := template[offset..index + 1];
    var token := ArgumentToken(GetTemplateTokenId(Argument, |tokens|), rawValue,
                               Substring(rawValue, |start|, |rawValue| - |end|), rawValue, Position(offset, index));
    assert Opened(template, start, offset, index);
    ClosedArgumentParsed(template, start, end, offset, index, |tokens|);
    PushEmitted(template, start, end, tokens, token);
    ScanAtBoundary(template, start, end, tokens + [token], index + 1);
  }

  /** The argument closed by the end delimiter at `index` is a parsed token. */
  lemma ClosedArgumentParsed(template: string, start: string, end: string, offset: int, index: int, k: int)
    requires Opened(template, start, offset, index) && index < |template|
    requires !IsDelimiter(template[index], start) && IsDelimiter(template[index], end)
    requires StaysOpen(template, start, end, offset, index)
    requires Depth(template, start, end, offset, index) == 1
    ensures var rawValue := template[offset..index + 1];
      ParsedToken(template, start, end,
                  ArgumentToken(GetTemplateTokenId(Argument, k), rawValue,
                                Substring(rawValue, |start|, |rawValue| - |end|), rawValue, Position(offset, index)), k)
  {
    assert Depth(template, start, end, offset, index + 1) == 0;
    ArgumentParsed(template, start, end, offset, index + 1, k);
  }

  /** Right after a closed argument, nothing is pending. */
  lemma ScanAtBoundary(template: string, start: string, end: string, tokens: seq<Token>, n: int)
    requires 0 <= n <= |template|
    requires Emitted(template, start, end, tokens) && NextStart(tokens) == n
    requires |tokens| > 0 ==> !tokens[|tokens| - 1].LiteralToken?
    ensures ScanInvariant(template, start, end, tokens, n, n, 0)
  {
  }

  /** Any other character is absorbed into the pending text; an end delimiter still lowers the nesting. */
  lemma StepAbsorb(template: string, start: string, end: string, s: Scan, index: int)
    requires Reachable(template, start, end, s, index)
    requires index < |template| && !IsDelimiter(template[index], start)
    requires !(IsDelimiter(template[index], end) && s.nesting == 1)
    ensures Reachable(template, start, end, ScanNext(template, start, end, s, index), index + 1)
  {
    var Scan(tokens, offset, nesting) := s;
    assert ScanNext(template, start, end, s, index)
        == Scan(tokens, offset, if IsDelimiter(template[index], end) then nesting - 1 else nesting);
    assert Depth(template, start, end, offset, index + 1) == nesting + Delta(template[index], start, end);
    if Opened(template, start, offset, index + 1) {
      assert Opened(template, start, offset, index);
    }
  }

  /** Reading one more character keeps the scan invariant. */
  lemma ScanStep(template: string, start: string, end: string, s: Scan, index: int)
    requires Reachable(template, start, end, s, index) && index < |template|
    ensures Reachable(template, start, end, ScanNext(template, start, end, s, index), index + 1)
  {
    var c := template[index];
    if IsDelimiter(c, start) {
      if index != s.offset && s.nesting <= 0 {
        StepFlushLiteral(template, start, end, s, index);
      } else {
        StepDeepen(template, start, end, s, index);
      }
    } else if IsDelimiter(c, end) && s.nesting == 1 {
      StepCloseArgument(template, start, end, s, index);
    } else {
      StepAbsorb(template, start, end, s, index);
    }
  }

  /** The scan run from state `s`, just before `template[index]`, to the end of the template. */
  ghost function Run(template: string, start: string, end: string, s: Scan, index: int): (r: Scan)
    requires 0 <= s.offset <= index <= |template|
    ensures 0 <= r.offset <= |template|
    decreases |template| - index
  {
    if index == |template| then s else Run(template, start, end, ScanNext(template, start, end, s, index), index + 1)
  }

  /** A run from a state that satisfies the scan invariant ends in one that does. */
  lemma {:induction false} RunInvariant(template: string, start: string, end: string, s: Scan, index: int)
    requires 0 <= s.offset <= index <= |template|
    requires Reachable(template, start, end, s, index)
    ensures Reachable(template, start, end, Run(template, start, end, s, index), |template|)
    decreases |template| - index
  {
    if index < |template| {
      ScanStep(template, start, end, s, index);
      RunInvariant(template, start, end, ScanNext(template, start, end, s, index), index + 1);
      RunNext(template, start, end, s, index);
    }
  }

  /** Running from `index` is reading `template[index]` and running on from `index + 1`. */
  lemma RunNext(template: string, start: string, end: string, s: Scan, index: int)
    requires 0 <= s.offset <= index < |template|
    ensures Run(template, start, end, s, index)
         == Run(template, start, end, ScanNext(template, start, end, s, index), index + 1)
  {
  }

  /** At the end of the template, pending text at a positive depth becomes an incomplete argument. */
  lemma FinishIncomplete(template: string, start: string, end: string, tokens: seq<Token>, offset: int, nesting: int)
    requires ScanInvariant(template, start, end, tokens, |template|, offset, nesting)
    requires offset != |template| && nesting > 0
    ensures var rawValue := template[offset..];
      ParseOutcome(template, start, end,
                   tokens + [IncompleteArgumentToken(GetTemplateTokenId(Literal, |tokens|), rawValue,
                                                     Substring(rawValue, |start|, |rawValue|), rawValue,
                                                     Position(offset, |template| - 1))])
  {
    var rawValue := template[offset..];
    var token := IncompleteArgumentToken(GetTemplateTokenId(Literal, |tokens|), rawValue,
                                         Substring(rawValue, |start|, |rawValue|), rawValue, Position(offset, |template| - 1));
    assert Opened(template, start, offset, |template|);
    IncompleteParsed(template, start, end, offset, |tokens|);
    FinishWith(template, start, end, tokens, token);
  }

  /** At the end of the template, pending text at depth `<= 0` becomes a literal. */
  lemma FinishLiteral(template: string, start: string, end: string, tokens: seq<Token>, offset: int, nesting: int)
    requires ScanInvariant(template, start, end, tokens, |template|, offset, nesting)
    requires offset != |template| && nesting <= 0
    ensures var text := template[offset..];
      ParseOutcome(template, start, end,
                   tokens + [LiteralToken(GetTemplateTokenId(Literal, |tokens|), text, text, Position(offset, |template| - 1))])
  {
    var text := template[offset..];
    var token := LiteralToken(GetTemplateTokenId(Literal, |tokens|), text, text, Position(offset, |template| - 1));
    assert !Opened(template, start, offset, |template|);
    assert template[offset..|template|] == text;
    LiteralParsed(template, start, end, offset, |template|, |tokens|);
    FinishWith(template, start, end, tokens, token);
  }

  /** The emitted tokens and one last parsed token that reaches the end of the template are a parse. */
  lemma FinishWith(template: string, start: string, end: string, tokens: seq<Token>, token: Token)
    requires Emitted(template, start, end, tokens)
    requires token.position.start == NextStart(tokens) && token.position.end + 1 == |template|
    requires ParsedToken(template, start, end, token, |tokens|)
    requires |tokens| > 0 && tokens[|tokens| - 1].LiteralToken? ==> !token.LiteralToken?
    ensures ParseOutcome(template, start, end, tokens + [token])
  {
    EmittedFacts(template, start, end, tokens);
    PushScanned(template, start, end, tokens, NextStart(tokens), token, |template|);
  }

  /** At the end of the template with no pending text, the tokens are the parse. */
  lemma FinishEmpty(template: string, start: string, end: string, tokens: seq<Token>, nesting: int)
    requires ScanInvariant(template, start, end, tokens, |template|, |template|, nesting)
    ensures ParseOutcome(template, start, end, tokens)
  {
    EmittedFacts(template, start, end, tokens);
  }

  /** Tiling spans whose labels are the spanned text spell out the template. */
  lemma TiledSpellsTemplate(template: string, tokens: seq<Token>, n: int)
    requires Tiled(tokens, n)
    requires forall k :: 0 <= k < |tokens| ==>
      && 0 <= tokens[k].position.start <= tokens[k].position.end + 1 <= |template|
      && tokens[k].labelText == template[tokens[k].position.start..tokens[k].position.end + 1]
    ensures 0 <= n <= |template| && Text(tokens) == template[..n]
  {
    if |tokens| > 0 {
      TiledSpellsSuffix(template, tokens, n, 0);
      assert tokens[0..] == tokens;
    }
  }

  /** The tokens from `i` on spell out the template from where token `i` starts up to `n`. */
  lemma {:induction false} TiledSpellsSuffix(template: string, tokens: seq<Token>, n: int, i: nat)
    requires Tiled(tokens, n) && i < |tokens|
    requires forall k :: 0 <= k < |tokens| ==>
      && 0 <= tokens[k].position.start <= tokens[k].position.end + 1 <= |template|
      && tokens[k].labelText == template[tokens[k].position.start..tokens[k].position.end + 1]
    ensures 0 <= tokens[i].position.start <= n <= |template|
    ensures Text(tokens[i..]) == template[tokens[i].position.start..n]
    decreases |tokens| - i
  {
    var lo, hi := tokens[i].position.start, tokens[i].position.end + 1;
    assert tokens[i..][1..] == tokens[i + 1..];
    if i + 1 < |tokens| {
      TiledSpellsSuffix(template, tokens, n, i + 1);
      assert template[lo..hi] + template[hi..n] == template[lo..n];
    } else {
      assert tokens[i + 1..] == [];
    }
  }

  /** A parsed token has the shape every token sequence keeps. */
  lemma ParsedWellShaped(template: string, start: string, end: string, token: Token, k: int)
    requires ParsedToken(template, start, end, token, k)
    ensures WellShaped(token, start, end)
  {
  }

  lemma ParseConsistent(template: string, start: string, end: string, tokens: seq<Token>)
    requires ParseOutcome(template, start, end, tokens)
    ensures Consistent(tokens, |template|, start, end)
  {
    forall k | 0 <= k < |tokens|
      ensures WellShaped(tokens[k], start, end)
    {
      ParsedWellShaped(template, start, end, tokens[k], k);
    }
  }

  lemma ParseText(template: string, start: string, end: string, tokens: seq<Token>)
    requires ParseOutcome(template, start, end, tokens)
    ensures Text(tokens) == template
  {
    TiledSpellsTemplate(template, tokens, |template|);
    assert template[..|template|] == template;
  }

  /** Serialising a parse gives the template, closed by `end` when the last argument was left open. */
  lemma ParseTokensToString(template: string, start: string, end: string, tokens: seq<Token>)
    requires ParseOutcome(template, start, end, tokens)
    ensures TokensToString(tokens, start, end)
         == if |tokens| > 0 && tokens[|tokens| - 1].IncompleteArgumentToken? then template + end else template
  {
    ParseText(template, start, end, tokens);
    ParseConsistent(template, start, end, tokens);
    LastOpenTokensToString(tokens, start, end);
  }

  /** With a start delimiter that is not one character, a non-empty template is one literal. */
  lemma ParseSingleLiteral(template: string, start: string, end: string, tokens: seq<Token>)
    requires ParseOutcome(template, start, end, tokens)
    requires |start| != 1 && template != []
    ensures tokens == [LiteralToken(GetTemplateTokenId(Literal, 0), template, template, Position(0, |template| - 1))]
  {
    ParseText(template, start, end, tokens);
    assert forall k :: 0 <= k < |tokens| ==> tokens[k].LiteralToken?;
    assert |tokens| == 1;
    var token := tokens[0];
    assert token.position.start == 0 && token.position.end + 1 == |template|;
    assert token.labelText == template[0..|template|] == template;
    assert token == LiteralToken(GetTemplateTokenId(Literal, 0), template, template, Position(0, |template| - 1));
    assert tokens == [token];
  }

  /** What a parse promises beyond its definition: consistency, the text, the serialisation. */
  lemma ParseOutcomeProperties(template: string, start: string, end: string, tokens: seq<Token>)
    requires ParseOutcome(template, start, end, tokens)
    ensures Consistent(tokens, |template|, start, end)
    ensures Text(tokens) == template
    ensures TokensToString(tokens, start, end)
         == if |tokens| > 0 && tokens[|tokens| - 1].IncompleteArgumentToken? then template + end else template
    ensures |start| != 1 && template != [] ==>
              tokens == [LiteralToken(GetTemplateTokenId(Literal, 0), template, template, Position(0, |template| - 1))]
  {
    ParseConsistent(template, start, end, tokens);
    ParseText(template, start, end, tokens);
    ParseTokensToString(template, start, end, tokens);
    if |start| != 1 && template != [] {
      ParseSingleLiteral(template, start, end, tokens);
    }
  }

  /** Token `k` of a parse carries index `k` in its id, so no two tokens of a parse share an id. */
  lemma ParsedIdsDistinct(template: string, start: string, end: string, tokens: seq<Token>)
    requires ParseOutcome(template, start, end, tokens)
    ensures forall k :: 0 <= k < |tokens| ==> tokens[k].id.index == k
    ensures forall k, l :: 0 <= k < l < |tokens| ==> tokens[k].id != tokens[l].id
  {
    forall k | 0 <= k < |tokens|
      ensures tokens[k].id.index == k
    {
      assert ParsedToken(template, start, end, tokens[k], k);
    }
  }

  // ---------------------------------------------------------------------
  // A template has exactly one parse

  /**
   * What a parse puts right after a token: after a literal, a start
   * delimiter or the end of the template; after an incomplete argument,
   * the end of the template.
   */
  predicate Delimited(template: string, start: string, token: Token)
  {
    var hi := token.position.end + 1;
    && (token.LiteralToken? ==> hi == |template| || (0 <= hi < |template| && IsDelimiter(template[hi], start)))
    && (token.IncompleteArgumentToken? ==> hi == |template|)
  }

  /** Every token of a parse is delimited: the next token, or the end of the template, follows it. */
  lemma ParseDelimited(template: string, start: string, end: string, tokens: seq<Token>, k: int)
    requires ParseOutcome(template, start, end, tokens) && 0 <= k < |tokens|
    ensures Delimited(template, start, tokens[k])
  {
    if k + 1 < |tokens| {
      assert ParsedToken(template, start, end, tokens[k + 1], k + 1);
      assert tokens[k + 1].position.start == tokens[k].position.end + 1;
    }
  }

  /** An argument window brings the depth back to 0, so the text from its start to the end does not stay open. */
  lemma ArgumentCloses(t: string, start: string, end: string, lo: int, hi: int)
    requires 0 <= lo <= hi <= |t|
    ensures ArgumentSpan(t, start, end, lo, hi) ==> !StaysOpen(t, start, end, lo, |t|)
  {
    StaysOpenDepths(t, start, end, lo, |t|);
    if ArgumentSpan(t, start, end, lo, hi) {
      assert lo < hi && Depth(t, start, end, lo, hi) == 0;
      assert !(forall j :: lo < j <= |t| ==> Depth(t, start, end, lo, j) > 0);
    }
  }

  /** Two argument windows from the same start end together: where the depth first returns to 0. */
  lemma ArgumentEnd(t: string, start: string, end: string, lo: int, h1: int, h2: int)
    requires 0 <= lo <= h1 <= |t| && lo <= h2 <= |t|
    requires ArgumentSpan(t, start, end, lo, h1) && ArgumentSpan(t, start, end, lo, h2)
    ensures h1 == h2
  {
    StaysOpenDepths(t, start, end, lo, h1 - 1);
    StaysOpenDepths(t, start, end, lo, h2 - 1);
    assert Depth(t, start, end, lo, h1) == 0 && Depth(t, start, end, lo, h2) == 0;
  }

  /** Two literal windows from the same start, each followed by a start delimiter or the end, end together. */
  lemma LiteralEnd(t: string, start: string, lo: int, h1: int, h2: int)
    requires 0 <= lo <= h1 <= |t| && lo <= h2 <= |t|
    requires LiteralSpan(t, start, lo, h1) && LiteralSpan(t, start, lo, h2)
    requires h1 == |t| || IsDelimiter(t[h1], start)
    requires h2 == |t| || IsDelimiter(t[h2], start)
    ensures h1 == h2
  {
    LiteralSpanChars(t, start, lo, h1);
    LiteralSpanChars(t, start, lo, h2);
  }

  /** The text between two given delimiters is determined by the whole. */
  lemma WrappedValue(a: string, v: string, w: string, b: string)
    requires a + v + b == a + w + b
    ensures v == w
  {
    assert v == (a + v + b)[|a|..|a| + |v|];
    assert w == (a + w + b)[|a|..|a| + |w|];
  }

  /** The text after a given prefix is determined by the whole. */
  lemma PrefixedValue(a: string, v: string, w: string)
    requires a + v == a + w
    ensures v == w
  {
    assert v == (a + v)[|a|..];
    assert w == (a + w)[|a|..];
  }

  /** Two tokens parsed from the same start, each delimited as a parse requires, are the same token. */
  lemma SameParsedToken(template: string, start: string, end: string, x: Token, y: Token, k: int)
    requires ParsedToken(template, start, end, x, k) && ParsedToken(template, start, end, y, k)
    requires x.position.start == y.position.start
    requires Delimited(template, start, x) && Delimited(template, start, y)
    ensures x == y
  {
    var lo, hx, hy := x.position.start, x.position.end + 1, y.position.end + 1;
    LiteralSpanChars(template, start, lo, hx);
    LiteralSpanChars(template, start, lo, hy);
    ArgumentCloses(template, start, end, lo, hx);
    ArgumentCloses(template, start, end, lo, hy);
    match x
    case LiteralToken(_, _, _, _) =>
      assert y.LiteralToken?;
      LiteralEnd(template, start, lo, hx, hy);
    case ArgumentToken(_, _, _, _, _) =>
      assert y.ArgumentToken?;
      ArgumentEnd(template, start, end, lo, hx, hy);
      WrappedValue(start, x.value, y.value, end);
    case IncompleteArgumentToken(_, _, _, _, _) =>
      assert y.IncompleteArgumentToken?;
      PrefixedValue(start, x.value, y.value);
  }

  /** Two parses of the same template agree on their first `k` tokens. */
  lemma {:induction false} ParsePrefixesAgree(template: string, start: string, end: string, a: seq<Token>, b: seq<Token>, k: int)
    requires ParseOutcome(template, start, end, a) && ParseOutcome(template, start, end, b)
    requires 0 <= k <= |a| && k <= |b|
    ensures forall j :: 0 <= j < k ==> a[j] == b[j]
    decreases k
  {
    if k > 0 {
      var j := k - 1;
      ParsePrefixesAgree(template, start, end, a, b, j);
      assert a[j].position.start == b[j].position.start by {
        if j > 0 {
          assert a[j - 1] == b[j - 1];
        }
      }
      ParseDelimited(template, start, end, a, j);
      ParseDelimited(template, start, end, b, j);
      SameParsedToken(template, start, end, a[j], b[j], j);
    }
  }

  /** Where the first `k` tokens of a parse end: at the end of the template exactly when they are all of it. */
  lemma ParsePrefixEnd(template: string, start: string, end: string, tokens: seq<Token>, k: int)
    requires ParseOutcome(template, start, end, tokens) && 0 <= k <= |tokens|
    ensures (if k == 0 then 0 else tokens[k - 1].position.end + 1) == |template| <==> k == |tokens|
  {
    if k < |tokens| {
      assert ParsedToken(template, start, end, tokens[k], k);
    }
  }

  /** A template and its delimiters determine the parse: two sequences that are parses of it are equal. */
  lemma ParseOutcomeUnique(template: string, start: string, end: string, a: seq<Token>, b: seq<Token>)
    requires ParseOutcome(template, start, end, a) && ParseOutcome(template, start, end, b)
    ensures a == b
  {
    var m := if |a| <= |b| then |a| else |b|;
    ParsePrefixesAgree(template, start, end, a, b, m);
    ParsePrefixEnd(template, start, end, a, m);
    ParsePrefixEnd(template, start, end, b, m);
    if m > 0 {
      assert a[m - 1] == b[m - 1];
    }
  }

  /** The tokens once the whole template is read: pending text, if any, becomes the last token. */
  ghost function Finished(template: string, start: string, end: string, s: Scan): seq<Token>
    requires 0 <= s.offset <= |template|
  {
    if s.offset == |template| then
      s.tokens
    else
      var value := template[s.offset..];
      if s.nesting > 0 then
        s.tokens + [IncompleteArgumentToken(GetTemplateTokenId(Literal, |s.tokens|), value,
                                            Substring(value, |start|, |value|), value, Position(s.offset, |template| - 1))]
      else
        s.tokens + [LiteralToken(GetTemplateTokenId(Literal, |s.tokens|), value, value, Position(s.offset, |template| - 1))]
  }

  /** The tokens `parse` returns for `template`: the scan run to the end, then finished. */
  ghost function ParsedTokens(template: string, start: string, end: string): seq<Token>
  {
    Finished(template, start, end, Run(template, start, end, Scan([], 0, 0), 0))
  }

  /** The scan run to the end and finished is a parse of the template. */
  lemma ParsedTokensOutcome(template: string, start: string, end: string)
    ensures ParseOutcome(template, start, end, ParsedTokens(template, start, end))
  {
    var s := Run(template, start, end, Scan([], 0, 0), 0);
    ScanStart(template, start, end);
    RunInvariant(template, start, end, Scan([], 0, 0), 0);
    if s.offset == |template| {
      FinishEmpty(template, start, end, s.tokens, s.nesting);
    } else if s.nesting > 0 {
      FinishIncomplete(template, start, end, s.tokens, s.offset, s.nesting);
    } else {
      FinishLiteral(template, start, end, s.tokens, s.offset, s.nesting);
    }
  }

  /**
   * What `parse` promises: the tokens tile the template, each has the shape
   * its kind prescribes, no two literals are adjacent and only the last
   * token can be an incomplete argument; serialising them gives the
   * template back, closed by the end delimiter when the last argument was
   * left open; a start delimiter that is not one character long never
   * matches, so a non-empty template is then one literal; the ids are
   * pairwise distinct; and no other sequence is a parse of the template.
   */
  lemma ParsedTokensProperties(template: string, start: string, end: string, tokens: seq<Token>)
    requires tokens == ParsedTokens(template, start, end)
    ensures template == [] ==> tokens == []
    ensures Tiled(tokens, |template|)
    ensures forall k :: 0 <= k < |tokens| ==> ParsedToken(template, start, end, tokens[k], k)
    ensures forall k :: 0 <= k < |tokens| - 1 ==> !tokens[k].IncompleteArgumentToken?
    ensures NoAdjacentLiterals(tokens)
    ensures Consistent(tokens, |template|, start, end)
    ensures Text(tokens) == template
    ensures TokensToString(tokens, start, end)
         == if |tokens| > 0 && tokens[|tokens| - 1].IncompleteArgumentToken? then template + end else template
    ensures |start| != 1 && template != [] ==>
              tokens == [LiteralToken(GetTemplateTokenId(Literal, 0), template, template, Position(0, |template| - 1))]
    ensures forall k, l :: 0 <= k < l < |tokens| ==> tokens[k].id != tokens[l].id
    ensures forall other :: ParseOutcome(template, start, end, other) ==> other == tokens
  {
    ParsedTokensOutcome(template, start, end);
    ParseOutcomeProperties(template, start, end, tokens);
    ParsedIdsDistinct(template, start, end, tokens);
    forall other | ParseOutcome(template, start, end, other)
      ensures other == tokens
    {
      ParseOutcomeUnique(template, start, end, other, tokens);
    }
  }

  /**
   * The template `one:` with delimiters `:` and ` ` parses to the literal
   * `one` and an incomplete argument holding only the start delimiter. The
   * incomplete argument's id is built from the `Literal` kind at index 1,
   * which is not the id built from the `IncompleteArgument` kind.
   */
  lemma ParseOneOpen()
    ensures ParsedTokens("one:", ":", " ")
         == [LiteralToken(GetTemplateTokenId(Literal, 0), "one", "one", Position(0, 2)),
             IncompleteArgumentToken(GetTemplateTokenId(Literal, 1), ":", "", ":", Position(3, 3))]
    ensures ParsedTokens("one:", ":", " ")[1].id != GetTemplateTokenId(IncompleteArgument, 1)
  {
    var template, start, end := "one:", ":", " ";
    var literal := LiteralToken(GetTemplateTokenId(Literal, 0), "one", "one", Position(0, 2));
    var open := IncompleteArgumentToken(GetTemplateTokenId(Literal, 1), ":", "", ":", Position(3, 3));
    OneOpenOutcome(literal, open);
    ParsedTokensOutcome(template, start, end);
    ParseOutcomeUnique(template, start, end, [literal, open], ParsedTokens(template, start, end));
  }

  /** The two tokens `ParseOneOpen` names are a parse of `one:`. */
  lemma OneOpenOutcome(literal: Token, open: Token)
    requires literal == LiteralToken(GetTemplateTokenId(Literal, 0), "one", "one", Position(0, 2))
    requires open == IncompleteArgumentToken(GetTemplateTokenId(Literal, 1), ":", "", ":", Position(3, 3))
    ensures ParseOutcome("one:", ":", " ", [literal, open])
  {
    var template, start, end := "one:", ":", " ";
    assert template[0..3] == "one" && template[3..4] == ":";
    LiteralSpanChars(template, start, 0, 3);
    assert ParsedToken(template, start, end, literal, 0);
    assert ParsedToken(template, start, end, open, 1);
  }

  class TemplateParser {
    /** The argument start delimiter. */
    const start: string
    /** The argument end delimiter. */
    const end: string

    constructor (start: string, end: string)
      ensures this.start == start && this.end == end
    {
      this.start := start;
      this.end := end;
    }

    /**
     * `parse`: the template cut into tokens that tile it, each of the shape
     * its kind prescribes; no two literals are adjacent and only the last
     * token can be an incomplete argument. Serialising the tokens gives the
     * template back, with the end delimiter added when the last argument
     * was left open. Being `ParsedTokens`, the result also has pairwise
     * distinct ids and is the only parse of the template
     * (`ParsedTokensProperties`).
     */
    method Parse(template: string) returns (tokens: seq<Token>)
      ensures tokens == ParsedTokens(template, start, end)
      ensures template == [] ==> tokens == []
      ensures Tiled(tokens, |template|)
      ensures forall k :: 0 <= k < |tokens| ==> ParsedToken(template, start, end, tokens[k], k)
      ensures forall k :: 0 <= k < |tokens| - 1 ==> !tokens[k].IncompleteArgumentToken?
      ensures NoAdjacentLiterals(tokens)
      ensures Consistent(tokens, |template|, start, end)
      ensures Text(tokens) == template
      ensures TokensToString(tokens, start, end)
           == if |tokens| > 0 && tokens[|tokens| - 1].IncompleteArgumentToken? then template + end else template
      ensures |start| != 1 && template != [] ==>
                tokens == [LiteralToken(GetTemplateTokenId(Literal, 0), template, template, Position(0, |template| - 1))]
    {
      tokens := [];
      // An empty template has no tokens.
      if template != [] {
        var index := 0;
        var offset := 0;
        var nesting := 0;
        ghost var final := Run(template, start, end, Scan([], 0, 0), 0);
        while index < |template|
          invariant 0 <= offset <= index <= |template|
          invariant Run(template, start, end, Scan(tokens, offset, nesting), index) == final
        {
          ghost var next := ScanNext(template, start, end, Scan(tokens, offset, nesting), index);
          RunNext(template, start, end, Scan(tokens, offset, nesting), index);
          var character := template[index];
          if [character] == start {
            var isOutsideNesting := nesting <= 0;
            if index != offset && isOutsideNesting {
              nesting := 0;
              var tokenValue := Substring(template, offset, index);
              tokens := tokens + [LiteralToken(GetTemplateTokenId(Literal, |tokens|), tokenValue, tokenValue, Position(offset, index - 1))];
              offset := index;
            }
            nesting := nesting + 1;
          } else if [character] == end {
            var isGoingOutsideNesting := nesting == 1;
            if isGoingOutsideNesting {
              var rawValue := Substring(template, offset, index + 1);
              var value := Substring(rawValue, |start|, |rawValue| - |end|);
              tokens := tokens + [ArgumentToken(GetTemplateTokenId(Argument, |tokens|), rawValue, value, rawValue, Position(offset, index))];
              offset := index + 1;
            }
            nesting := nesting - 1;
          }
          assert next == Scan(tokens, offset, nesting);
          index := index + 1;
        }
        if index != offset {
          var value := Substring(template, offset, index);
          assert value == template[offset..];
          var token: Token := if nesting > 0 then
              IncompleteArgumentToken(GetTemplateTokenId(Literal, |tokens|), value, Substring(value, |start|, |value|), value,
                                      Position(offset, index - 1))
            else
              LiteralToken(GetTemplateTokenId(Literal, |tokens|), value, value, Position(offset, index - 1));
          tokens := tokens + [token];
        }
      }
      assert tokens == ParsedTokens(template, start, end);
      ParsedTokensProperties(template, start, end, tokens);
    }
  }
}
