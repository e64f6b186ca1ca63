/**
 * Operations on token sequences: serialisation, token ids, the token under
 * a caret, replacing a token's value and appending a token.
 */
module Utils {
  import opened Wrappers
  import opened Types

  // ---------------------------------------------------------------------
  // Serialisation

  /** The text a token contributes when a sequence is turned back into a string. */
  function Serialized(token: Token, start: string, end: string): string
  {
    if token.LiteralToken? then token.value else start + token.value + end
  }

  /** `tokensToString`: every token serialised, in order, joined with nothing between. */
  function TokensToString(tokens: seq<Token>, start: string, end: string): string
  {
    if tokens == [] then "" else Serialized(tokens[0], start, end) + TokensToString(tokens[1..], start, end)
  }

  /** Serialisation distributes over concatenation of token sequences. */
  lemma {:induction false} TokensToStringConcat(a: seq<Token>, b: seq<Token>, start: string, end: string)
    ensures TokensToString(a + b, start, end) == TokensToString(a, start, end) + TokensToString(b, start, end)
  {
    if a == [] {
      assert a + b == b;
    } else {
      assert (a + b)[1..] == a[1..] + b;
      TokensToStringConcat(a[1..], b, start, end);
    }
  }

  /** Serialising one more token appends that token's text. */
  lemma TokensToStringSnoc(tokens: seq<Token>, token: Token, start: string, end: string)
    ensures TokensToString(tokens + [token], start, end) == TokensToString(tokens, start, end) + Serialized(token, start, end)
  {
    TokensToStringConcat(tokens, [token], start, end);
    assert [token][1..] == [];
  }

  /** The concatenation of the tokens' labels, the text they were scanned from. */
  function Text(tokens: seq<Token>): string
  {
    if tokens == [] then "" else tokens[0].labelText + Text(tokens[1..])
  }

  lemma {:induction false} TextConcat(a: seq<Token>, b: seq<Token>)
    ensures Text(a + b) == Text(a) + Text(b)
  {
    if a == [] {
      assert a + b == b;
    } else {
      assert (a + b)[1..] == a[1..] + b;
      TextConcat(a[1..], b);
    }
  }

  lemma TextSnoc(tokens: seq<Token>, token: Token)
    ensures Text(tokens + [token]) == Text(tokens) + token.labelText
  {
    TextConcat(tokens, [token]);
    assert [token][1..] == [];
  }

  // ---------------------------------------------------------------------
  // Token ids

  /** `getTemplateTokenId`, abstracted to the pair it formats. */
  function GetTemplateTokenId(tokenType: TokenType, index: int): TokenId
  {
    TokenId(tokenType, index)
  }

  /** Two ids are equal exactly when their kinds and indices are. */
  lemma TokenIdsDistinct(t1: TokenType, i1: int, t2: TokenType, i2: int)
    ensures GetTemplateTokenId(t1, i1) == GetTemplateTokenId(t2, i2) <==> t1 == t2 && i1 == i2
  {
  }

  // ---------------------------------------------------------------------
  // Invariants of token sequences

  /** Where a token appended to `tokens` starts: just after the last token, or at 0. */
  function NextStart(tokens: seq<Token>): int
  {
    if tokens == [] then 0 else tokens[|tokens| - 1].position.end + 1
  }

  /**
   * The tokens cover the offsets `0 .. n - 1` without gaps: the first starts
   * at 0, each starts right after the previous one ends, and the last ends
   * at `n - 1` (an empty sequence covers `n == 0`).
   */
  predicate Tiled(tokens: seq<Token>, n: int)
  {
    && (|tokens| > 0 ==> tokens[0].position.start == 0)
    && (forall k :: 0 < k < |tokens| ==> tokens[k].position.start == tokens[k - 1].position.end + 1)
    && NextStart(tokens) == n
  }

  /** No token has a negative length (an empty one has `end == start - 1`). */
  predicate NoNegativeSpans(tokens: seq<Token>)
  {
    forall k :: 0 <= k < |tokens| ==> tokens[k].position.start <= tokens[k].position.end + 1
  }

  /**
   * A token's span is as long as its labelText, and its labelText, value and raw
   * value agree with the delimiters `start` and `end`.
   */
  predicate WellShaped(token: Token, start: string, end: string)
  {
    && token.position.end - token.position.start + 1 == |token.labelText|
    && match token
       case LiteralToken(_, labelText, value, _) => labelText == value
       case ArgumentToken(_, labelText, value, rawValue, _) => labelText == rawValue && rawValue == start + value + end
       case IncompleteArgumentToken(_, labelText, value, rawValue, _) => labelText == rawValue && rawValue == start + value
  }

  /** A tiled sequence of well-shaped tokens covering `n` characters. */
  predicate Consistent(tokens: seq<Token>, n: int, start: string, end: string)
  {
    Tiled(tokens, n) && forall k :: 0 <= k < |tokens| ==> WellShaped(tokens[k], start, end)
  }

  /** Dropping the last token of a tiled sequence leaves one tiled up to its start. */
  lemma TiledPrefix(tokens: seq<Token>, n: int)
    requires Tiled(tokens, n) && |tokens| > 0
    ensures Tiled(tokens[..|tokens| - 1], tokens[|tokens| - 1].position.start)
  {
  }

  /**
   * In a tiled sequence without negative spans, every token lies inside
   * `0 .. n - 1` and each ends before any later one starts, so no two tokens
   * share an offset.
   */
  lemma {:induction false} TiledOrdered(tokens: seq<Token>, n: int)
    requires Tiled(tokens, n) && NoNegativeSpans(tokens)
    ensures forall k :: 0 <= k < |tokens| ==> 0 <= tokens[k].position.start && tokens[k].position.end + 1 <= n
    ensures forall k, l :: 0 <= k < l < |tokens| ==> tokens[k].position.end < tokens[l].position.start
  {
    if |tokens| > 0 {
      var m := |tokens| - 1;
      var prefix := tokens[..m];
      TiledPrefix(tokens, n);
      TiledOrdered(prefix, tokens[m].position.start);
      assert forall k :: 0 <= k < m ==> tokens[k] == prefix[k];
    }
  }

  /** The text of a consistent sequence is as long as the span it covers. */
  lemma {:induction false} ConsistentTextLength(tokens: seq<Token>, n: int, start: string, end: string)
    requires Consistent(tokens, n, start, end)
    ensures |Text(tokens)| == n
  {
    if |tokens| > 0 {
      var m := |tokens| - 1;
      TiledPrefix(tokens, n);
      assert tokens[..m] + [tokens[m]] == tokens;
      TextSnoc(tokens[..m], tokens[m]);
      ConsistentTextLength(tokens[..m], tokens[m].position.start, start, end);
    }
  }

  /**
   * Without incomplete arguments, serialising well-shaped tokens gives back
   * exactly the text of their labels.
   */
  lemma {:induction false} CompleteTokensToString(tokens: seq<Token>, start: string, end: string)
    requires forall k :: 0 <= k < |tokens| ==> WellShaped(tokens[k], start, end) && !tokens[k].IncompleteArgumentToken?
    ensures TokensToString(tokens, start, end) == Text(tokens)
  {
    if tokens != [] {
      CompleteTokensToString(tokens[1..], start, end);
    }
  }

  /**
   * Serialising well-shaped tokens of which only the last may be an
   * incomplete argument gives their text, followed by the end delimiter
   * that completes that last argument when there is one.
   */
  lemma {:induction false} LastOpenTokensToString(tokens: seq<Token>, start: string, end: string)
    requires forall k :: 0 <= k < |tokens| ==> WellShaped(tokens[k], start, end)
    requires forall k :: 0 <= k < |tokens| - 1 ==> !tokens[k].IncompleteArgumentToken?
    ensures TokensToString(tokens, start, end)
         == if |tokens| > 0 && tokens[|tokens| - 1].IncompleteArgumentToken? then Text(tokens) + end else Text(tokens)
  {
    if |tokens| > 0 {
      var first, rest := tokens[0], tokens[1..];
      SerializedLabel(first, start, end);
      LastOpenTokensToString(rest, start, end);
      if |rest| > 0 && rest[|rest| - 1].IncompleteArgumentToken? {
        assert first.labelText + (Text(rest) + end) == first.labelText + Text(rest) + end;
      }
    }
  }

  /** A well-shaped token serialises to its labelText, closed by `end` when it is an incomplete argument. */
  lemma SerializedLabel(token: Token, start: string, end: string)
    requires WellShaped(token, start, end)
    ensures Serialized(token, start, end) == if token.IncompleteArgumentToken? then token.labelText + end else token.labelText
  {
  }

  // ---------------------------------------------------------------------
  // The token under the caret

  /** The caret at `cursor` is on the token or just after its last character. */
  predicate Covers(token: Token, cursor: int)
  {
    token.position.start <= cursor <= token.position.end + 1
  }

  /** Token `i` is the first one that covers `cursor`. */
  predicate IsCurrentToken(tokens: seq<Token>, cursor: int, i: int)
  {
    && 0 <= i < |tokens|
    && Covers(tokens[i], cursor)
    && forall j :: 0 <= j < i ==> !Covers(tokens[j], cursor)
  }

  /**
   * `computeCurrentToken`: nothing while a range is selected; otherwise the
   * first token covering the caret together with its index, or nothing when
   * no token covers it.
   */
  method ComputeCurrentToken(tokens: seq<Token>, cursorStart: int, cursorEnd: int) returns (current: Option<(Token, nat)>)
    ensures cursorStart != cursorEnd ==> current == None
    ensures current.Some? ==> current.value.1 < |tokens| && current.value.0 == tokens[current.value.1]
    ensures current.Some? ==> IsCurrentToken(tokens, cursorStart, current.value.1)
    ensures current.None? && cursorStart == cursorEnd ==> forall i :: 0 <= i < |tokens| ==> !Covers(tokens[i], cursorStart)
  {
    if cursorStart != cursorEnd {
      return None;
    }
    var tokenIndex := 0;
    while tokenIndex < |tokens|
      invariant 0 <= tokenIndex <= |tokens|
      invariant forall j :: 0 <= j < tokenIndex ==> !Covers(tokens[j], cursorStart)
    {
      var token := tokens[tokenIndex];
      if token.position.start <= cursorStart && token.position.end + 1 >= cursorStart {
        return Some((token, tokenIndex));
      }
      tokenIndex := tokenIndex + 1;
    }
    return None;
  }

  /**
   * On a non-empty tiled sequence some token covers the caret exactly when
   * the caret lies in `0 .. n`.
   */
  lemma {:induction false} CaretCoveredIffInRange(tokens: seq<Token>, n: int, cursor: int)
    requires Tiled(tokens, n) && NoNegativeSpans(tokens) && |tokens| > 0
    ensures (exists i :: 0 <= i < |tokens| && Covers(tokens[i], cursor)) <==> 0 <= cursor <= n
  {
    TiledOrdered(tokens, n);
    if 0 <= cursor <= n {
      var m := |tokens| - 1;
      if cursor >= tokens[m].position.start {
        assert Covers(tokens[m], cursor);
      } else {
        var prefix := tokens[..m];
        TiledPrefix(tokens, n);
        assert forall k :: 0 <= k < m ==> tokens[k] == prefix[k];
        CaretCoveredIffInRange(prefix, tokens[m].position.start, cursor);
        var i :| 0 <= i < m && Covers(prefix[i], cursor);
        assert Covers(tokens[i], cursor);
      }
    }
  }

  /**
   * On a tiled sequence of non-empty tokens the current token is the one
   * holding the character just before the caret (the first token when the
   * caret is at 0).
   */
  lemma CurrentTokenPrecedesCaret(tokens: seq<Token>, n: int, cursor: int, i: int)
    requires Tiled(tokens, n)
    requires forall k :: 0 <= k < |tokens| ==> tokens[k].position.start <= tokens[k].position.end
    requires IsCurrentToken(tokens, cursor, i)
    ensures cursor == 0 ==> i == 0
    ensures cursor > 0 ==> tokens[i].position.start <= cursor - 1 <= tokens[i].position.end
  {
    TiledOrdered(tokens, n);
    if i > 0 {
      assert !Covers(tokens[i - 1], cursor);
    }
  }

  // ---------------------------------------------------------------------
  // Replacing a token's value

  /** What `updateToken` returns: the new token and how far later tokens move. */
  datatype UpdateInfo = UpdateInfo(updatedToken: Token, positionDiff: int)

  /**
   * `updateToken`: the token with its value replaced. Literals and arguments
   * keep their kind and id; an incomplete argument becomes an argument with
   * a fresh id and gains its closing delimiter. The token keeps its start and
   * its end moves by `positionDiff`.
   */
  function UpdateToken(token: Token, tokenIndex: int, value: string, start: string, end: string): (info: UpdateInfo)
    ensures info.updatedToken.value == value
    ensures info.updatedToken.Kind() == if token.LiteralToken? then Literal else Argument
    ensures info.updatedToken.id == if token.IncompleteArgumentToken? then GetTemplateTokenId(Argument, tokenIndex) else token.id
    ensures info.updatedToken.position.start == token.position.start
    ensures info.updatedToken.position.end == token.position.end + info.positionDiff
    ensures info.positionDiff == |value| - |token.value| + if token.IncompleteArgumentToken? then |end| else 0
    ensures info.updatedToken.labelText == if token.LiteralToken? then value else start + value + end
    ensures info.updatedToken.ArgumentToken? ==> info.updatedToken.rawValue == start + value + end
    ensures Serialized(info.updatedToken, start, end) == if token.LiteralToken? then value else start + value + end
    ensures WellShaped(token, start, end) ==> WellShaped(info.updatedToken, start, end)
  {
    match token
    case LiteralToken(id, _, oldValue, position) =>
      var positionDiff := |value| - |oldValue|;
      UpdateInfo(LiteralToken(id, value, value, Position(position.start, position.end + positionDiff)), positionDiff)
    case ArgumentToken(id, _, oldValue, _, position) =>
      var rawValue := start + value + end;
      var positionDiff := |value| - |oldValue|;
      UpdateInfo(ArgumentToken(id, rawValue, value, rawValue, Position(position.start, position.end + positionDiff)), positionDiff)
    case IncompleteArgumentToken(_, _, oldValue, _, position) =>
      var rawValue := start + value + end;
      var positionDiff := |value| - |oldValue| + |end|;
      UpdateInfo(
        ArgumentToken(GetTemplateTokenId(Argument, tokenIndex), rawValue, value, rawValue,
                      Position(position.start, position.end + positionDiff)),
        positionDiff)
  }

  /** A token moved by `diff`, everything else about it unchanged. */
  function Shift(token: Token, diff: int): Token
  {
    token.(position := Position(token.position.start + diff, token.position.end + diff))
  }

  function Shifted(tokens: seq<Token>, diff: int): (r: seq<Token>)
    ensures |r| == |tokens|
  {
    seq(|tokens|, k requires 0 <= k < |tokens| => Shift(tokens[k], diff))
  }

  /**
   * The sequence `updateTokens` returns: the tokens before the index as they
   * were, the updated token, and every later token moved by the diff.
   */
  function UpdatedTokens(tokens: seq<Token>, tokenIndex: nat, value: string, start: string, end: string): seq<Token>
    requires tokenIndex < |tokens|
  {
    var info := UpdateToken(tokens[tokenIndex], tokenIndex, value, start, end);
    tokens[..tokenIndex] + [info.updatedToken] + Shifted(tokens[tokenIndex + 1..], info.positionDiff)
  }

  /** `cloneTokens`: a new array holding the same token values. */
  method CloneTokens(tokens: seq<Token>) returns (clone: array<Token>)
    ensures fresh(clone) && clone[..] == tokens
  {
    clone := new Token[|tokens|](k requires 0 <= k < |tokens| => tokens[k]);
  }

  /**
   * `updateTokens`: nothing when the index names no token; otherwise a new
   * sequence in which the token at the index has the new value and every
   * later token is moved by the update's `positionDiff`. The argument
   * sequence is a value and is left as it was.
   */
  method UpdateTokens(tokens: seq<Token>, tokenIndex: nat, value: string, start: string, end: string)
    returns (updated: Option<seq<Token>>)
    ensures tokenIndex >= |tokens| ==> updated == None
    ensures tokenIndex < |tokens| ==> updated == Some(UpdatedTokens(tokens, tokenIndex, value, start, end))
    ensures updated.Some? ==>
      var info := UpdateToken(tokens[tokenIndex], tokenIndex, value, start, end);
      && |updated.value| == |tokens|
      && (forall k :: 0 <= k < tokenIndex ==> updated.value[k] == tokens[k])
      && updated.value[tokenIndex] == info.updatedToken
      && (forall k :: tokenIndex < k < |tokens| ==> updated.value[k] == Shift(tokens[k], info.positionDiff))
  {
    if tokenIndex >= |tokens| {
      updated := None;
    } else {
      var info := UpdateToken(tokens[tokenIndex], tokenIndex, value, start, end);
      var updatedTokens := CloneTokens(tokens);
      updatedTokens[tokenIndex] := info.updatedToken;
      var index := tokenIndex + 1;
      while index < |tokens|
        invariant tokenIndex + 1 <= index <= |tokens| == updatedTokens.Length
        invariant forall k :: 0 <= k < tokenIndex ==> updatedTokens[k] == tokens[k]
        invariant updatedTokens[tokenIndex] == info.updatedToken
        invariant forall k :: tokenIndex < k < index ==> updatedTokens[k] == Shift(tokens[k], info.positionDiff)
        invariant forall k :: index <= k < |tokens| ==> updatedTokens[k] == tokens[k]
      {
        updatedTokens[index] := Shift(updatedTokens[index], info.positionDiff);
        index := index + 1;
      }
      UpdatedTokensAt(tokens, tokenIndex, value, start, end);
      assert updatedTokens[..] == UpdatedTokens(tokens, tokenIndex, value, start, end);
      updated := Some(updatedTokens[..]);
    }
  }

  /** Moving tokens changes nothing in their serialisation. */
  lemma {:induction false} TokensToStringShifted(tokens: seq<Token>, diff: int, start: string, end: string)
    ensures TokensToString(Shifted(tokens, diff), start, end) == TokensToString(tokens, start, end)
  {
    if tokens != [] {
      assert Shifted(tokens, diff)[1..] == Shifted(tokens[1..], diff);
      TokensToStringShifted(tokens[1..], diff, start, end);
    }
  }

  /**
   * Updating a token changes the serialisation only in that token's text:
   * what came before and after is serialised as before.
   */
  lemma UpdatedTokensToString(tokens: seq<Token>, tokenIndex: nat, value: string, start: string, end: string)
    requires tokenIndex < |tokens|
    ensures TokensToString(UpdatedTokens(tokens, tokenIndex, value, start, end), start, end)
         == TokensToString(tokens[..tokenIndex], start, end)
          + (if tokens[tokenIndex].LiteralToken? then value else start + value + end)
          + TokensToString(tokens[tokenIndex + 1..], start, end)
  {
    var info := UpdateToken(tokens[tokenIndex], tokenIndex, value, start, end);
    var before, after := tokens[..tokenIndex], Shifted(tokens[tokenIndex + 1..], info.positionDiff);
    TokensToStringConcat(before + [info.updatedToken], after, start, end);
    TokensToStringSnoc(before, info.updatedToken, start, end);
    TokensToStringShifted(tokens[tokenIndex + 1..], info.positionDiff, start, end);
  }

  /** Moving a token keeps it well shaped. */
  lemma ShiftWellShaped(token: Token, diff: int, start: string, end: string)
    requires WellShaped(token, start, end)
    ensures WellShaped(Shift(token, diff), start, end)
  {
  }

  /** Where each token of the updated sequence comes from. */
  lemma UpdatedTokensAt(tokens: seq<Token>, tokenIndex: nat, value: string, start: string, end: string)
    requires tokenIndex < |tokens|
    ensures var info := UpdateToken(tokens[tokenIndex], tokenIndex, value, start, end);
      var u := UpdatedTokens(tokens, tokenIndex, value, start, end);
      && |u| == |tokens|
      && (forall k :: 0 <= k < tokenIndex ==> u[k] == tokens[k])
      && u[tokenIndex] == info.updatedToken
      && (forall k :: tokenIndex < k < |u| ==> u[k] == Shift(tokens[k], info.positionDiff))
  {
  }

  /**
   * Updating a token of a consistent sequence (with the delimiters it was
   * built with) gives a consistent sequence whose covered length changed by
   * exactly `positionDiff`.
   */
  lemma UpdatedTokensConsistent(tokens: seq<Token>, n: int, tokenIndex: nat, value: string, start: string, end: string)
    requires Consistent(tokens, n, start, end) && tokenIndex < |tokens|
    ensures Consistent(UpdatedTokens(tokens, tokenIndex, value, start, end), n + UpdateToken(tokens[tokenIndex], tokenIndex, value, start, end).positionDiff, start, end)
  {
    var info := UpdateToken(tokens[tokenIndex], tokenIndex, value, start, end);
    var u := UpdatedTokens(tokens, tokenIndex, value, start, end);
    UpdatedTokensAt(tokens, tokenIndex, value, start, end);
    ShiftedConsistent(tokens, u, n, tokenIndex, info.updatedToken, info.positionDiff, start, end);
  }

  /**
   * The heart of the update: replacing one token by a well-shaped token that
   * keeps its start and moves its end by `diff`, and moving every later token
   * by `diff`, keeps the sequence consistent over `n + diff` characters.
   */
  lemma ShiftedConsistent(tokens: seq<Token>, u: seq<Token>, n: int, i: nat, updated: Token, diff: int, start: string, end: string)
    requires Consistent(tokens, n, start, end) && i < |tokens| == |u|
    requires forall k :: 0 <= k < i ==> u[k] == tokens[k]
    requires u[i] == updated && WellShaped(updated, start, end)
    requires updated.position.start == tokens[i].position.start
    requires updated.position.end == tokens[i].position.end + diff
    requires forall k :: i < k < |u| ==> u[k] == Shift(tokens[k], diff)
    ensures Consistent(u, n + diff, start, end)
  {
    ShiftedTiled(tokens, u, n, i, diff);
    forall k | 0 <= k < |u|
      ensures WellShaped(u[k], start, end)
    {
      if k < i {
        assert WellShaped(tokens[k], start, end);
      } else if k > i {
        assert WellShaped(tokens[k], start, end);
        ShiftWellShaped(tokens[k], diff, start, end);
      }
    }
  }

  /** The tiling half of `ShiftedConsistent`. */
  lemma ShiftedTiled(tokens: seq<Token>, u: seq<Token>, n: int, i: nat, diff: int)
    requires Tiled(tokens, n) && i < |tokens| == |u|
    requires forall k :: 0 <= k < i ==> u[k] == tokens[k]
    requires u[i].position.start == tokens[i].position.start
    requires u[i].position.end == tokens[i].position.end + diff
    requires forall k :: i < k < |u| ==> u[k].position == Shift(tokens[k], diff).position
    ensures Tiled(u, n + diff)
  {
    forall k | 0 < k < |u|
      ensures u[k].position.start == u[k - 1].position.end + 1
    {
      assert tokens[k].position.start == tokens[k - 1].position.end + 1;
    }
    assert NextStart(u) == n + diff by {
      var m := |u| - 1;
      assert NextStart(tokens) == tokens[m].position.end + 1;
    }
  }

  // ---------------------------------------------------------------------
  // Appending a token

  /**
   * `createToken`: a token of the given kind placed right after the last
   * token of `tokens`, with the id of the next index; a literal's labelText is
   * the value, an argument's is `start + value + end` and an incomplete
   * argument's is `start + value`.
   */
  function CreateToken(value: string, tokenType: TokenType, start: string, end: string, tokens: seq<Token>): (token: Token)
    ensures token.Kind() == tokenType && token.value == value
    ensures token.id == GetTemplateTokenId(tokenType, |tokens|)
    ensures token.position.start == NextStart(tokens)
    ensures WellShaped(token, start, end)
  {
    var index := |tokens|;
    var startPosition := NextStart(tokens);
    match tokenType
    case Literal =>
      LiteralToken(GetTemplateTokenId(tokenType, index), value, value,
                   Position(startPosition, startPosition + |value| - 1))
    case Argument =>
      var rawValue := start + value + end;
      ArgumentToken(GetTemplateTokenId(tokenType, index), rawValue, value, rawValue,
                    Position(startPosition, startPosition + |rawValue| - 1))
    case IncompleteArgument =>
      var rawValue := start + value;
      IncompleteArgumentToken(GetTemplateTokenId(tokenType, index), rawValue, value, rawValue,
                              Position(startPosition, startPosition + |rawValue| - 1))
  }

  /** `appendToTokens`: a copy of the tokens with one created token pushed at the end. */
  method AppendToTokens(tokens: seq<Token>, value: string, tokenType: TokenType, start: string, end: string)
    returns (updatedTokens: seq<Token>)
    ensures |updatedTokens| == |tokens| + 1 && updatedTokens[..|tokens|] == tokens
    ensures updatedTokens[|tokens|] == CreateToken(value, tokenType, start, end, tokens)
  {
    var clone := CloneTokens(tokens);
    updatedTokens := clone[..] + [CreateToken(value, tokenType, start, end, tokens)];
  }

  /**
   * Appending to a consistent sequence keeps it consistent, and the covered
   * length grows by the new token's labelText.
   */
  lemma AppendedConsistent(tokens: seq<Token>, n: int, value: string, tokenType: TokenType, start: string, end: string)
    requires Consistent(tokens, n, start, end)
    ensures var token := CreateToken(value, tokenType, start, end, tokens);
      Consistent(tokens + [token], n + |token.labelText|, start, end)
  {
  }

  /** Appending a token appends its text to the serialisation. */
  lemma AppendedTokensToString(tokens: seq<Token>, value: string, tokenType: TokenType, start: string, end: string)
    ensures TokensToString(tokens + [CreateToken(value, tokenType, start, end, tokens)], start, end)
         == TokensToString(tokens, start, end) + (if tokenType == Literal then value else start + value + end)
  {
    TokensToStringSnoc(tokens, CreateToken(value, tokenType, start, end, tokens), start, end);
  }
}
