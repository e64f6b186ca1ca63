/**
 * The token model of the template tokenizer: the three token kinds, the
 * inclusive position record and the token itself.
 */
module Types {

  /** The kind of a template token (the `type` discriminant of a token). */
  datatype TokenType = Literal | Argument | IncompleteArgument
  {
    /** The numeric value the enumeration gives each kind. */
    function Code(): (n: nat)
      ensures n <= 2
      ensures n == 0 <==> this == Literal
      ensures n == 1 <==> this == Argument
    {
      match this
      case Literal => 0
      case Argument => 1
      case IncompleteArgument => 2
    }
  }

  /** The kinds are exactly three, and their codes tell them apart. */
  lemma TokenTypeCodes(t: TokenType, u: TokenType)
    ensures t == Literal || t == Argument || t == IncompleteArgument
    ensures Literal.Code() == 0 && Argument.Code() == 1 && IncompleteArgument.Code() == 2
    ensures t.Code() == u.Code() <==> t == u
  {
  }

  /**
   * Offsets into the template: `start` is the index of the token's first
   * character and `end` the index of its last one, so both are inclusive.
   * They are plain integers: after an update or an append with an empty
   * value, `end` is `start - 1`.
   */
  datatype Position = Position(start: int, end: int)

  /**
   * A token id, kept abstract as the pair it is computed from (the kind
   * and the token's index in its sequence).
   */
  datatype TokenId = TokenId(tokenType: TokenType, index: int)

  /**
   * A token. Every kind has an id, a `labelText` (the `label` field, the preview text), a `value`
   * (the content without delimiters) and a position; the two argument kinds
   * also carry the `rawValue` with its delimiters.
   */
  datatype Token =
    | LiteralToken(id: TokenId, labelText: string, value: string, position: Position)
    | ArgumentToken(id: TokenId, labelText: string, value: string, rawValue: string, position: Position)
    | IncompleteArgumentToken(id: TokenId, labelText: string, value: string, rawValue: string, position: Position)
  {
    /** The token's `type` field. */
    function Kind(): TokenType
    {
      match this
      case LiteralToken(_, _, _, _) => Literal
      case ArgumentToken(_, _, _, _, _) => Argument
      case IncompleteArgumentToken(_, _, _, _, _) => IncompleteArgument
    }
  }
}
