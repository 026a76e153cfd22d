/**
 * The host compiler's token scanner, seen from outside: the text is lexed
 * into a fixed sequence of tokens (kind and start offset) ending in a single
 * end-of-file token, and the scanner is a cursor over that sequence.
 * Lexing itself belongs to the host and is a parameter of the model; the
 * model relies only on `WellLexed`.
 */
module Scanning {

  /** The token kinds the rewrite engine distinguishes; every other kind is `Other`. */
  datatype Kind = Unknown | OpenBrace | CloseBrace | ReturnKeyword | Semicolon | EndOfFile | Other

  datatype Token = Token(kind: Kind, pos: nat)

  /**
   * The token's lexeme really stands in `text` at the token's offset. For
   * `return` this excludes keywords written with Unicode escapes, which the
   * host scanner still reports as the keyword.
   */
  predicate LexemeAt(text: string, t: Token) {
    match t.kind
    case OpenBrace => t.pos < |text| && text[t.pos] == '{'
    case CloseBrace => t.pos < |text| && text[t.pos] == '}'
    case Semicolon => t.pos < |text| && text[t.pos] == ';'
    case ReturnKeyword => t.pos + 6 <= |text| && text[t.pos..t.pos + 6] == "return"
    case EndOfFile => t.pos == |text|
    case _ => true
  }

  /** A token sequence whose last token, and only that one, is the end of file. */
  predicate Terminated(toks: seq<Token>) {
    && |toks| > 0
    && toks[|toks| - 1].kind == EndOfFile
    && forall i: nat :: i < |toks| - 1 ==> Inner(toks, i)
  }

  /** Token `i` is not the end of file. */
  predicate Inner(toks: seq<Token>, i: nat)
    requires i < |toks|
  {
    toks[i].kind != EndOfFile
  }

  /** Token `i` is a known kind whose lexeme stands in `text` at its offset. */
  predicate Lexed(text: string, toks: seq<Token>, i: nat)
    requires i < |toks|
  {
    toks[i].kind != Unknown && LexemeAt(text, toks[i])
  }

  /** Token `i` starts before token `j`. */
  predicate Precedes(toks: seq<Token>, i: nat, j: nat)
    requires i < |toks| && j < |toks|
  {
    toks[i].pos < toks[j].pos
  }

  /**
   * What the model demands of the host lexer's output for `text`: it is
   * terminated, every token is lexed from the text, and offsets strictly
   * increase.
   */
  predicate WellLexed(text: string, toks: seq<Token>) {
    && Terminated(toks)
    && (forall i: nat :: i < |toks| ==> Lexed(text, toks, i))
    && (forall i: nat, j: nat :: i < j < |toks| ==> Precedes(toks, i, j))
  }

  /** The host lexer, as a function from text to tokens, is sound on every text. */
  ghost predicate LexerSound(lex: string -> seq<Token>) {
    forall text {:trigger WellLexed(text, lex(text))} :: WellLexed(text, lex(text))
  }

  /** The index `scan()` moves to from `c`: one further, except at the end of file. */
  function Next(toks: seq<Token>, c: int): int {
    if c < |toks| - 1 then c + 1 else c
  }

  /** Offset of the token at cursor `c`; before the first scan it is 0. */
  function PosAt(toks: seq<Token>, c: int): nat
    requires c < |toks|
  {
    if c < 0 then 0 else toks[c].pos
  }

  /**
   * The scanner: a cursor over the tokens of `text`. `cursor` is the index of
   * the current token, -1 before the first `scan()`.
   */
  class Scanner {
    var text: string
    var tokens: seq<Token>
    var cursor: int

    ghost predicate Valid()
      reads this
    {
      Terminated(tokens) && -1 <= cursor < |tokens|
    }

    /** `createScanner` followed by `setText(text)`. */
    constructor (text: string, tokens: seq<Token>)
      requires WellLexed(text, tokens)
      ensures Valid() && this.text == text && this.tokens == tokens && cursor == -1
    {
      this.text := text;
      this.tokens := tokens;
      cursor := -1;
    }

    /** `setText`: re-target the scanner to a new text and rewind it. */
    method SetText(text: string, tokens: seq<Token>)
      requires WellLexed(text, tokens)
      modifies this
      ensures Valid() && this.text == text && this.tokens == tokens && cursor == -1
    {
      this.text := text;
      this.tokens := tokens;
      cursor := -1;
    }

    /** `getToken()`: `Unknown` before the first scan. */
    function TokenKind(): Kind
      reads this
      requires Valid()
    {
      if cursor < 0 then Unknown else tokens[cursor].kind
    }

    /** `getTokenPos()` */
    function TokenPos(): nat
      reads this
      requires Valid()
    {
      PosAt(tokens, cursor)
    }

    /** `scan()`: move to the next token (staying on the end of file) and return its kind. */
    method Scan() returns (k: Kind)
      requires Valid()
      modifies this`cursor
      ensures Valid() && cursor == Next(tokens, old(cursor))
      ensures k == tokens[cursor].kind && k == TokenKind()
    {
      if cursor < |tokens| - 1 {
        cursor := cursor + 1;
      }
      k := tokens[cursor].kind;
    }

    /** The restoring half of `lookAhead`: put the cursor back where it was saved. */
    method Rewind(saved: int)
      requires Valid() && -1 <= saved < |tokens|
      modifies this`cursor
      ensures Valid() && cursor == saved
    {
      cursor := saved;
    }
  }
}
