/** The token vocabulary of the language: the closed set of token kinds,
    the nested set of keywords with their spelling, and the token value. */
module Token {
  import opened Wrappers

  datatype KeywordKind =
    // Boolean logic-related keywords
    | And | Or | True | False
    | If | Else | For | While
    // Object-related keywords
    | Class | Nil | Super | This | Var
    // Function-related keywords
    | Function | Print | Return

  datatype Kind =
    // Single-character tokens
    | LeftParen | RightParen | LeftBrace | RightBrace
    | Comma | Dot | Semicolon
    | Minus | Plus | Slash | Star
    // Comparison operators
    | EqualEqual | Equal
    | GreaterEqual | Greater
    | LessEqual | Less
    | BangEqual | Bang
    // Literals
    | Number | String | Identifier
    | Keyword(keyword: KeywordKind)
    | Comment
    | Error

  /** A token records only where its lexeme starts and what it is. */
  datatype Token = Token(position: nat, kind: Kind)

  /** `Token::new`: a token with exactly the given position and kind, so
      two tokens made by it are equal only when both fields are. */
  function NewToken(position: nat, kind: Kind): (t: Token)
    ensures t.position == position && t.kind == kind
  {
    Token(position, kind)
  }

  predicate IsLowercase(c: char) {
    'a' <= c <= 'z'
  }

  /** The spelling of each keyword, as `Display for KeywordKind` writes it.
      Every spelling has at least two characters, all lower-case letters. */
  function KeywordString(k: KeywordKind): (s: string)
    ensures |s| >= 2
    ensures forall i | 0 <= i < |s| :: IsLowercase(s[i])
  {
    match k
    case And => "and"
    case Or => "or"
    case True => "true"
    case False => "false"
    case If => "if"
    case Else => "else"
    case For => "for"
    case While => "while"
    case Class => "class"
    case Nil => "nil"
    case Super => "super"
    case This => "this"
    case Var => "var"
    case Function => "function"
    case Print => "print"
    case Return => "return"
  }

  /** The keyword a word spells, if any: the inverse of `KeywordString`. */
  function KeywordOf(s: string): (r: Option<KeywordKind>)
    ensures r.Some? ==> KeywordString(r.value) == s
  {
    if s == "and" then Some(And)
    else if s == "or" then Some(Or)
    else if s == "true" then Some(True)
    else if s == "false" then Some(False)
    else if s == "if" then Some(If)
    else if s == "else" then Some(Else)
    else if s == "for" then Some(For)
    else if s == "while" then Some(While)
    else if s == "class" then Some(Class)
    else if s == "nil" then Some(Nil)
    else if s == "super" then Some(Super)
    else if s == "this" then Some(This)
    else if s == "var" then Some(Var)
    else if s == "function" then Some(Function)
    else if s == "print" then Some(Print)
    else if s == "return" then Some(Return)
    else None
  }

  /** Looking up a keyword's spelling gives back that keyword. */
  lemma KeywordOfKeywordString(k: KeywordKind)
    ensures KeywordOf(KeywordString(k)) == Some(k)
  {
  }

  /** A word is found by `KeywordOf` exactly when it spells that keyword. */
  lemma KeywordOfIff(s: string, k: KeywordKind)
    ensures KeywordOf(s) == Some(k) <==> KeywordString(k) == s
  {
    if KeywordString(k) == s {
      KeywordOfKeywordString(k);
    }
  }

  /** The sixteen keywords have sixteen distinct spellings. */
  lemma KeywordStringInjective(a: KeywordKind, b: KeywordKind)
    ensures KeywordString(a) == KeywordString(b) ==> a == b
  {
    if KeywordString(a) == KeywordString(b) {
      KeywordOfKeywordString(a);
      KeywordOfKeywordString(b);
    }
  }

  /** The first two letters of a spelling already determine the keyword;
      this is what lets the scanner commit to a candidate keyword after
      looking at most one character past the first. */
  lemma KeywordFirstTwoLetters(a: KeywordKind, b: KeywordKind)
    requires KeywordString(a)[0] == KeywordString(b)[0]
    requires KeywordString(a)[1] == KeywordString(b)[1]
    ensures a == b
  {
    match a
    case And => {} case Or => {} case True => {} case False => {}
    case If => {} case Else => {} case For => {} case While => {}
    case Class => {} case Nil => {} case Super => {} case This => {}
    case Var => {} case Function => {} case Print => {} case Return => {}
  }

  /** No keyword's spelling is a proper prefix of another's. */
  lemma KeywordStringPrefixFree(a: KeywordKind, b: KeywordKind)
    ensures KeywordString(a) <= KeywordString(b) ==> a == b
  {
    if KeywordString(a) <= KeywordString(b) {
      KeywordFirstTwoLetters(a, b);
    }
  }
}
