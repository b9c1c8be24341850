/** The scanner itself: a forward-only cursor over an immutable source
    text, advanced in place by small loops, each proved to stop where the
    pure model says it does. */
module Scan {
  import opened Wrappers
  import opened Token
  import opened ScanSpec

  /** `Tokens`: the cursor of one scan. `pos` is the index of the next
      character the peekable iterator would hand out. */
  class Tokens {
    const source: string
    var pos: nat

    ghost predicate Valid()
      reads this
    {
      pos <= |source|
    }

    /** `tokenize(source)`: a fresh cursor at the start of the source. */
    constructor (source: string)
      ensures Valid() && this.source == source && pos == 0
    {
      this.source := source;
      pos := 0;
    }

    /** `next_matches(expected)`: consume the next character if it is
        `expected`, and say whether it was. */
    method NextMatches(expected: char) returns (matched: bool)
      requires Valid()
      modifies this`pos
      ensures Valid()
      ensures matched == NextIs(source, old(pos), expected)
      ensures pos == if matched then old(pos) + 1 else old(pos)
    {
      matched := pos < |source| && source[pos] == expected;
      if matched {
        pos := pos + 1;
      }
    }

    /** `next_until_eq(expected)`: consume characters up to, not including,
        the next `expected`. */
    method NextUntilEq(expected: char)
      requires Valid()
      modifies this`pos
      ensures Valid()
      ensures pos == UntilEqEnd(source, old(pos), expected)
    {
      while pos < |source| && source[pos] != expected
        invariant old(pos) <= pos <= |source|
        invariant UntilEqEnd(source, old(pos), expected) == UntilEqEnd(source, pos, expected)
        decreases |source| - pos
      {
        pos := pos + 1;
      }
    }

    /** `identifier`: consume the rest of an alphanumeric run. */
    method ScanIdentifier() returns (k: Kind)
      requires Valid()
      modifies this`pos
      ensures Valid()
      ensures k == Identifier && pos == IdentifierEnd(source, old(pos))
    {
      while pos < |source| && IsAlphanumeric(source[pos])
        invariant old(pos) <= pos <= |source|
        invariant IdentifierEnd(source, old(pos)) == IdentifierEnd(source, pos)
        decreases |source| - pos
      {
        pos := pos + 1;
      }
      k := Identifier;
    }

    /** `number`: consume the rest of a run of digits. */
    method ScanNumber() returns (k: Kind)
      requires Valid()
      modifies this`pos
      ensures Valid()
      ensures k == Number && pos == NumberEnd(source, old(pos))
    {
      while pos < |source| && IsNumeric(source[pos])
        invariant old(pos) <= pos <= |source|
        invariant NumberEnd(source, old(pos)) == NumberEnd(source, pos)
        decreases |source| - pos
      {
        pos := pos + 1;
      }
      k := Number;
    }

    /** `string`: consume up to the next `"`, then take one more character,
        which makes a string if it is the closing quote. */
    method ScanString() returns (k: Kind)
      requires Valid()
      modifies this`pos
      ensures Valid()
      ensures Lexed(k, pos) == StringAt(source, old(pos))
    {
      NextUntilEq('"');
      if pos < |source| {
        var c := source[pos];
        pos := pos + 1;
        k := if c == '"' then String else Error;
      } else {
        k := Error;
      }
    }

    /** `comment`: consume up to, not including, the next line feed. */
    method ScanComment() returns (k: Kind)
      requires Valid()
      modifies this`pos
      ensures Valid()
      ensures Lexed(k, pos) == CommentAt(source, old(pos))
    {
      NextUntilEq('\n');
      k := Comment;
    }

    /** `try_keyword(word, keyword)`: consume the characters of `word` while
        they match, stopping at the first mismatch; the result is the
        keyword if all of `word` matched and no alphanumeric character
        follows, otherwise the rest of the identifier is consumed. */
    method TryKeyword(word: string, keyword: KeywordKind) returns (k: Kind)
      requires Valid()
      modifies this`pos
      ensures Valid()
      ensures Lexed(k, pos) == TryKeywordAt(source, old(pos), word, keyword)
    {
      var i := 0;
      var startsWithKeyword := true;
      while i < |word|
        invariant 0 <= i <= |word| && pos == old(pos) + i <= |source|
        invariant MatchLen(source, old(pos), word) == i + MatchLen(source, pos, word[i..])
        decreases |word| - i
      {
        assert word[i..][1..] == word[i + 1..];
        var matched := NextMatches(word[i]);
        if !matched {
          startsWithKeyword := false;
          break;
        }
        i := i + 1;
      }
      assert MatchLen(source, pos, word[i..]) == 0;
      assert startsWithKeyword <==> i == |word|;
      var notPrefixOfIdentifier := !(pos < |source| && IsAlphanumeric(source[pos]));
      if startsWithKeyword && notPrefixOfIdentifier {
        k := Keyword(keyword);
      } else {
        k := ScanIdentifier();
      }
    }

    /** `identifier_or_keyword(current)`: choose the candidate keyword from
        the first letter and, for `f` and `t`, the character under the
        cursor, which is looked at but not consumed. */
    method IdentifierOrKeyword(current: char) returns (k: Kind)
      requires Valid()
      modifies this`pos
      ensures Valid()
      ensures Lexed(k, pos) == IdentifierOrKeywordAt(source, old(pos), current)
    {
      var peek := if pos < |source| then Some(source[pos]) else None;
      match Candidate(current, peek)
      case None =>
        k := ScanIdentifier();
      case Some((word, keyword)) =>
        k := TryKeyword(word, keyword);
    }

    /** `kind(next)`: classify the lexeme whose first character `next` has
        just been consumed, consuming the rest of it. */
    method KindOf(next: char) returns (k: Kind)
      requires Valid()
      modifies this`pos
      ensures Valid()
      ensures Lexed(k, pos) == KindAt(source, old(pos), next)
    {
      match next
      case '(' => k := LeftParen;
      case ')' => k := RightParen;
      case '{' => k := LeftBrace;
      case '}' => k := RightBrace;
      case ',' => k := Comma;
      case '.' => k := Dot;
      case ';' => k := Semicolon;
      case '+' => k := Plus;
      case '-' => k := Minus;
      case '*' => k := Star;
      case '/' =>
        var m := NextMatches('/');
        if m {
          k := ScanComment();
        } else {
          k := Slash;
        }
      case '=' =>
        var m := NextMatches('=');
        k := if m then EqualEqual else Equal;
      case '>' =>
        var m := NextMatches('=');
        k := if m then GreaterEqual else Greater;
      case '<' =>
        var m := NextMatches('=');
        k := if m then LessEqual else Less;
      case '!' =>
        var m := NextMatches('=');
        k := if m then BangEqual else Bang;
      case '"' =>
        k := ScanString();
      case _ =>
        if IsNumeric(next) {
          k := ScanNumber();
        } else if IsAlphabetic(next) {
          k := IdentifierOrKeyword(next);
        } else {
          k := Error;
        }
    }

    /** `Tokens::next`: skip whitespace, take the first other character and
        classify the lexeme it starts; `None` when only whitespace is left,
        with the cursor then at the end. */
    method Next() returns (t: Option<Token>)
      requires Valid()
      modifies this`pos
      ensures Valid()
      ensures match NextTok(source, old(pos))
              case None => t == None && pos == |source|
              case Some(step) => t == Some(step.token) && pos == step.next
    {
      while pos < |source| && IsWhitespace(source[pos])
        invariant old(pos) <= pos <= |source|
        invariant SkipWhitespace(source, old(pos)) == SkipWhitespace(source, pos)
        decreases |source| - pos
      {
        pos := pos + 1;
      }
      if pos == |source| {
        t := None;
      } else {
        var position := pos;
        var c := source[pos];
        pos := pos + 1;
        var k := KindOf(c);
        t := Some(NewToken(position, k));
      }
    }
  }

  /** Drain a fresh cursor over `source`: the tokens it yields, in order,
      are exactly the modelled scan of `source`. */
  method Collect(source: string) returns (ts: seq<Token>)
    ensures ts == Tokenize(source)
  {
    var tokens := new Tokens(source);
    ts := [];
    while true
      invariant tokens.Valid() && tokens.source == source
      invariant ts + TokensFrom(source, tokens.pos) == Tokenize(source)
      decreases |source| - tokens.pos
    {
      var t := tokens.Next();
      if t.None? {
        break;
      }
      ts := ts + [t.value];
    }
  }
}
