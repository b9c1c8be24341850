/** What the scanner promises about each kind of lexeme, stated about the
    lexeme that starts at a token start `p` of the source. */
module ScanProperties {
  import opened Wrappers
  import opened Token
  import opened ScanSpec

  /** The fixed spelling of the punctuation and operator kinds; the other
      kinds have no fixed spelling. */
  function FixedSpelling(k: Kind): (s: Option<string>) {
    match k
    case LeftParen => Some("(")
    case RightParen => Some(")")
    case LeftBrace => Some("{")
    case RightBrace => Some("}")
    case Comma => Some(",")
    case Dot => Some(".")
    case Semicolon => Some(";")
    case Minus => Some("-")
    case Plus => Some("+")
    case Slash => Some("/")
    case Star => Some("*")
    case EqualEqual => Some("==")
    case Equal => Some("=")
    case GreaterEqual => Some(">=")
    case Greater => Some(">")
    case LessEqual => Some("<=")
    case Less => Some("<")
    case BangEqual => Some("!=")
    case Bang => Some("!")
    case _ => None
  }

  /** One call of `next` returns the classification of the lexeme at the
      token's position, and leaves the cursor just past it. */
  lemma NextTokClassifies(src: string, pos: nat)
    requires pos <= |src| && NextTok(src, pos).Some?
    ensures var step := NextTok(src, pos).value;
            LexAt(src, step.token.position) == Lexed(step.token.kind, step.next)
  {
  }

  /** Once `next` has found nothing, the cursor is at the end and a further
      call finds nothing either. */
  lemma ExhaustedStaysExhausted(src: string, pos: nat)
    requires pos <= |src| && NextTok(src, pos).None?
    ensures SkipWhitespace(src, pos) == |src|
    ensures NextTok(src, |src|).None?
  {
  }

  /** Punctuation is one character long and its kind spells it. */
  lemma PunctuationToken(src: string, p: nat)
    requires p < |src| && src[p] in "(){},.;+-*"
    ensures LexAt(src, p).end == p + 1
    ensures FixedSpelling(LexAt(src, p).kind) == Some(src[p..p + 1])
  {
    assert src[p..p + 1] == [src[p]];
  }

  /** A comparison operator takes a following `=` when there is one, and
      only then; its kind spells exactly the characters it consumed. */
  lemma ComparisonToken(src: string, p: nat)
    requires p < |src| && src[p] in "=<>!"
    ensures var r := LexAt(src, p);
            && (r.end == p + 1 || r.end == p + 2)
            && (r.end == p + 2 <==> NextIs(src, p + 1, '='))
            && FixedSpelling(r.kind) == Some(src[p..r.end])
  {
    var r := LexAt(src, p);
    if NextIs(src, p + 1, '=') {
      assert src[p..r.end] == [src[p], '='];
    } else {
      assert src[p..r.end] == [src[p]];
    }
  }

  /** `//` starts a comment that runs to the next line feed, which it does
      not include, or to the end; a `/` not followed by `/` is a slash. */
  lemma SlashOrCommentToken(src: string, p: nat)
    requires p < |src| && src[p] == '/'
    ensures var r := LexAt(src, p);
            if NextIs(src, p + 1, '/') then
              && r.kind == Comment
              && p + 2 <= r.end
              && '\n' !in src[p..r.end]
              && (r.end < |src| ==> src[r.end] == '\n')
            else
              r == Lexed(Slash, p + 1)
  {
  }

  /** A string literal runs through the first `"` after the opening one;
      with no closing quote it is an error that takes the rest of the
      source, after which the scan is over. */
  lemma StringToken(src: string, p: nat)
    requires p < |src| && src[p] == '"'
    ensures var r := LexAt(src, p);
            && (r.kind == String <==> '"' in src[p + 1..])
            && (r.kind == String ==>
                  p + 2 <= r.end && src[r.end - 1] == '"' && '"' !in src[p + 1..r.end - 1])
            && (r.kind != String ==>
                  r.kind == Error && r.end == |src| && NextTok(src, r.end).None?)
  {
    var r := LexAt(src, p);
    var q := UntilEqEnd(src, p + 1, '"');
    if q < |src| {
      assert src[p + 1..][q - (p + 1)] == '"';
    } else {
      var rest := src[p + 1..];
      assert forall j | 0 <= j < |rest| :: rest[j] != '"' by {
        forall j | 0 <= j < |rest| ensures rest[j] != '"' {
          assert rest[j] == src[p + 1 + j];
        }
      }
    }
  }

  /** A digit starts a number that is the maximal run of digits. */
  lemma NumberToken(src: string, p: nat)
    requires p < |src| && IsNumeric(src[p])
    ensures var r := LexAt(src, p);
            && r.kind == Number
            && (forall j | p <= j < r.end :: IsNumeric(src[j]))
            && (r.end < |src| ==> !IsNumeric(src[r.end]))
  {
  }

  /** A character that starts no other lexeme is an error on its own. */
  lemma UnrecognizedToken(src: string, p: nat)
    requires p < |src| && src[p] !in "(){},.;+-*/=<>!\"" && !IsAlphanumeric(src[p])
    ensures LexAt(src, p) == Lexed(Error, p + 1)
  {
  }

  /** An alphanumeric run ends at the same place wherever inside it one
      starts looking. */
  lemma {:induction false} IdentifierEndFrom(src: string, i: nat, j: nat)
    requires i <= j <= |src|
    requires forall k | i <= k < j :: IsAlphanumeric(src[k])
    ensures IdentifierEnd(src, i) == IdentifierEnd(src, j)
    decreases j - i
  {
    if i < j {
      IdentifierEndFrom(src, i + 1, j);
    }
  }

  /** A word that is the whole spelling of a keyword starts with the two
      letters that lead the decision table to that keyword. */
  lemma CandidateOfSpelling(src: string, p: nat, e: nat, k: KeywordKind)
    requires p < e <= |src| && src[p..e] == KeywordString(k)
    ensures p + 1 < |src|
    ensures Candidate(src[p], Some(src[p + 1])) == Some((src[p + 1..e], k))
  {
    CandidateComplete(k);
    assert src[p + 1..e] == KeywordString(k)[1..];
  }

  /** A letter is dispatched to `identifier_or_keyword`. */
  lemma LetterDispatch(src: string, p: nat)
    requires p < |src| && IsAlphabetic(src[p])
    ensures LexAt(src, p) == IdentifierOrKeywordAt(src, p + 1, src[p])
  {
  }

  /** The spelling of no keyword is the word at `p` when the decision
      table offers no candidate for its first letters. */
  lemma NoCandidateNoKeyword(src: string, p: nat, e: nat)
    requires p < e <= |src|
    requires Candidate(src[p], if p + 1 < |src| then Some(src[p + 1]) else None).None?
    ensures forall k :: src[p..e] != KeywordString(k)
  {
    forall k | src[p..e] == KeywordString(k) ensures false {
      CandidateOfSpelling(src, p, e, k);
    }
  }

  /** `try_keyword` consumes the whole spelling of its argument only when
      the source spells it out. */
  lemma MatchLenFull(src: string, i: nat, word: string)
    requires i + |word| <= |src| && src[i..i + |word|] == word
    ensures MatchLen(src, i, word) == |word|
  {
    var m := MatchLen(src, i, word);
    if m < |word| {
      assert src[i..i + |word|][m] == word[m];
    }
  }

  /** The characters of a lower-case word spelled out from `i` form an
      alphanumeric stretch of the source. */
  lemma SpelledWordIsAlphanumeric(src: string, i: nat, n: nat, word: string)
    requires i + n <= |src| && n <= |word| && src[i..i + n] == word[..n]
    requires forall j | 0 <= j < |word| :: IsLowercase(word[j])
    ensures forall j | i <= j < i + n :: IsAlphanumeric(src[j])
  {
    forall j | i <= j < i + n ensures IsAlphanumeric(src[j]) {
      assert src[j] == src[i..i + n][j - i] == word[..n][j - i];
    }
  }

  /** `try_keyword(word, k)` on a lower-case word: it ends at the end of the
      alphanumeric run from `i`, and yields `Keyword(k)` exactly when that
      run is `word`, an identifier otherwise. */
  lemma TryKeywordRun(src: string, i: nat, word: string, k: KeywordKind)
    requires i <= |src|
    requires forall j | 0 <= j < |word| :: IsLowercase(word[j])
    ensures var r := TryKeywordAt(src, i, word, k);
            && r.end == IdentifierEnd(src, i)
            && (r.kind == Keyword(k) || r.kind == Identifier)
            && (r.kind == Keyword(k) <==> src[i..r.end] == word)
  {
    var n := MatchLen(src, i, word);
    var m := i + n;
    SpelledWordIsAlphanumeric(src, i, n, word);
    IdentifierEndFrom(src, i, m);
    var e := IdentifierEnd(src, i);
    if !(n == |word| && !(m < |src| && IsAlphanumeric(src[m]))) {
      if src[i..e] == word {
        MatchLenFull(src, i, word);
      }
    }
  }

  /** The rest of a candidate's spelling is lower-case, and completes the
      first letter to the keyword's spelling. */
  lemma CandidateWordIsLowercase(c: char, peek: Option<char>, word: string, kk: KeywordKind)
    requires Candidate(c, peek) == Some((word, kk))
    ensures KeywordString(kk) == [c] + word
    ensures forall j | 0 <= j < |word| :: IsLowercase(word[j])
  {
    var spelling := KeywordString(kk);
    forall j | 0 <= j < |word| ensures IsLowercase(word[j]) {
      assert word[j] == spelling[j + 1];
    }
  }

  /** A run that is not the spelling of the candidate keyword is the
      spelling of no keyword at all. */
  lemma OnlyCandidateCanMatch(src: string, p: nat, e: nat, word: string, kk: KeywordKind)
    requires p < e <= |src|
    requires Candidate(src[p], if p + 1 < |src| then Some(src[p + 1]) else None) == Some((word, kk))
    requires src[p..e] != KeywordString(kk)
    ensures forall k :: src[p..e] != KeywordString(k)
  {
    forall k | src[p..e] == KeywordString(k) ensures false {
      CandidateOfSpelling(src, p, e, k);
    }
  }

  /** `try_keyword` with the candidate the decision table offers: the result
      ends at the end of the alphanumeric run and is the candidate keyword
      when the run spells it, an identifier spelling no keyword otherwise. */
  lemma TryKeywordToken(src: string, p: nat, word: string, kk: KeywordKind)
    requires p < |src| && IsAlphabetic(src[p])
    requires Candidate(src[p], if p + 1 < |src| then Some(src[p + 1]) else None) == Some((word, kk))
    ensures var r := TryKeywordAt(src, p + 1, word, kk);
            var e := IdentifierEnd(src, p);
            && r.end == e
            && (r.kind == Keyword(kk) || r.kind == Identifier)
            && (r.kind == Keyword(kk) ==> src[p..e] == KeywordString(kk))
            && (r.kind == Identifier ==> forall k :: src[p..e] != KeywordString(k))
  {
    var i := p + 1;
    CandidateWordIsLowercase(src[p], if i < |src| then Some(src[i]) else None, word, kk);
    TryKeywordRun(src, i, word, kk);
    IdentifierEndFrom(src, p, i);
    var r := TryKeywordAt(src, i, word, kk);
    var e := IdentifierEnd(src, p);
    assert src[p..e] == [src[p]] + src[i..e] by {
      assert src[p..e][1..] == src[i..e];
    }
    if r.kind == Identifier {
      assert src[i..e] != word;
      assert src[p..e] != KeywordString(kk);
      OnlyCandidateCanMatch(src, p, e, word, kk);
    }
  }

  /** A letter starts the maximal alphanumeric run; the token is a keyword
      whose spelling the run is, or an identifier when the run spells no
      keyword. */
  lemma IdentifierOrKeywordToken(src: string, p: nat)
    requires p < |src| && IsAlphabetic(src[p])
    ensures var r := LexAt(src, p);
            && r.end == IdentifierEnd(src, p)
            && (r.kind == Identifier || r.kind.Keyword?)
            && (r.kind.Keyword? ==> src[p..r.end] == KeywordString(r.kind.keyword))
            && (r.kind == Identifier ==> forall k :: src[p..r.end] != KeywordString(k))
  {
    LetterDispatch(src, p);
    var peek := if p + 1 < |src| then Some(src[p + 1]) else None;
    match Candidate(src[p], peek)
    case None =>
      IdentifierEndFrom(src, p, p + 1);
      NoCandidateNoKeyword(src, p, IdentifierEnd(src, p));
    case Some((word, kk)) =>
      TryKeywordToken(src, p, word, kk);
  }

  /** The keyword/identifier boundary, both ways: the token at a letter is
      `Keyword(k)` exactly when the maximal alphanumeric run there spells
      `k`; every other run is an identifier. */
  lemma KeywordIffSpelling(src: string, p: nat, k: KeywordKind)
    requires p < |src| && IsAlphabetic(src[p])
    ensures var r := LexAt(src, p);
            && (r.kind == Identifier || r.kind.Keyword?)
            && (r.kind == Keyword(k) <==> src[p..r.end] == KeywordString(k))
  {
    IdentifierOrKeywordToken(src, p);
    var r := LexAt(src, p);
    if r.kind.Keyword? {
      KeywordStringInjective(r.kind.keyword, k);
    }
  }

  /** The keyword token at a letter is the one the word's lookup finds. */
  lemma IdentifierOrKeywordLookup(src: string, p: nat)
    requires p < |src| && IsAlphabetic(src[p])
    ensures var r := LexAt(src, p);
            r.kind == (match KeywordOf(src[p..r.end])
                       case Some(k) => Keyword(k)
                       case None => Identifier)
  {
    IdentifierOrKeywordToken(src, p);
    var r := LexAt(src, p);
    if r.kind.Keyword? {
      KeywordOfKeywordString(r.kind.keyword);
    }
  }

  /** A keyword spelled out from `p` starts with a letter and covers an
      alphanumeric stretch of the source. */
  lemma SpelledKeywordIsAlphanumeric(src: string, p: nat, k: KeywordKind)
    requires p + |KeywordString(k)| <= |src|
    requires src[p..p + |KeywordString(k)|] == KeywordString(k)
    ensures IsAlphabetic(src[p])
    ensures forall j | p <= j < p + |KeywordString(k)| :: IsAlphanumeric(src[j])
  {
    var spelling := KeywordString(k);
    var n := |spelling|;
    assert src[p] == spelling[0] by {
      assert src[p] == src[p..p + n][0];
    }
    assert spelling[..n] == spelling;
    SpelledWordIsAlphanumeric(src, p, n, spelling);
  }

  /** A keyword's spelling followed by a further alphanumeric character is
      never a keyword token: the whole run is one identifier. */
  lemma KeywordPrefixIsIdentifier(src: string, p: nat, k: KeywordKind)
    requires p + |KeywordString(k)| < |src|
    requires src[p..p + |KeywordString(k)|] == KeywordString(k)
    requires IsAlphanumeric(src[p + |KeywordString(k)|])
    ensures LexAt(src, p) == Lexed(Identifier, IdentifierEnd(src, p))
  {
    var n := |KeywordString(k)|;
    SpelledKeywordIsAlphanumeric(src, p, k);
    IdentifierEndFrom(src, p, p + n + 1);
    var e := IdentifierEnd(src, p);
    assert e > p + n;
    IdentifierOrKeywordToken(src, p);
    var r := LexAt(src, p);
    if r.kind.Keyword? {
      LongerRunIsNoKeyword(src, p, n, k, e, r.kind.keyword);
    }
  }

  /** A run that strictly extends a keyword's spelling spells no keyword. */
  lemma LongerRunIsNoKeyword(src: string, p: nat, n: nat, k: KeywordKind, e: nat, k': KeywordKind)
    requires n == |KeywordString(k)| && p + n < e <= |src|
    requires src[p..p + n] == KeywordString(k)
    ensures src[p..e] != KeywordString(k')
  {
    if src[p..e] == KeywordString(k') {
      assert KeywordString(k) <= KeywordString(k') by {
        assert src[p..e][..n] == src[p..p + n];
      }
      KeywordStringPrefixFree(k, k');
    }
  }

  /** A keyword spelled out in full and not followed by an alphanumeric
      character is scanned as that keyword, ending right after its
      spelling. */
  lemma KeywordToken(src: string, p: nat, k: KeywordKind)
    requires p + |KeywordString(k)| <= |src|
    requires src[p..p + |KeywordString(k)|] == KeywordString(k)
    requires p + |KeywordString(k)| == |src| || !IsAlphanumeric(src[p + |KeywordString(k)|])
    ensures LexAt(src, p) == Lexed(Keyword(k), p + |KeywordString(k)|)
  {
    var n := |KeywordString(k)|;
    SpelledKeywordIsAlphanumeric(src, p, k);
    IdentifierEndFrom(src, p, p + n);
    assert IdentifierEnd(src, p + n) == p + n;
    IdentifierOrKeywordToken(src, p);
    KeywordIffSpelling(src, p, k);
    assert LexAt(src, p).end == p + n;
  }

  /** A source that is just a keyword's spelling scans to exactly that
      keyword. */
  lemma KeywordAlone(k: KeywordKind)
    ensures Tokenize(KeywordString(k)) == [Token(0, Keyword(k))]
  {
    var src := KeywordString(k);
    assert src[0..|src|] == src;
    KeywordToken(src, 0, k);
    assert !IsWhitespace(src[0]) by {
      assert IsLowercase(src[0]);
    }
    assert NextTok(src, 0) == Some(Step(Token(0, Keyword(k)), |src|));
    assert TokensFrom(src, |src|) == [];
  }
}
