# A verified model of the bytecode-interpreter scanner

This project models the lexical scanner of the bytecode interpreter. The
scanner turns source text into tokens on demand. A forward-only cursor
skips whitespace and records where the next token starts. It then
classifies the lexeme with one character of lookahead and maximal munch:

- punctuation;
- `//` comments (a `#` is an unrecognised character);
- the `=` `>` `<` `!` operators, each with an optional trailing `=`;
- strings without escapes;
- digit runs as numbers;
- alphanumeric runs as keywords or identifiers;
- a one-character `Error` for anything else.

The model has five modules:

- `Wrappers`: the `Option` type.
- `Token`: the token vocabulary of `src/token.rs`.
  - `Kind`, with `Keyword(KeywordKind)`, and `KeywordKind`.
  - The token record and `Token::new`.
  - The keyword-to-spelling table of `Display for KeywordKind`, as the function `KeywordString`, with its inverse `KeywordOf`.
  - Lemmas: the keyword table is injective, prefix-free, lower-case, and decided by its first two letters.
- `ScanSpec`: a pure model of `src/scan.rs`.
  - For each loop of the scanner, the index where it stops: `SkipWhitespace`, `UntilEqEnd`, `IdentifierEnd`, `NumberEnd`, `MatchLen`.
  - The keyword decision table of `identifier_or_keyword` (`Candidate`).
  - The classification of one lexeme (`KindAt`, `LexAt`).
  - One call of `Tokens::next` (`NextTok`) and the whole scan (`Tokenize`), with the ordering lemmas.
- `ScanProperties`: what the scanner promises for each kind of lexeme, stated at any token start.
- `Scan`: the scanner itself.
  - The class `Tokens` has a `pos` field that its methods advance in place, using while loops like the Rust code.
  - Each method is proved to leave `pos` where the pure model says, and to return the kind the model says.
  - `Collect` drains a fresh cursor and is proved to return exactly `Tokenize(source)`.

A sixth module, `ScanTests`, states the unit tests of `src/scan.rs` as lemmas about `Tokenize`. Each test's source is given character by character.

In `src/scan.rs`, `Kind` has its own flat keyword variants (`And`, `Or`, …). The model uses `Kind` from `src/token.rs` instead: the flat variant `And` is `Keyword(And)`, and likewise for the others. `src/scan.rs` declares its own `Token` with `Token::new` (src/scan.rs:33-43). It is the same record as the one in `src/token.rs`, and `Token.Token` models both.

Positions are indices into the source seen as a sequence of characters. For ASCII input they equal the byte offsets that `char_indices` reports.

## Model

| member | source | states |
|---|---|---|
| Token.NewToken | src/token.rs:73-75 | the token stores exactly the position and kind it is given |
| Token.KeywordString | src/token.rs:44-61 | every keyword spelling has at least two characters, all lower-case ASCII letters |
| Token.KeywordOf | src/token.rs:44-61 | a keyword found for a word spells that word |
| Token.KeywordOfKeywordString | src/token.rs:44-61 | looking up a keyword's spelling gives that keyword back |
| Token.KeywordOfIff | src/token.rs:44-61 | the lookup finds `k` for a word if and only if the word is `k`'s spelling |
| Token.KeywordStringInjective | src/token.rs:44-61 | the sixteen keywords have sixteen distinct spellings |
| Token.KeywordFirstTwoLetters | src/token.rs:44-61 | two keywords whose spellings agree in their first two letters are the same keyword |
| Token.KeywordStringPrefixFree | src/token.rs:44-61 | no keyword's spelling is a prefix of a different keyword's spelling |
| ScanSpec.IsWhitespace | src/scan.rs:175 | exactly the six ASCII characters `char::is_whitespace` accepts: tab, line feed, vertical tab, form feed, carriage return and space |
| ScanSpec.IsNumeric | src/scan.rs:74 | exactly the ASCII digits `0`–`9`, the characters `char::is_numeric` accepts in ASCII; also the test of the digit loop at src/scan.rs:151 |
| ScanSpec.IsAlphabetic | src/scan.rs:75 | exactly the ASCII letters `a`–`z` and `A`–`Z`, the characters `char::is_alphabetic` accepts in ASCII |
| ScanSpec.IsAlphanumeric | src/scan.rs:131 | a letter or a digit, as `char::is_alphanumeric` in ASCII; also the test of the identifier loop at src/scan.rs:144 |
| ScanSpec.SkipWhitespace | src/scan.rs:174-175 | the first index at or after the cursor that is not whitespace, or the end; everything skipped is whitespace |
| ScanSpec.UntilEqEnd | src/scan.rs:86-92 | `next_until_eq` stops at the first occurrence of the expected character, or at the end, and consumes only other characters |
| ScanSpec.IdentifierEnd | src/scan.rs:141-148 | `identifier` consumes exactly the maximal alphanumeric run |
| ScanSpec.NumberEnd | src/scan.rs:150-153 | `number` consumes exactly the maximal run of digits |
| ScanSpec.MatchLen | src/scan.rs:124-127 | the keyword loop consumes the longest prefix of the word that the source spells, and stops at the first mismatch or the end |
| ScanSpec.Candidate | src/scan.rs:96-119 | the dispatch letter followed by the suffix passed to `try_keyword` is the spelling of the candidate keyword |
| ScanSpec.CandidateComplete | src/scan.rs:96-119 | every keyword is the candidate the decision table offers for its own first two letters, with the rest of its spelling as suffix |
| ScanSpec.TryKeywordAt | src/scan.rs:123-139 | `try_keyword` ends inside the source, no earlier than where it starts; `ScanProperties.TryKeywordRun` states its meaning |
| ScanSpec.IdentifierOrKeywordAt | src/scan.rs:94-121 | `identifier_or_keyword` ends inside the source; `ScanProperties.IdentifierOrKeywordToken` states its meaning |
| ScanSpec.StringAt | src/scan.rs:155-162 | `string` ends inside the source; `ScanProperties.StringToken` states its meaning |
| ScanSpec.CommentAt | src/scan.rs:164-167 | `comment` ends inside the source; `ScanProperties.SlashOrCommentToken` states its meaning |
| ScanSpec.KindAt | src/scan.rs:50-78 | `kind` never moves the cursor backwards or past the end |
| ScanSpec.LexAt | src/scan.rs:176 | the lexeme at a token start consumes at least its first character and ends inside the source |
| ScanSpec.NextTok | src/scan.rs:173-177 | `next` returns `None` exactly when only whitespace is left; otherwise the token is at the first non-whitespace index at or after the cursor, and the cursor moves at least one character past it |
| ScanSpec.TokensFrom | src/scan.rs:170-177 | repeated calls of `next` yield no more tokens than characters remain |
| ScanSpec.Tokenize | src/scan.rs:180-184 | a scan of the whole source yields at most one token per character |
| ScanSpec.TokensFromOrdered | src/scan.rs:173-177 | from any cursor, the scan is empty exactly when only whitespace remains; every token starts in the source on a non-whitespace character; positions strictly increase |
| ScanSpec.TokenizeOrdered | src/scan.rs:173-177 | the whole scan is empty exactly for blank input; token positions are valid, point at non-whitespace and strictly increase |
| ScanSpec.TokensFromCover | src/scan.rs:173-177 | from any cursor the tokens tile the rest of the source: only whitespace before the first token, each token is the lexeme at its position, the lexemes do not overlap, and only whitespace lies between one lexeme and the next token and after the last lexeme |
| ScanSpec.TokenizeCover | src/scan.rs:180-184 | the whole scan tiles the source: every non-whitespace character lies in exactly one lexeme, and the tokens carry those lexemes' kinds in order |
| ScanProperties.NextTokClassifies | src/scan.rs:176 | the token `next` returns carries the kind of the lexeme at its position, and the cursor is left just past that lexeme |
| ScanProperties.ExhaustedStaysExhausted | src/scan.rs:173-177 | once `next` finds nothing the cursor is at the end, and every later call finds nothing too |
| ScanProperties.PunctuationToken | src/scan.rs:53-62 | punctuation consumes one character, and its kind is spelled by that character |
| ScanProperties.ComparisonToken | src/scan.rs:65-72 | `=` `<` `>` `!` take a following `=` if and only if there is one; the kind is spelled by exactly the one or two characters consumed |
| ScanProperties.SlashOrCommentToken | src/scan.rs:63-64 | `//` gives a comment reaching up to, not including, the next line feed or the end; a `/` not followed by `/` is a one-character slash |
| ScanProperties.StringToken | src/scan.rs:155-162 | a quote gives `String` if and only if another quote follows, ending just past the first closing quote; otherwise `Error` takes the rest of the source and the next call returns `None` |
| ScanProperties.NumberToken | src/scan.rs:150-153 | a digit starts a `Number` that is exactly the maximal digit run |
| ScanProperties.UnrecognizedToken | src/scan.rs:76 | a character that matches no rule is an `Error` of exactly that one character |
| ScanProperties.IdentifierEndFrom | src/scan.rs:141-148 | an alphanumeric run ends at the same index wherever inside it `identifier` starts |
| ScanProperties.CandidateOfSpelling | src/scan.rs:96-119 | a word that spells keyword `k` makes the decision table offer `k`, with the rest of the word as suffix |
| ScanProperties.LetterDispatch | src/scan.rs:75 | a letter is handed, already consumed, to `identifier_or_keyword` |
| ScanProperties.NoCandidateNoKeyword | src/scan.rs:104 | when the decision table offers no candidate, the word spells no keyword |
| ScanProperties.MatchLenFull | src/scan.rs:124-127 | when the source spells the whole word, the keyword loop consumes all of it |
| ScanProperties.TryKeywordRun | src/scan.rs:123-139 | `try_keyword` ends at the end of the alphanumeric run; it yields the keyword if and only if the run is the word, and an identifier otherwise |
| ScanProperties.CandidateWordIsLowercase | src/scan.rs:96-119 | each suffix the decision table hands to `try_keyword` is lower-case, and completes the first letter to the keyword's spelling |
| ScanProperties.OnlyCandidateCanMatch | src/scan.rs:94-121 | a run that is not the candidate's spelling spells no keyword at all |
| ScanProperties.TryKeywordToken | src/scan.rs:123-139 | with the offered candidate, `try_keyword` ends at the end of the run; it yields the candidate if the run spells it, and otherwise an identifier whose run spells no keyword |
| ScanProperties.IdentifierOrKeywordToken | src/scan.rs:94-148 | a letter starts a lexeme that is exactly the maximal alphanumeric run; a keyword token's run is that keyword's spelling, and an identifier's run spells no keyword |
| ScanProperties.KeywordIffSpelling | src/scan.rs:94-148 | the lexeme at a letter is `Keyword(k)` if and only if its run spells `k`, and is an identifier otherwise |
| ScanProperties.IdentifierOrKeywordLookup | src/scan.rs:94-148 | the kind at a letter is the keyword that looking up the run finds, or `Identifier` when the lookup finds none |
| ScanProperties.KeywordPrefixIsIdentifier | src/scan.rs:128-138 | a keyword's spelling followed by one more alphanumeric character gives an identifier spanning the whole run |
| ScanProperties.KeywordToken | src/scan.rs:123-139 | a keyword spelled in full and not followed by an alphanumeric character is that keyword, ending right after its spelling |
| ScanProperties.KeywordAlone | src/scan.rs:94-139 | a source that is just a keyword's spelling scans to exactly that keyword token at position 0 |
| Scan.Tokens.constructor | src/scan.rs:180-184 | `tokenize` gives a cursor at the start of the source |
| Scan.Tokens.NextMatches | src/scan.rs:80-84 | consumes the next character exactly when it is the expected one, and reports whether it did |
| Scan.Tokens.NextUntilEq | src/scan.rs:86-92 | the loop leaves the cursor where `UntilEqEnd` says |
| Scan.Tokens.ScanIdentifier | src/scan.rs:141-148 | the loop consumes to `IdentifierEnd` and returns `Identifier` |
| Scan.Tokens.ScanNumber | src/scan.rs:150-153 | the loop consumes to `NumberEnd` and returns `Number` |
| Scan.Tokens.ScanString | src/scan.rs:155-162 | kind and new cursor are those of `StringAt` |
| Scan.Tokens.ScanComment | src/scan.rs:164-167 | kind and new cursor are those of `CommentAt` |
| Scan.Tokens.TryKeyword | src/scan.rs:123-139 | the matching loop with its early exit, and the look-ahead test after it, give the kind and cursor of `TryKeywordAt` |
| Scan.Tokens.IdentifierOrKeyword | src/scan.rs:94-121 | kind and new cursor are those of `IdentifierOrKeywordAt` |
| Scan.Tokens.KindOf | src/scan.rs:50-78 | kind and new cursor are those of `KindAt` |
| Scan.Tokens.Next | src/scan.rs:173-177 | returns `None` with the cursor at the end, or the token of `NextTok` with the cursor where `NextTok` leaves it |
| Scan.Collect | src/scan.rs:170-184 | draining a fresh cursor yields exactly `Tokenize(source)` |
| ScanTests.TestEmpty | src/scan.rs:190-195 | the empty source has no tokens |
| ScanTests.TestSingleCharacter | src/scan.rs:197-213 | the eleven punctuation characters give eleven tokens at positions 0 to 10 |
| ScanTests.TestWhitespace | src/scan.rs:215-224 | whitespace is skipped and positions count it |
| ScanTests.TestComparison | src/scan.rs:226-240 | the operators pair up by maximal munch |
| ScanTests.TestNumber | src/scan.rs:242-251 | digit runs are numbers |
| ScanTests.TestTerminatedString | src/scan.rs:253-260 | a string runs through its closing quote |
| ScanTests.TestUnterminatedString | src/scan.rs:262-269 | an unterminated string is one `Error` at the opening quote, and the scan ends |
| ScanTests.TestUnrecognizedCharacter | src/scan.rs:271-278 | each unrecognised character is its own `Error` |
| ScanTests.TestComment | src/scan.rs:280-288 | comments stop before the line feed |
| ScanTests.TestIdentifier | src/scan.rs:290-300 | words that are not keywords are identifiers, and `;` ends the last one |
| ScanTests.TestKeywords | src/scan.rs:302-326 | the sentence of all sixteen keywords scans to sixteen `Keyword` tokens, each of its own keyword, at offsets 0, 4, 7, 12, 18, 21, 26, 30, 36, 42, 46, 52, 57, 61, 70 and 76, and then ends |
| ScanTests.TestIdentifierOrKeyword | src/scan.rs:328-336 | `f`, `t` and `u` words that only start like keywords are identifiers |

## Left out

- src/parse.rs is not part of this model. It is a stub with no behaviour.
- The `write!` and `fmt::Formatter` plumbing of `Display for KeywordKind` is not modelled. Only the keyword-to-spelling table is.
- The character classes are ASCII only. `is_whitespace` is the six ASCII whitespace characters, `is_numeric` is `0`–`9`, and `is_alphabetic` is `a`–`z` and `A`–`Z`. A non-ASCII character at a token start therefore becomes a one-character `Error`, while Rust would also accept Unicode letters, digits and spaces there. A non-ASCII character also ends an identifier or number run, so `andé` scans as `Keyword(And)` then `Error`, where Rust gives one `Identifier`. Inside a string or comment it is consumed like any other character.
- Positions are character indices, not the UTF-8 byte offsets that `char_indices` reports. The two differ only for non-ASCII text.
- `Peekable`, `CharIndices`, the `Iterator` impl and the `'source` lifetime are replaced by an index over an immutable character sequence. Reading the iterator to the end is `Scan.Collect`.
- ScanSpec.StringAt: `string` has a branch for a character other than `"` after `next_until_eq`. That branch cannot be reached, because the cursor then sits at `"` or at the end. The function leaves it out; `Scan.Tokens.ScanString` keeps it and is proved equal to the function anyway.
- Token positions are unbounded naturals. The `usize` bound on positions cannot be reached by a source held in memory, so it is not modelled.
