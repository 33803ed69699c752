# Numeric-literal lexer: a verified model

This project models `Lexer.java`, a maximal-munch lexer for one numeric literal.
A character classifier sorts each character into one of six classes:
`'0'`, `[1-9]`, `[a-fA-F]`, `[xX]`, `'.'` and everything else.
A constant 8×6 transition table and a 9-entry accept-kind table define a
deterministic automaton. State 8 is the out-of-bounds trap.
The scanning loop `getToken` walks the automaton from a start offset. It remembers the
last position where a transition landed on an accepting state, and stops at the trap or
at the end of the input. It returns a token `(kind, start, len)` for the longest accepted
prefix. The kind is INT, DEC or ERR.

Files:

- `lexer.dfy` (module `Lexer`) holds the classifier `CharType`, the tables `Delta` and
  `StateType`, `GetTokenType`, and the token datatypes.
  It also holds the scanner `GetToken`, a `while` loop with `break`, written like the
  source's loop. `GetToken` is proved equal to the pure `Scan`.
  `Scan` is defined through `Run`, the state reached on a string, and `MatchLength`,
  the length of the longest accepted prefix.
- `number_grammar.dfy` (module `NumberGrammar`) writes the seven rules of the header
  comment (Lexer.java lines 5-11) as predicates. They do not mention the table.
- `lexer_correctness.dfy` (module `LexerCorrectness`) proves that the table realises
  exactly that grammar. Each state gets a language in the grammar's terms. The proof shows,
  for every string, that the automaton reaches a state exactly when the string is in that
  state's language.
  From that it derives maximal munch in the grammar's terms.
- `header_examples.dfy` (module `HeaderExamples`) proves the header's examples and a few
  inputs on which the scanner backs up.

The column order of `Delta` follows the class constants of the source (lines 31-36):
`'0'`, `[1-9]`, `[a-fA-F]`, `[xX]`, `'.'`, other.
The column comment at line 61 lists a different order, and it is wrong.
Read in the constants' order, the table realises the header grammar, as
`RunMatchesLanguage` and `KindMatchesGrammar` prove.

`getToken` handles a start offset past the end of the string: its loop never runs and it
returns ERR with length 0. The model keeps this behaviour and does not require
`start <= |str|`.

## Model

| member | source | states |
|---|---|---|
| `Lexer.CharType` | Lexer.java:46-54 | every character falls in exactly one of the six classes. Each class is characterised in both directions: `'.'`, `x`/`X`, `'0'`, `'1'..'9'`, `a-f`/`A-F`, and everything else |
| `Lexer.TablesWellFormed` | Lexer.java:56-80 | `delta` has 8 rows of 6 entries, each in 0..8. `stateType` has 9 entries, and the trap state 8 is not accepting |
| `Lexer.GetTokenType` | Lexer.java:82-90 | kind 0 maps to INT, kind 1 to DEC, and every other value to ERR, in both directions |
| `Lexer.MatchLength` | Lexer.java:99-101 | the remembered accept position never lies beyond the text read so far |
| `Lexer.RunAppend` | Lexer.java:106-111 | reading one more character moves the automaton by one table lookup, on that character's class |
| `Lexer.MatchLengthIsLongest` | Lexer.java:116-119 | the recorded length is that of the longest accepted prefix: that prefix is accepted (unless it is empty), and no longer prefix is |
| `Lexer.MatchLengthAppend` | Lexer.java:116-119 | one more character extends the match to the whole text read exactly when the new state accepts; otherwise the match and its kind are unchanged |
| `Lexer.TrapAbsorbs` | Lexer.java:120-121 | once the run reaches the trap, no continuation leaves it |
| `Lexer.TrapEndsMatch` | Lexer.java:116-123 | after the trap, no continuation changes the longest accepted prefix. So breaking out of the loop there loses nothing |
| `Lexer.Scan` | Lexer.java:95-127 | the token starts at `start`, has `0 <= len <= |str| - start`, and is ERR exactly when its length is 0 |
| `Lexer.GetToken` | Lexer.java:95-127 | the loop terminates, never indexes `delta` with the trap, and returns the token of the longest accepted prefix with that prefix's kind (`Scan`) |
| `LexerCorrectness.Forward` | Lexer.java:65-72 | every table entry that is not the trap leads from the strings of its row's state to the strings of its target state |
| `LexerCorrectness.Backward` | Lexer.java:65-72 | every string of states 1..7 is one character longer than a string of a state that the table sends there on that character |
| `LexerCorrectness.BackwardDecimal` | Lexer.java:65-72 | a decimal literal minus its last character belongs to state 1, 2, 4 or 5, whose entry for that character is 4 |
| `LexerCorrectness.BackwardHex` | Lexer.java:65-72 | a hexadecimal integer minus its last character belongs to a state whose entry for that character is 7 |
| `LexerCorrectness.BackwardFirstHexLetter` | Lexer.java:65-67 | a digit run followed by a hex letter: the digits lead to state 0, 1, 2 or 3, and each of them goes to 7 on a hex letter |
| `LexerCorrectness.RunMatchesLanguage` | Lexer.java:56-80 | for every string and every state 0..7, the automaton reaches the state exactly when the string is in that state's language |
| `LexerCorrectness.KindMatchesGrammar` | Lexer.java:5-11 | the table labels a string INT exactly when an integer rule of the header grammar matches it, DEC exactly when a decimal rule does, and accepts nothing else |
| `LexerCorrectness.ScanIsMaximalMunch` | Lexer.java:95-127 | the token's text is an integer literal exactly when the kind is INT, and a decimal literal exactly when it is DEC. No longer prefix is a literal. ERR is returned exactly when no prefix is a literal |
| `HeaderExamples.WholeLiteral` | Lexer.java:5-11 | an input that is one literal is scanned from position 0 completely, with its kind |
| `HeaderExamples.IntExamples` | Lexer.java:5-8 | `0`, `100`, `0xabc` and `0123456789a` scan completely as INT |
| `HeaderExamples.NumeralPointExample` | Lexer.java:9 | `10.3` scans completely as DEC |
| `HeaderExamples.PointExamples` | Lexer.java:10-11 | `0.12` and `.12` scan completely as DEC |
| `HeaderExamples.NoMatchExamples` | Lexer.java:100-101 | a lone `.`, the empty input, and a start at the end of the input give ERR with length 0 |
| `HeaderExamples.BackUpToInteger` | Lexer.java:116-123 | `0x` gives INT of length 1: the scanner backs up to the last accepting position |
| `HeaderExamples.BackUpToDecimal` | Lexer.java:116-123 | `1.5x` gives DEC of length 3 |

## Left out

- `main` (Lexer.java:129-136) is not modelled: reading a line from standard input, printing the kind label and the matched substring. `Label` gives the printed label of a kind, but the output format is not modelled.
- Negative start offsets are excluded by the type `nat` of `start`. On a non-empty string Java would throw from `charAt`.
- Java strings are UTF-16 `char` sequences. The model uses Dafny `char` and classifies by plain character comparisons; surrogate pairs and other encoding details are not modelled.
- The token kind is a Java `String` constant (`"INT"`, `"DEC"`, `"ERR"`, lines 16-18). The model uses the datatype `TokenType`, and the strings appear only in `Label`.
- `delta` and `stateType` are instance fields of a `Lexer` object that nothing ever writes. The model makes them module constants, so there is no class.
