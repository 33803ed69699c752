/** A maximal-munch lexer for one numeric literal, driven by an explicit
    transition table: the character classifier, the two constant tables,
    the accept-kind labelling and the scanning loop of Lexer.java. */
module Lexer {

  /** Character classes; each is a column index of the transition table. */
  const CharZero := 0        // '0'
  const CharNonZero := 1     // '1' .. '9'
  const CharHexLetter := 2   // 'a' .. 'f', 'A' .. 'F'
  const CharX := 3           // 'x', 'X'
  const CharDot := 4         // '.'
  const CharOther := 5       // everything else

  /** Accept kinds stored in the state-type table. */
  const TypeInt := 0
  const TypeDec := 1
  const TypeErr := 2

  /** The state a transition goes to when it has nowhere to go: the trap. */
  const OutOfBounds := 8

  type CharClass = ct: int | 0 <= ct <= 5
  /** States 0..7 have a row in the table; 8 is the trap. */
  type StateId = q: int | 0 <= q <= 8
  type Row = r: seq<StateId> | |r| == 6 witness [8, 8, 8, 8, 8, 8]

  datatype TokenType = INT | DEC | ERR

  /** A token: its kind, where it starts in the input and how many characters it spans. */
  datatype Token = Token(tokenType: TokenType, start: int, len: int)

  /** The label the program prints for a token kind. */
  function Label(k: TokenType): string
  {
    match k
    case INT => "INT"
    case DEC => "DEC"
    case ERR => "ERR"
  }

  /** Classifies one character; every character falls in exactly one class. */
  function CharType(c: char): (ct: CharClass)
    ensures ct == CharDot <==> c == '.'
    ensures ct == CharX <==> c == 'x' || c == 'X'
    ensures ct == CharZero <==> c == '0'
    ensures ct == CharNonZero <==> '1' <= c <= '9'
    ensures ct == CharHexLetter <==> 'a' <= c <= 'f' || 'A' <= c <= 'F'
    ensures ct == CharOther <==>
      !(c == '.' || c == 'x' || c == 'X' || '0' <= c <= '9' || 'a' <= c <= 'f' || 'A' <= c <= 'F')
  {
    if c == '.' then CharDot
    else if c == 'x' || c == 'X' then CharX
    else if c == '0' then CharZero
    else if '1' <= c <= '9' then CharNonZero
    else if 'a' <= c <= 'f' then CharHexLetter
    else if 'A' <= c <= 'F' then CharHexLetter
    else CharOther
  }

  /** The transition table, Delta[state][class]. Columns, in class order:
      '0'  [1-9]  [a-fA-F]  [xX]  '.'  other */
  const Delta: seq<Row> := [
    [1, 2, 7, 8, 5, 8],   // 0: nothing read yet
    [3, 3, 7, 6, 4, 8],   // 1: "0"
    [2, 2, 7, 8, 4, 8],   // 2: [1-9][0-9]*
    [3, 3, 7, 8, 8, 8],   // 3: 0[0-9]+
    [4, 4, 8, 8, 8, 8],   // 4: a decimal
    [4, 4, 8, 8, 8, 8],   // 5: "."
    [7, 7, 7, 8, 8, 8],   // 6: 0[xX]
    [7, 7, 7, 8, 8, 8]    // 7: a hexadecimal integer
  ]

  /** The accept kind of each state, the trap included. */
  const StateType: seq<int> := [
    TypeErr, TypeInt, TypeInt, TypeErr,
    TypeDec, TypeErr, TypeErr, TypeInt,
    TypeErr
  ]

  /** The tables have the shape the scanner indexes them with, and the trap never accepts. */
  lemma TablesWellFormed()
    ensures |Delta| == 8 && |StateType| == OutOfBounds + 1
    ensures forall q :: 0 <= q < |Delta| ==> |Delta[q]| == 6
    ensures forall q, ct :: 0 <= q < |Delta| && 0 <= ct < 6 ==> 0 <= Delta[q][ct] <= OutOfBounds
    ensures StateType[OutOfBounds] == TypeErr
  {
  }

  /** Maps an accept kind to the token kind it labels. */
  function GetTokenType(tokenNumber: int): (r: TokenType)
    ensures r == INT <==> tokenNumber == TypeInt
    ensures r == DEC <==> tokenNumber == TypeDec
    ensures r == ERR <==> tokenNumber != TypeInt && tokenNumber != TypeDec
  {
    if tokenNumber == TypeInt then INT
    else if tokenNumber == TypeDec then DEC
    else ERR
  }

  predicate Accepting(q: StateId)
  {
    StateType[q] != TypeErr
  }

  /** One transition; the trap has no row and keeps every character. */
  function Step(q: StateId, c: char): StateId
  {
    if q == OutOfBounds then OutOfBounds else Delta[q][CharType(c)]
  }

  /** The state reached by reading s from state 0. */
  function Run(s: seq<char>): StateId
    decreases |s|
  {
    if s == [] then 0 else Step(Run(s[..|s| - 1]), s[|s| - 1])
  }

  /** The length of the longest prefix of s whose run ends in an accepting state, 0 if none. */
  function MatchLength(s: seq<char>): (n: nat)
    ensures n <= |s|
    decreases |s|
  {
    if s == [] then 0
    else if Accepting(Run(s)) then |s|
    else MatchLength(s[..|s| - 1])
  }

  /** The part of the input from start on; nothing when start lies past its end. */
  function Rest(str: string, start: nat): string
  {
    if start <= |str| then str[start..] else []
  }

  /** The token the scanner returns, stated without the loop. */
  function Scan(str: string, start: nat): (t: Token)
    ensures t.start == start
    ensures 0 <= t.len <= |Rest(str, start)|
    ensures start <= |str| ==> t.len <= |str| - start
    ensures t.tokenType == ERR <==> t.len == 0
  {
    var rest := Rest(str, start);
    var n := MatchLength(rest);
    MatchLengthIsLongest(rest);
    Token(GetTokenType(StateType[Run(rest[..n])]), start, n)
  }

  lemma RunAppend(s: seq<char>, c: char)
    ensures Run(s + [c]) == Step(Run(s), c)
  {
  }

  /** MatchLength is the length of the longest accepted prefix: that prefix accepts
      (unless it is empty) and no longer prefix does. */
  lemma {:induction false} MatchLengthIsLongest(s: seq<char>)
    ensures MatchLength(s) == 0 || Accepting(Run(s[..MatchLength(s)]))
    ensures forall n :: MatchLength(s) < n <= |s| ==> !Accepting(Run(s[..n]))
    decreases |s|
  {
    if s != [] {
      var init := s[..|s| - 1];
      MatchLengthIsLongest(init);
      assert s[..|s|] == s;
      forall n | 0 <= n <= |init|
        ensures s[..n] == init[..n]
      {
      }
    }
  }

  /** Once the run is in the trap, it stays there whatever follows. */
  lemma {:induction false} TrapAbsorbs(s: seq<char>, u: seq<char>)
    requires Run(s) == OutOfBounds
    ensures Run(s + u) == OutOfBounds
    decreases |u|
  {
    if u == [] {
      assert s + u == s;
    } else {
      var v, c := u[..|u| - 1], u[|u| - 1];
      assert s + u == (s + v) + [c];
      TrapAbsorbs(s, v);
      RunAppend(s + v, c);
    }
  }

  /** Reaching the trap fixes the match: no continuation changes the longest accepted prefix. */
  lemma {:induction false} TrapEndsMatch(s: seq<char>, u: seq<char>)
    requires Run(s) == OutOfBounds
    ensures MatchLength(s + u) == MatchLength(s)
    decreases |u|
  {
    if u == [] {
      assert s + u == s;
    } else {
      var v := u[..|u| - 1];
      TrapAbsorbs(s, u);
      assert (s + u)[..|s + u| - 1] == s + v;
      TrapEndsMatch(s, v);
    }
  }

  /** Reading one more character extends the longest match exactly when the run accepts. */
  lemma {:induction false} MatchLengthAppend(s: seq<char>, c: char)
    ensures MatchLength(s + [c]) == if Accepting(Run(s + [c])) then |s| + 1 else MatchLength(s)
    ensures (s + [c])[..MatchLength(s + [c])] ==
      if Accepting(Run(s + [c])) then s + [c] else s[..MatchLength(s)]
  {
  }

  /** Scans str from start and returns the longest numeric literal found there. */
  method GetToken(str: string, start: nat) returns (t: Token)
    ensures t == Scan(str, start)
  {
    ghost var rest := Rest(str, start);
    ghost var seen: seq<char> := [];
    var p := start;
    var acceptMarker := ERR;
    var acceptPos := start;
    var currentState := 0;
    while p < |str|
      invariant start <= p <= start + |rest|
      invariant seen == rest[..p - start]
      invariant 0 <= currentState < OutOfBounds
      invariant currentState == Run(seen)
      invariant acceptPos - start == MatchLength(seen)
      invariant acceptMarker == GetTokenType(StateType[Run(seen[..MatchLength(seen)])])
      decreases |str| - p
    {
      var c := str[p];
      p := p + 1;
      RunAppend(seen, c);
      MatchLengthAppend(seen, c);
      seen := seen + [c];
      assert seen == rest[..p - start];
      var ct := CharType(c);
      var nextState := Delta[currentState][ct];
      if StateType[nextState] != TypeErr {
        acceptMarker := GetTokenType(StateType[nextState]);
        acceptPos := p;
      }
      if nextState == OutOfBounds {
        break;
      }
      currentState := nextState;
    }
    if Run(seen) == OutOfBounds {
      assert rest == seen + rest[|seen|..];
      TrapEndsMatch(seen, rest[|seen|..]);
    } else {
      assert seen == rest;
    }
    assert rest[..MatchLength(rest)] == seen[..MatchLength(seen)];
    t := Token(acceptMarker, start, acceptPos - start);
  }
}
