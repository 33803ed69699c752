/** The transition table of the lexer realises the grammar of the header
    comment, and the scanner returns the longest literal of that grammar. */
module LexerCorrectness {
  import opened Lexer
  import opened NumberGrammar

  /** The strings that lead the automaton from state 0 to state q, in the grammar's terms. */
  predicate StateLanguage(q: StateId, s: seq<char>)
  {
    if q == 0 then s == []
    else if q == 1 then s == "0"
    else if q == 2 then DecimalNumeral(s)
    else if q == 3 then |s| >= 2 && s[0] == '0' && AllDigits(s[1..])
    else if q == 4 then DecLiteral(s)
    else if q == 5 then s == "."
    else if q == 6 then |s| == 2 && s[0] == '0' && IsX(s[1])
    else if q == 7 then PrefixedHex(s) || BareHex(s)
    else false
  }

  lemma AllDigitsAppend(t: seq<char>, c: char)
    ensures AllDigits(t + [c]) <==> AllDigits(t) && IsDigit(c)
  {
    if AllDigits(t) && IsDigit(c) {
      forall i | 0 <= i < |t + [c]| ensures IsDigit((t + [c])[i]) {
        if i < |t| { assert (t + [c])[i] == t[i]; }
      }
    }
    if AllDigits(t + [c]) {
      assert (t + [c])[|t|] == c;
      forall i | 0 <= i < |t| ensures IsDigit(t[i]) {
        assert (t + [c])[i] == t[i];
      }
    }
  }

  lemma AllHexDigitsAppend(t: seq<char>, c: char)
    ensures AllHexDigits(t + [c]) <==> AllHexDigits(t) && IsHexDigit(c)
  {
    if AllHexDigits(t) && IsHexDigit(c) {
      forall i | 0 <= i < |t + [c]| ensures IsHexDigit((t + [c])[i]) {
        if i < |t| { assert (t + [c])[i] == t[i]; }
      }
    }
    if AllHexDigits(t + [c]) {
      assert (t + [c])[|t|] == c;
      forall i | 0 <= i < |t| ensures IsHexDigit(t[i]) {
        assert (t + [c])[i] == t[i];
      }
    }
  }

  /** Slicing an extended string below its old length, or from a point inside it. */
  lemma SliceAppend(t: seq<char>, c: char, k: nat)
    requires k <= |t|
    ensures (t + [c])[..k] == t[..k]
    ensures (t + [c])[k..] == t[k..] + [c]
  {
  }

  /** The digits of a numeral without a leading zero are all digits. */
  lemma NumeralDigits(s: seq<char>)
    requires DecimalNumeral(s)
    ensures AllDigits(s)
  {
  }

  /** A string of digits that starts with '0' and is longer than one character. */
  lemma ZeroDigits(s: seq<char>)
    requires |s| >= 2 && s[0] == '0' && AllDigits(s[1..])
    ensures AllDigits(s)
  {
  }

  /** Every transition that does not reach the trap leads from one state's strings
      to the target state's strings. */
  lemma Forward(q: StateId, t: seq<char>, c: char)
    requires q < OutOfBounds && StateLanguage(q, t)
    requires Delta[q][CharType(c)] != OutOfBounds
    ensures StateLanguage(Delta[q][CharType(c)], t + [c])
  {
    var s := t + [c];
    var ct := CharType(c);
    if q == 0 {
      assert s == [c];
      if ct == CharHexLetter {
        assert s[..0] == [] && s[1..] == [];
        assert BareHex(s) by { assert IsHexLetter(s[0]); }
      }
    } else if q == 1 {
      assert s == ['0', c];
      if ct == CharZero || ct == CharNonZero {
        assert s[1..] == [c];
      } else if ct == CharHexLetter {
        assert s[..1] == "0" && s[2..] == [];
        assert BareHex(s) by { assert IsHexLetter(s[1]); }
      } else if ct == CharDot {
        assert s[2..] == [];
        assert ZeroPoint(s);
      }
    } else if q == 2 {
      SliceAppend(t, c, 1);
      if ct == CharZero || ct == CharNonZero {
        AllDigitsAppend(t[1..], c);
      } else if ct == CharHexLetter {
        NumeralDigits(t);
        SliceAppend(t, c, |t|);
        assert s[|t| + 1..] == [];
        assert BareHex(s) by { assert IsHexLetter(s[|t|]); }
      } else if ct == CharDot {
        SliceAppend(t, c, |t|);
        assert s[|t| + 1..] == [];
        assert NumeralPoint(s) by { assert s[|t|] == '.'; }
      }
    } else if q == 3 {
      SliceAppend(t, c, 1);
      if ct == CharZero || ct == CharNonZero {
        AllDigitsAppend(t[1..], c);
      } else if ct == CharHexLetter {
        ZeroDigits(t);
        SliceAppend(t, c, |t|);
        assert s[|t| + 1..] == [];
        assert BareHex(s) by { assert IsHexLetter(s[|t|]); }
      }
    } else if q == 4 {
      assert IsDigit(c);
      if NumeralPoint(t) {
        var i :| 0 <= i < |t| && t[i] == '.' && DecimalNumeral(t[..i]) && AllDigits(t[i + 1..]);
        SliceAppend(t, c, i);
        SliceAppend(t, c, i + 1);
        AllDigitsAppend(t[i + 1..], c);
        assert s[i] == '.';
        assert NumeralPoint(s);
      } else if ZeroPoint(t) {
        SliceAppend(t, c, 2);
        AllDigitsAppend(t[2..], c);
        assert ZeroPoint(s);
      } else {
        SliceAppend(t, c, 1);
        AllDigitsAppend(t[1..], c);
        assert LeadingPoint(s);
      }
    } else if q == 5 {
      assert s == ['.', c] && s[1..] == [c];
      assert LeadingPoint(s);
    } else if q == 6 {
      assert s[2..] == [c];
      assert PrefixedHex(s);
    } else {
      assert IsHexDigit(c);
      if PrefixedHex(t) {
        SliceAppend(t, c, 2);
        AllHexDigitsAppend(t[2..], c);
        assert PrefixedHex(s);
      } else {
        var i :| 0 <= i < |t| && IsHexLetter(t[i]) && AllDigits(t[..i]) && AllHexDigits(t[i + 1..]);
        SliceAppend(t, c, i);
        SliceAppend(t, c, i + 1);
        AllHexDigitsAppend(t[i + 1..], c);
        assert IsHexLetter(s[i]);
        assert BareHex(s);
      }
    }
  }

  /** Every string of a state other than 0 ends with a character that some state
      with a row in the table sends there: the predecessor p. */
  lemma Backward(t: seq<char>, c: char, q: StateId) returns (p: StateId)
    requires 0 < q < OutOfBounds && StateLanguage(q, t + [c])
    ensures p < OutOfBounds && StateLanguage(p, t) && Delta[p][CharType(c)] == q
  {
    var s := t + [c];
    assert s[|t|] == c;
    if q == 1 {
      assert |t| == 0;
      p := 0;
    } else if q == 2 {
      if t == [] {
        p := 0;
      } else {
        SliceAppend(t, c, 1);
        AllDigitsAppend(t[1..], c);
        p := 2;
      }
    } else if q == 3 {
      SliceAppend(t, c, 1);
      AllDigitsAppend(t[1..], c);
      if |t| == 1 {
        assert t == "0";
        p := 1;
      } else {
        p := 3;
      }
    } else if q == 4 {
      p := BackwardDecimal(t, c);
    } else if q == 5 {
      assert |t| == 0;
      p := 0;
    } else if q == 6 {
      assert t == "0";
      p := 1;
    } else {
      p := BackwardHex(t, c);
    }
  }

  lemma BackwardDecimal(t: seq<char>, c: char) returns (p: StateId)
    requires DecLiteral(t + [c])
    ensures p < OutOfBounds && StateLanguage(p, t) && Delta[p][CharType(c)] == 4
  {
    var s := t + [c];
    assert s[|t|] == c;
    if NumeralPoint(s) {
      var i :| 0 <= i < |s| && s[i] == '.' && DecimalNumeral(s[..i]) && AllDigits(s[i + 1..]);
      if i == |t| {
        assert s[..i] == t;
        p := 2;
      } else {
        SliceAppend(t, c, i);
        SliceAppend(t, c, i + 1);
        AllDigitsAppend(t[i + 1..], c);
        assert t[i] == '.';
        assert NumeralPoint(t);
        p := 4;
      }
    } else if ZeroPoint(s) {
      if |t| == 1 {
        assert t == "0";
        p := 1;
      } else {
        SliceAppend(t, c, 2);
        AllDigitsAppend(t[2..], c);
        assert ZeroPoint(t);
        p := 4;
      }
    } else {
      assert LeadingPoint(s);
      SliceAppend(t, c, 1);
      AllDigitsAppend(t[1..], c);
      if |t| == 1 {
        assert t == ".";
        p := 5;
      } else {
        assert LeadingPoint(t);
        p := 4;
      }
    }
  }

  lemma BackwardHex(t: seq<char>, c: char) returns (p: StateId)
    requires PrefixedHex(t + [c]) || BareHex(t + [c])
    ensures p < OutOfBounds && StateLanguage(p, t) && Delta[p][CharType(c)] == 7
  {
    var s := t + [c];
    assert s[|t|] == c;
    if PrefixedHex(s) {
      SliceAppend(t, c, 2);
      AllHexDigitsAppend(t[2..], c);
      if |t| == 2 {
        p := 6;
      } else {
        assert PrefixedHex(t);
        p := 7;
      }
    } else {
      var i :| 0 <= i < |s| && IsHexLetter(s[i]) && AllDigits(s[..i]) && AllHexDigits(s[i + 1..]);
      if i == |t| {
        assert s[..i] == t;
        p := BackwardFirstHexLetter(t, c);
      } else {
        SliceAppend(t, c, i);
        SliceAppend(t, c, i + 1);
        AllHexDigitsAppend(t[i + 1..], c);
        assert IsHexLetter(t[i]);
        assert BareHex(t);
        p := 7;
      }
    }
  }

  /** A run of digits followed by a hexadecimal letter: the digits lead to 0, 1, 2 or 3. */
  lemma BackwardFirstHexLetter(t: seq<char>, c: char) returns (p: StateId)
    requires AllDigits(t) && IsHexLetter(c)
    ensures p < OutOfBounds && StateLanguage(p, t) && Delta[p][CharType(c)] == 7
  {
    if t == [] {
      p := 0;
    } else if t == "0" {
      p := 1;
    } else {
      assert AllDigits(t[1..]) by {
        forall j | 0 <= j < |t[1..]| ensures IsDigit(t[1..][j]) { assert t[1..][j] == t[j + 1]; }
      }
      p := if t[0] == '0' then 3 else 2;
    }
  }

  /** The automaton reaches state q on s exactly when s is one of q's strings. */
  lemma {:induction false} RunMatchesLanguage(s: seq<char>)
    ensures forall q: StateId :: q < OutOfBounds ==> (Run(s) == q <==> StateLanguage(q, s))
    decreases |s|
  {
    if s == [] {
      forall q: StateId | 0 < q < OutOfBounds ensures !StateLanguage(q, s) {
      }
    } else {
      var t, c := s[..|s| - 1], s[|s| - 1];
      assert s == t + [c];
      RunMatchesLanguage(t);
      RunAppend(t, c);
      forall q: StateId | q < OutOfBounds && StateLanguage(q, s) ensures Run(s) == q {
        if q == 0 {
          assert false;
        } else {
          var p := Backward(t, c, q);
        }
      }
      if Run(s) != OutOfBounds {
        Forward(Run(t), t, c);
      }
    }
  }

  /** The table's verdict on a whole string is the grammar's: INT for the four integer
      rules, DEC for the three decimal rules, and no acceptance otherwise. */
  lemma KindMatchesGrammar(s: seq<char>)
    ensures GetTokenType(StateType[Run(s)]) == INT <==> IntLiteral(s)
    ensures GetTokenType(StateType[Run(s)]) == DEC <==> DecLiteral(s)
    ensures Accepting(Run(s)) <==> IntLiteral(s) || DecLiteral(s)
  {
    RunMatchesLanguage(s);
    var q := Run(s);
    if q == OutOfBounds {
      assert !StateLanguage(1, s) && !StateLanguage(2, s) && !StateLanguage(4, s) && !StateLanguage(7, s);
    } else {
      assert StateLanguage(q, s);
      assert !StateLanguage(1, s) || !StateLanguage(4, s);
    }
  }

  /** Maximal munch in the grammar's terms: the token spans a literal of its own kind,
      it is ERR exactly when no prefix of the rest of the input is a literal, and no
      longer prefix is a literal of either kind. */
  lemma ScanIsMaximalMunch(str: string, start: nat)
    ensures IntLiteral(Rest(str, start)[..Scan(str, start).len]) <==> Scan(str, start).tokenType == INT
    ensures DecLiteral(Rest(str, start)[..Scan(str, start).len]) <==> Scan(str, start).tokenType == DEC
    ensures forall n :: Scan(str, start).len < n <= |Rest(str, start)| ==>
      !IntLiteral(Rest(str, start)[..n]) && !DecLiteral(Rest(str, start)[..n])
    ensures Scan(str, start).tokenType == ERR <==>
      forall n :: 0 <= n <= |Rest(str, start)| ==>
        !IntLiteral(Rest(str, start)[..n]) && !DecLiteral(Rest(str, start)[..n])
  {
    var rest := Rest(str, start);
    var t := Scan(str, start);
    MatchLengthIsLongest(rest);
    KindMatchesGrammar(rest[..t.len]);
    forall n | 0 <= n <= |rest|
      ensures Accepting(Run(rest[..n])) <==> IntLiteral(rest[..n]) || DecLiteral(rest[..n])
    {
      KindMatchesGrammar(rest[..n]);
    }
  }
}
