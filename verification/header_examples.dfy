/** The examples that the header comment of Lexer.java gives for its grammar,
    scanned from position 0, and the inputs on which nothing is accepted. */
module HeaderExamples {
  import opened Lexer
  import opened NumberGrammar
  import opened LexerCorrectness

  /** A literal that fills the whole input is scanned completely, with its own kind. */
  lemma WholeLiteral(s: string)
    requires IntLiteral(s) || DecLiteral(s)
    ensures Scan(s, 0).len == |s|
    ensures Scan(s, 0).tokenType == if IntLiteral(s) then INT else DEC
  {
    assert Rest(s, 0) == s && s[..|s|] == s;
    KindMatchesGrammar(s);
    assert s != [];
  }

  lemma IntExamples()
    ensures Scan("0", 0) == Token(INT, 0, 1)
    ensures Scan("100", 0) == Token(INT, 0, 3)
    ensures Scan("0xabc", 0) == Token(INT, 0, 5)
    ensures Scan("0123456789a", 0) == Token(INT, 0, 11)
  {
    WholeLiteral("0");
    var s := "100";
    assert DecimalNumeral(s) by { assert s[1..] == "00"; }
    WholeLiteral(s);
    s := "0xabc";
    assert PrefixedHex(s) by { assert s[2..] == "abc"; }
    WholeLiteral(s);
    s := "0123456789a";
    assert BareHex(s) by {
      assert s[..10] == "0123456789" && s[11..] == [];
      assert IsHexLetter(s[10]);
    }
    WholeLiteral(s);
  }

  lemma NumeralPointExample()
    ensures Scan("10.3", 0) == Token(DEC, 0, 4)
  {
    var s := "10.3";
    assert DecimalNumeral(s[..2]) by { assert s[..2] == "10" && s[..2][1..] == "0"; }
    assert s[3..] == "3";
    assert NumeralPoint(s) by { assert s[2] == '.'; }
    WholeLiteral(s);
  }

  lemma PointExamples()
    ensures Scan("0.12", 0) == Token(DEC, 0, 4)
    ensures Scan(".12", 0) == Token(DEC, 0, 3)
  {
    var s := "0.12";
    assert ZeroPoint(s) by { assert s[2..] == "12"; }
    WholeLiteral(s);
    s := ".12";
    assert LeadingPoint(s) by { assert s[1..] == "12"; }
    WholeLiteral(s);
  }

  /** A lone point, an empty input and a start at the end of the input yield ERR of length 0. */
  lemma NoMatchExamples()
    ensures Scan(".", 0) == Token(ERR, 0, 0)
    ensures Scan("", 0) == Token(ERR, 0, 0)
    ensures Scan("12", 2) == Token(ERR, 2, 0)
  {
  }

  /** The scanner backs up to the last accepting position: "0x" yields the integer "0". */
  lemma BackUpToInteger()
    ensures Scan("0x", 0) == Token(INT, 0, 1)
  {
  }

  /** Likewise "1.5x" yields the decimal "1.5". */
  lemma BackUpToDecimal()
    ensures Scan("1.5x", 0) == Token(DEC, 0, 3)
  {
    var s := "1.5x";
    assert Rest(s, 0) == s && s[..4] == s;
    RunAppend([], '1');
    assert [] + ['1'] == s[..1];
    RunAppend(s[..1], '.');
    assert s[..1] + ['.'] == s[..2];
    RunAppend(s[..2], '5');
    assert s[..2] + ['5'] == s[..3];
    RunAppend(s[..3], 'x');
    assert s[..3] + ['x'] == s;
    assert s[..3][..3] == s[..3];
  }
}
