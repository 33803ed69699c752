/** The numeric-literal grammar in the header comment of Lexer.java, one
    predicate per rule, written independently of the transition table. */
module NumberGrammar {

  predicate IsDigit(c: char) { '0' <= c <= '9' }

  predicate IsNonZeroDigit(c: char) { '1' <= c <= '9' }

  predicate IsHexLetter(c: char) { 'a' <= c <= 'f' || 'A' <= c <= 'F' }

  predicate IsHexDigit(c: char) { IsDigit(c) || IsHexLetter(c) }

  predicate IsX(c: char) { c == 'x' || c == 'X' }

  /** [0-9]* */
  predicate AllDigits(s: seq<char>)
  {
    forall i :: 0 <= i < |s| ==> IsDigit(s[i])
  }

  /** [0-9a-fA-F]* */
  predicate AllHexDigits(s: seq<char>)
  {
    forall i :: 0 <= i < |s| ==> IsHexDigit(s[i])
  }

  /** [1-9][0-9]* */
  predicate DecimalNumeral(s: seq<char>)
  {
    |s| >= 1 && IsNonZeroDigit(s[0]) && AllDigits(s[1..])
  }

  /** 0[xX][0-9a-fA-F]+ */
  predicate PrefixedHex(s: seq<char>)
  {
    |s| >= 3 && s[0] == '0' && IsX(s[1]) && AllHexDigits(s[2..])
  }

  /** [0-9]*[a-fA-F][0-9a-fA-F]*, split at its first hexadecimal letter i */
  predicate BareHex(s: seq<char>)
  {
    exists i :: 0 <= i < |s| && IsHexLetter(s[i]) && AllDigits(s[..i]) && AllHexDigits(s[i + 1..])
  }

  /** [1-9][0-9]*\.[0-9]*, split at its point i */
  predicate NumeralPoint(s: seq<char>)
  {
    exists i :: 0 <= i < |s| && s[i] == '.' && DecimalNumeral(s[..i]) && AllDigits(s[i + 1..])
  }

  /** 0\.[0-9]* */
  predicate ZeroPoint(s: seq<char>)
  {
    |s| >= 2 && s[0] == '0' && s[1] == '.' && AllDigits(s[2..])
  }

  /** \.[0-9]+ */
  predicate LeadingPoint(s: seq<char>)
  {
    |s| >= 2 && s[0] == '.' && AllDigits(s[1..])
  }

  /** The four integer rules. */
  predicate IntLiteral(s: seq<char>)
  {
    s == "0" || DecimalNumeral(s) || PrefixedHex(s) || BareHex(s)
  }

  /** The three decimal rules. */
  predicate DecLiteral(s: seq<char>)
  {
    NumeralPoint(s) || ZeroPoint(s) || LeadingPoint(s)
  }
}
