/** JSON text by the grammar of RFC 8259, its characters written out, against the rewriting of util.c. */
module JsonGrammar {
  import opened Bytes
  import opened JsonNumbers
  import opened Wrappers

  /** A character of a string as it is written: itself, or a backslash and one more byte. */
  datatype Letter = Plain(c: Byte) | Escaped(c: Byte)

  /** e or E, an optional sign, digits (section 6). */
  datatype Exponent = Exponent(e: Byte, sign: seq<Byte>, digits: seq<Byte>)

  /** An optional minus sign, digits, an optional point with digits, an optional exponent (section 6). */
  datatype Numeral = Numeral(minus: bool, whole: seq<Byte>, fraction: Option<seq<Byte>>, exponent: Option<Exponent>)

  datatype Token = Text(letters: seq<Letter>) | Number(n: Numeral) | Mark(c: Byte) | True | False | Null

  predicate DecimalDigits(s: seq<Byte>) {
    s != [] && forall i :: 0 <= i < |s| ==> s[i] in {48, 49, 50, 51, 52, 53, 54, 55, 56, 57}
  }

  predicate IsExponent(x: Exponent) {
    x.e in {101, 69} && (x.sign == [] || x.sign == [43] || x.sign == [45]) && DecimalDigits(x.digits)
  }

  predicate IsNumeral(n: Numeral) {
    && DecimalDigits(n.whole)
    && (n.fraction.Some? ==> DecimalDigits(n.fraction.value))
    && (n.exponent.Some? ==> IsExponent(n.exponent.value))
  }

  /** Tab, newline, return, space, comma, colon, brackets and braces. */
  predicate IsMarkByte(c: Byte) {
    c in {9, 10, 13, 32, 44, 58, 91, 93, 123, 125}
  }

  predicate IsToken(t: Token) {
    match t
    case Text(letters) =>
      forall i :: 0 <= i < |letters| && letters[i].Plain? ==> letters[i].c != 34 && letters[i].c != 92
    case Number(n) => IsNumeral(n)
    case Mark(c) => IsMarkByte(c)
    case _ => true
  }

  /** What may follow a number: white space, comma, colon, closing bracket or brace. */
  predicate EndsNumber(t: Token) {
    t.Mark? && t.c in {9, 10, 13, 32, 44, 58, 93, 125}
  }

  predicate Tokens(ts: seq<Token>) {
    ts == [] || (IsToken(ts[0]) && Tokens(ts[1..]) && (ts[0].Number? && |ts| > 1 ==> EndsNumber(ts[1])))
  }

  function LettersText(letters: seq<Letter>): seq<Byte> {
    if letters == [] then []
    else (match letters[0] case Plain(c) => [c] case Escaped(c) => [92, c]) + LettersText(letters[1..])
  }

  function FractionText(f: Option<seq<Byte>>): seq<Byte> {
    match f case Some(digits) => [46] + digits case None => []
  }

  function ExponentText(x: Option<Exponent>): seq<Byte> {
    match x case Some(Exponent(e, sign, digits)) => [e] + sign + digits case None => []
  }

  /** A number from its first digit on. */
  function Unsigned(n: Numeral): seq<Byte> {
    n.whole + FractionText(n.fraction) + ExponentText(n.exponent)
  }

  function TokenText(t: Token): seq<Byte> {
    match t
    case Text(letters) => [34] + LettersText(letters) + [34]
    case Number(n) => (if n.minus then [45] else []) + Unsigned(n)
    case Mark(c) => [c]
    case True => [116, 114, 117, 101]
    case False => [102, 97, 108, 115, 101]
    case Null => [110, 117, 108, 108]
  }

  function Written(ts: seq<Token>): seq<Byte> {
    if ts == [] then [] else TokenText(ts[0]) + Written(ts[1..])
  }

  function Power(n: nat): nat {
    if n == 0 then 1 else 10 * Power(n - 1)
  }

  /** The number that digits write: each of them times its power of ten. */
  function Positional(digits: seq<Byte>): int {
    if digits == [] then 0 else (digits[0] as int - 48) * Power(|digits| - 1) + Positional(digits[1..])
  }

  /** No fraction, no exponent, and digits that write more than 2^63 - 1. */
  predicate TooLong(n: Numeral) {
    n.fraction.None? && n.exponent.None? && Positional(n.whole) > 9223372036854775807
  }

  /** What the rewriting is for: the fraction ".0" for every such number that something follows. */
  function Repaired(ts: seq<Token>): seq<Token> {
    if ts == [] then []
    else [if ts[0].Number? && |ts| > 1 && TooLong(ts[0].n) then Number(ts[0].n.(fraction := Some([48]))) else ts[0]]
         + Repaired(ts[1..])
  }

  // ----- digits -----

  lemma {:induction false} PositionalAppend(s: seq<Byte>, d: Byte)
    ensures Positional(s + [d]) == 10 * Positional(s) + (d as int - 48)
  {
    if s == [] {
      assert [d][1..] == [] && Power(0) == 1;
    } else {
      PositionalAppend(s[1..], d);
      assert (s + [d])[1..] == s[1..] + [d];
      assert Power(|s|) == 10 * Power(|s| - 1);
      Reassociate(s[0] as int - 48, Power(|s| - 1));
    }
  }

  lemma Reassociate(x: int, y: int)
    ensures x * (10 * y) == 10 * (x * y)
  {
  }

  lemma {:induction false} PositionalIsDecimal(s: seq<Byte>)
    requires AllDigits(s)
    ensures Positional(s) == Decimal(s)
  {
    if s != [] {
      PositionalIsDecimal(s[..|s| - 1]);
      PositionalAppend(s[..|s| - 1], s[|s| - 1]);
      assert s[..|s| - 1] + [s[|s| - 1]] == s;
    }
  }

  lemma DigitsAre(s: seq<Byte>)
    ensures DecimalDigits(s) <==> s != [] && AllDigits(s)
    ensures DecimalDigits(s) ==> NumberRun(s)
  {
  }

  lemma RunAppend(s: seq<Byte>, t: seq<Byte>)
    requires NumberRun(s) && NumberRun(t)
    ensures NumberRun(s + t)
  {
  }

  lemma TailRuns(n: Numeral)
    requires IsNumeral(n)
    ensures NumberRun(FractionText(n.fraction)) && NumberRun(ExponentText(n.exponent))
    ensures FractionText(n.fraction) == [] <==> n.fraction.None?
    ensures ExponentText(n.exponent) == [] <==> n.exponent.None?
    ensures n.fraction.Some? ==> FractionText(n.fraction)[0] == 46
    ensures n.exponent.Some? ==> ExponentText(n.exponent)[0] in {101, 69}
  {
    if n.fraction.Some? {
      DigitsAre(n.fraction.value);
    }
    if n.exponent.Some? {
      DigitsAre(n.exponent.value.digits);
    }
  }

  /** The text of a number is one lexeme, and the code's overflow test on it is the one above. */
  lemma NumeralIsNum(n: Numeral)
    requires IsNumeral(n)
    ensures Lexical(Num(Unsigned(n)))
    ensures Unsigned(n) + Fix(Unsigned(n)) ==
            Unsigned(if TooLong(n) then n.(fraction := Some([48])) else n)
  {
    hide Decimal, Positional;
    var t := Unsigned(n);
    DigitsAre(n.whole);
    TailRuns(n);
    RunAppend(n.whole, FractionText(n.fraction));
    RunAppend(n.whole + FractionText(n.fraction), ExponentText(n.exponent));
    if n.fraction.Some? {
      assert t[|n.whole|] == 46;
    } else if n.exponent.Some? {
      assert t[|n.whole|] == ExponentText(n.exponent)[0];
    } else {
      assert t == n.whole;
      PositionalIsDecimal(t);
    }
    assert !TooLong(n) ==> t + [] == t;
  }

  // ----- tokens as lexemes -----

  function Others(s: seq<Byte>): (ls: seq<Lexeme>)
    ensures |ls| == |s|
  {
    seq(|s|, i requires 0 <= i < |s| => Other(s[i]))
  }

  function LexemesOf(t: Token): seq<Lexeme> {
    match t
    case Text(letters) => [Str(LettersText(letters))]
    case Number(n) => Others(if n.minus then [45] else []) + [Num(Unsigned(n))]
    case _ => Others(TokenText(t))
  }

  function Lexemes(ts: seq<Token>): seq<Lexeme> {
    if ts == [] then [] else LexemesOf(ts[0]) + Lexemes(ts[1..])
  }

  predicate NeverSpecial(s: seq<Byte>) {
    forall i :: 0 <= i < |s| ==> Lexical(Other(s[i]))
  }

  /** Bytes that are neither digits nor quotes nor backslashes are lexemes of their own. */
  lemma {:induction false} OthersFirst(s: seq<Byte>, ls: seq<Lexeme>)
    requires NeverSpecial(s) && Json(ls)
    ensures Json(Others(s) + ls)
    ensures JsonNumbers.Text(Others(s) + ls) == s + JsonNumbers.Text(ls)
    ensures Fixed(Others(s) + ls) == Others(s) + Fixed(ls)
  {
    hide Fix, Lexical, Json, JsonNumbers.Text, Fixed, TextOf;
    if s == [] {
      assert Others(s) + ls == ls && Others(s) + Fixed(ls) == Fixed(ls);
      assert s + JsonNumbers.Text(ls) == JsonNumbers.Text(ls);
    } else {
      var c := Other(s[0]);
      OthersFirst(s[1..], ls);
      OneFirst(c, Others(s[1..]) + ls);
      TextOfOther(s[0]);
      OthersStep(s, ls);
      OthersStep(s, Fixed(ls));
      assert [s[0]] + (s[1..] + JsonNumbers.Text(ls)) == s + JsonNumbers.Text(ls);
    }
  }

  lemma OthersStep(s: seq<Byte>, ls: seq<Lexeme>)
    requires s != []
    ensures [Other(s[0])] + (Others(s[1..]) + ls) == Others(s) + ls
  {
  }

  lemma TextOfOther(c: Byte)
    ensures TextOf(Other(c)) == [c]
  {
  }

  lemma {:induction false} LettersAreBody(letters: seq<Letter>)
    requires IsToken(Text(letters))
    ensures StringBody(LettersText(letters))
  {
    if letters != [] {
      LettersAreBody(letters[1..]);
      var b := LettersText(letters);
      if letters[0].Plain? {
        assert b[1..] == LettersText(letters[1..]);
      } else {
        assert b[2..] == LettersText(letters[1..]);
      }
    }
  }

  lemma WordsNeverSpecial(t: Token)
    requires IsToken(t) && !t.Text? && !t.Number?
    ensures NeverSpecial(TokenText(t)) && TokenText(t) != []
    ensures EndsNumber(t) ==> !InNumber(TokenText(t)[0])
    ensures NeverSpecial([45]) && NeverSpecial([])
  {
  }

  /** A number that something follows starts the lexemes of what follows. */
  lemma NextAfterNumber(ts: seq<Token>)
    requires Tokens(ts) && ts != [] && EndsNumber(ts[0])
    ensures Lexemes(ts) != [] && Lexemes(ts)[0].Other? && !InNumber(Lexemes(ts)[0].c)
  {
    WordsNeverSpecial(ts[0]);
  }

  lemma NumberFirst(n: Numeral, ts: seq<Token>)
    requires IsNumeral(n) && Tokens(ts) && (ts != [] ==> EndsNumber(ts[0]))
    requires Json(Lexemes(ts)) && Fixed(Lexemes(ts)) == Lexemes(Repaired(ts))
    requires JsonNumbers.Text(Lexemes(ts)) == Written(ts)
    ensures var m := if ts != [] && TooLong(n) then n.(fraction := Some([48])) else n;
      var ls := LexemesOf(Number(n)) + Lexemes(ts);
      Json(ls) && JsonNumbers.Text(ls) == TokenText(Number(n)) + Written(ts)
      && Fixed(ls) == LexemesOf(Number(m)) + Lexemes(Repaired(ts))
  {
    hide *;
    var sign := if n.minus then [45] else [];
    var m := if ts != [] && TooLong(n) then n.(fraction := Some([48])) else n;
    NumeralIsNum(n);
    WordsNeverSpecial(Null);
    NothingFollows(ts);
    if ts != [] {
      NextAfterNumber(ts);
    }
    var num, fixed := Num(Unsigned(n)), Num(Unsigned(m));
    OneFirst(num, Lexemes(ts));
    OthersFirst(sign, [num] + Lexemes(ts));
    NumberParts(n, Lexemes(ts), Written(ts));
    NumberParts(m, Lexemes(Repaired(ts)), Written(ts));
    TextOfNum(Unsigned(n));
  }

  lemma TextOfNum(t: seq<Byte>)
    ensures TextOf(Num(t)) == t
  {
  }

  lemma NumberParts(n: Numeral, ls: seq<Lexeme>, rest: seq<Byte>)
    ensures var sign := if n.minus then [45] else [];
      && LexemesOf(Number(n)) + ls == Others(sign) + ([Num(Unsigned(n))] + ls)
      && TokenText(Number(n)) + rest == sign + (Unsigned(n) + rest)
  {
    hide Unsigned, Others;
  }

  lemma NothingFollows(ts: seq<Token>)
    ensures ts == [] ==> Lexemes(ts) == []
  {
  }

  lemma RepairedStep(ts: seq<Token>)
    requires ts != []
    ensures Lexemes(Repaired(ts)) == LexemesOf(Repaired(ts)[0]) + Lexemes(Repaired(ts[1..]))
    ensures Repaired(ts)[0] ==
      if ts[0].Number? && |ts| > 1 && TooLong(ts[0].n) then Number(ts[0].n.(fraction := Some([48]))) else ts[0]
  {
    hide TooLong, LexemesOf;
    assert Repaired(ts)[1..] == Repaired(ts[1..]);
  }

  lemma {:induction false} TokensAreLexemes(ts: seq<Token>)
    requires Tokens(ts)
    ensures Json(Lexemes(ts)) && JsonNumbers.Text(Lexemes(ts)) == Written(ts)
    ensures Fixed(Lexemes(ts)) == Lexemes(Repaired(ts))
  {
    hide Fix, Lexical, InNumber, IsToken, TooLong, LettersText, EndsNumber, LexemesOf, Repaired, NeverSpecial,
         TokenText;
    if ts == [] {
      RepairedNothing();
    } else {
      TokensAreLexemes(ts[1..]);
      RepairedStep(ts);
      TokenFirst(ts);
    }
  }

  lemma RepairedNothing()
    ensures Repaired([]) == []
  {
  }

  lemma TokenFirst(ts: seq<Token>)
    requires ts != [] && Tokens(ts) && Json(Lexemes(ts[1..])) && JsonNumbers.Text(Lexemes(ts[1..])) == Written(ts[1..])
    requires Fixed(Lexemes(ts[1..])) == Lexemes(Repaired(ts[1..]))
    ensures var ls := LexemesOf(ts[0]) + Lexemes(ts[1..]);
      Json(ls) && JsonNumbers.Text(ls) == TokenText(ts[0]) + Written(ts[1..])
      && Fixed(ls) == LexemesOf(Repaired(ts)[0]) + Lexemes(Repaired(ts[1..]))
  {
    hide Fix, InNumber, TooLong, LettersText, EndsNumber, Written, Lexemes, Json, JsonNumbers.Text, Fixed, NeverSpecial,
         Repaired;
    RepairedStep(ts);
    match ts[0]
    case Text(letters) =>
      LettersAreBody(letters);
      OneFirst(Str(LettersText(letters)), Lexemes(ts[1..]));
    case Number(n) =>
      NumberFirst(n, ts[1..]);
    case _ =>
      WordsNeverSpecial(ts[0]);
      OthersFirst(TokenText(ts[0]), Lexemes(ts[1..]));
  }

  /** On every text of tokens in which numbers are followed by white space, a comma, a colon or a closing bracket or
      brace, the rewriting writes the repaired tokens: exactly the numbers without fraction and exponent whose digits
      write more than 2^63 - 1, and that something follows, gain ".0". */
  lemma RewritesByGrammar(ts: seq<Token>)
    requires Tokens(ts)
    ensures Rewrite(Written(ts)) == Written(Repaired(ts))
  {
    hide *;
    TokensAreLexemes(ts);
    RepairedAreTokens(ts);
    TokensAreLexemes(Repaired(ts));
    RewritesExactlyTheOverflows(Lexemes(ts));
  }

  lemma {:induction false} RepairedAreTokens(ts: seq<Token>)
    requires Tokens(ts)
    ensures Tokens(Repaired(ts))
    ensures |Repaired(ts)| == |ts| && (ts != [] && EndsNumber(ts[0]) ==> Repaired(ts)[0] == ts[0])
  {
    hide EndsNumber, TooLong, LettersText;
    if ts != [] {
      RepairedAreTokens(ts[1..]);
      assert Repaired(ts)[1..] == Repaired(ts[1..]);
      EndsNumberIsMark(ts[0]);
    }
  }

  lemma EndsNumberIsMark(t: Token)
    ensures EndsNumber(t) ==> t.Mark?
  {
  }
}
