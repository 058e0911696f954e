/** util.c: the rewriting of over-long JSON integers into reals before the text is parsed. */
module JsonNumbers {
  import opened Bytes

  const QUOTE: Byte := 34
  const BACKSLASH: Byte := 92
  const INT64_MAX: int := 0x7FFF_FFFF_FFFF_FFFF

  predicate IsDigit(c: Byte) {
    48 <= c <= 57
  }

  /** Any of ".eE+-". */
  predicate IsMark(c: Byte) {
    c == 46 || c == 101 || c == 69 || c == 43 || c == 45
  }

  /** The bytes that keep a number going. */
  predicate InNumber(c: Byte) {
    IsDigit(c) || IsMark(c)
  }

  predicate AllDigits(t: seq<Byte>) {
    forall i :: 0 <= i < |t| ==> IsDigit(t[i])
  }

  function Decimal(t: seq<Byte>): nat
    requires AllDigits(t)
  {
    if t == [] then 0 else TimesTen(Decimal(t[..|t| - 1])) + (t[|t| - 1] as int - 48)
  }

  function TimesTen(n: nat): nat {
    10 * n
  }

  /** strtoll stops at the NUL and reports ERANGE: the text is an integer beyond the signed 64-bit range. */
  predicate Overflows(t: seq<Byte>) {
    AllDigits(t) && Decimal(t) > INT64_MAX
  }

  const POINT_ZERO: seq<Byte> := [46, 48]

  function Fix(t: seq<Byte>): seq<Byte> {
    if Overflows(t) then POINT_ZERO else []
  }

  /** What is still written for the text s, inside or outside a string, after the number text tok
      (empty outside a number). */
  function Emit(s: seq<Byte>, inStr: bool, tok: seq<Byte>): seq<Byte>
    decreases |s|
  {
    if s == [] then []
    else if s[0] == QUOTE then [s[0]] + Emit(s[1..], !inStr, More(tok, [s[0]]))
    else if s[0] == BACKSLASH then
      if |s| == 1 then [s[0]] else [s[0]] + [s[1]] + Emit(s[2..], inStr, More(tok, [s[0]] + [s[1]]))
    else if !inStr && tok == [] && IsDigit(s[0]) then [s[0]] + Emit(s[1..], inStr, [s[0]])
    else if tok != [] && !InNumber(s[0]) then Fix(tok) + [s[0]] + Emit(s[1..], inStr, [])
    else [s[0]] + Emit(s[1..], inStr, More(tok, [s[0]]))
  }

  function More(tok: seq<Byte>, s: seq<Byte>): seq<Byte> {
    if tok == [] then [] else tok + s
  }

  function Rewrite(s: seq<Byte>): seq<Byte> {
    Emit(s, false, [])
  }

  // ---- JSON text as lexemes ----

  /** A string, a number run, or any other single byte (a minus sign before a number is one of these). */
  datatype Lexeme = Str(body: seq<Byte>) | Num(text: seq<Byte>) | Other(c: Byte)

  /** No quote ends the string early, and every backslash has its partner. */
  predicate StringBody(b: seq<Byte>)
    decreases |b|
  {
    b == [] || (if b[0] == BACKSLASH then |b| >= 2 && StringBody(b[2..]) else b[0] != QUOTE && StringBody(b[1..]))
  }

  predicate NumberRun(t: seq<Byte>) {
    forall i :: 0 <= i < |t| ==> InNumber(t[i])
  }

  predicate Lexical(l: Lexeme) {
    match l
    case Str(b) => StringBody(b)
    case Num(t) => t != [] && IsDigit(t[0]) && NumberRun(t)
    case Other(c) => !IsDigit(c) && c != QUOTE && c != BACKSLASH
  }

  /** A number is followed by nothing or by a byte that ends it. */
  predicate Json(ls: seq<Lexeme>) {
    ls == [] || (Lexical(ls[0]) && Json(ls[1..]) && (ls[0].Num? && |ls| > 1 ==> ls[1].Other? && !InNumber(ls[1].c)))
  }

  function TextOf(l: Lexeme): seq<Byte> {
    match l
    case Str(b) => [QUOTE] + b + [QUOTE]
    case Num(t) => t
    case Other(c) => [c]
  }

  function Text(ls: seq<Lexeme>): seq<Byte> {
    if ls == [] then [] else TextOf(ls[0]) + Text(ls[1..])
  }

  /** ".0" after every number that something follows and that is all digits and over 2^63 - 1; nothing else. */
  function Fixed(ls: seq<Lexeme>): seq<Lexeme> {
    if ls == [] then []
    else [if ls[0].Num? && |ls| > 1 then Num(ls[0].text + Fix(ls[0].text)) else ls[0]] + Fixed(ls[1..])
  }

  lemma EmitPlain(c: Byte, rest: seq<Byte>, inStr: bool)
    requires c != QUOTE && c != BACKSLASH && (inStr || !IsDigit(c))
    ensures Emit([c] + rest, inStr, []) == [c] + Emit(rest, inStr, [])
  {
    assert ([c] + rest)[1..] == rest;
  }

  lemma EmitQuote(rest: seq<Byte>, inStr: bool)
    ensures Emit([QUOTE] + rest, inStr, []) == [QUOTE] + Emit(rest, !inStr, [])
  {
    assert ([QUOTE] + rest)[1..] == rest;
  }

  lemma EmitPair(c: Byte, rest: seq<Byte>, inStr: bool)
    ensures Emit([BACKSLASH] + [c] + rest, inStr, []) == [BACKSLASH] + [c] + Emit(rest, inStr, [])
  {
    assert ([BACKSLASH] + [c] + rest)[2..] == rest;
  }

  /** Inside a string everything is copied, up to and including the quote that ends it. */
  lemma {:induction false} StringIsCopied(b: seq<Byte>, rest: seq<Byte>)
    requires StringBody(b)
    ensures Emit(b + [QUOTE] + rest, true, []) == b + [QUOTE] + Emit(rest, false, [])
    decreases |b|
  {
    hide Emit;
    if b == [] {
      assert b + [QUOTE] + rest == [QUOTE] + rest;
      EmitQuote(rest, true);
    } else if b[0] == BACKSLASH {
      assert b + [QUOTE] + rest == [BACKSLASH] + [b[1]] + (b[2..] + [QUOTE] + rest);
      EmitPair(b[1], b[2..] + [QUOTE] + rest, true);
      StringIsCopied(b[2..], rest);
      assert b == [BACKSLASH] + [b[1]] + b[2..];
    } else {
      assert b + [QUOTE] + rest == [b[0]] + (b[1..] + [QUOTE] + rest);
      EmitPlain(b[0], b[1..] + [QUOTE] + rest, true);
      StringIsCopied(b[1..], rest);
      assert b == [b[0]] + b[1..];
    }
  }

  lemma EmitInNumber(tok: seq<Byte>, c: Byte, rest: seq<Byte>)
    requires tok != [] && InNumber(c)
    ensures Emit([c] + rest, false, tok) == [c] + Emit(rest, false, tok + [c])
  {
    assert ([c] + rest)[1..] == rest;
  }

  lemma {:induction false} NumberIsCopied(tok: seq<Byte>, t: seq<Byte>, rest: seq<Byte>)
    requires tok != [] && NumberRun(t)
    ensures Emit(t + rest, false, tok) == t + Emit(rest, false, tok + t)
    decreases |t|
  {
    hide Emit, InNumber;
    if t == [] {
      assert t + rest == rest && tok + t == tok;
    } else {
      assert t + rest == [t[0]] + (t[1..] + rest);
      EmitInNumber(tok, t[0], t[1..] + rest);
      NumberIsCopied(tok + [t[0]], t[1..], rest);
      assert t == [t[0]] + t[1..] && tok + [t[0]] + t[1..] == tok + t;
    }
  }

  lemma EmitStart(c: Byte, rest: seq<Byte>)
    requires IsDigit(c)
    ensures Emit([c] + rest, false, []) == [c] + Emit(rest, false, [c])
  {
    assert ([c] + rest)[1..] == rest;
  }

  lemma EmitEnd(tok: seq<Byte>, rest: seq<Byte>)
    requires rest != [] ==> rest[0] != QUOTE && rest[0] != BACKSLASH && !InNumber(rest[0])
    ensures tok != [] ==> Emit(rest, false, tok) == (if rest == [] then [] else Fix(tok)) + Emit(rest, false, [])
  {
    hide Fix;
    if rest != [] && tok != [] {
      EmitPlain(rest[0], rest[1..], false);
      assert [rest[0]] + rest[1..] == rest;
      assert Fix(tok) + [rest[0]] + Emit(rest[1..], false, []) == Fix(tok) + ([rest[0]] + Emit(rest[1..], false, []));
    }
  }

  lemma NumberIsFixed(t: seq<Byte>, rest: seq<Byte>)
    requires Lexical(Num(t))
    requires rest != [] ==> rest[0] != QUOTE && rest[0] != BACKSLASH && !InNumber(rest[0])
    ensures Emit(t + rest, false, []) == t + (if rest == [] then [] else Fix(t)) + Emit(rest, false, [])
  {
    hide Emit, Fix, InNumber, IsDigit;
    assert t == [t[0]] + t[1..] && t + rest == [t[0]] + (t[1..] + rest);
    EmitStart(t[0], t[1..] + rest);
    NumberIsCopied([t[0]], t[1..], rest);
    EmitEnd(t, rest);
    assert [t[0]] + (t[1..] + Emit(rest, false, t)) == t + Emit(rest, false, t);
  }

  lemma StringLexeme(b: seq<Byte>, rest: seq<Byte>)
    requires StringBody(b)
    ensures Emit([QUOTE] + b + [QUOTE] + rest, false, []) == [QUOTE] + b + [QUOTE] + Emit(rest, false, [])
  {
    hide Emit, StringBody;
    assert [QUOTE] + b + [QUOTE] + rest == [QUOTE] + (b + [QUOTE] + rest);
    EmitQuote(b + [QUOTE] + rest, false);
    StringIsCopied(b, rest);
    assert [QUOTE] + (b + [QUOTE] + Emit(rest, false, [])) == [QUOTE] + b + [QUOTE] + Emit(rest, false, []);
  }

  lemma StartOf(ls: seq<Lexeme>)
    requires ls != [] && ls[0].Other?
    ensures Text(ls) != [] && Text(ls)[0] == ls[0].c
  {
  }

  /** On JSON text the rewriting puts ".0" after exactly the terminated integers out of range. */
  lemma {:induction false} RewritesExactlyTheOverflows(ls: seq<Lexeme>)
    requires Json(ls)
    ensures Rewrite(Text(ls)) == Text(Fixed(ls))
  {
    hide Emit, Fix, InNumber, IsDigit, StringBody, NumberRun;
    if ls != [] {
      var rest := Text(ls[1..]);
      RewritesExactlyTheOverflows(ls[1..]);
      FixedStep(ls);
      match ls[0]
      case Str(b) =>
        StringLexeme(b, rest);
      case Num(t) =>
        if |ls| > 1 {
          StartOf(ls[1..]);
        }
        NumberIsFixed(t, rest);
      case Other(c) =>
        EmitPlain(c, rest, false);
    } else {
      assert Text(ls) == [] && Fixed(ls) == [];
      EmitNothing();
    }
  }

  lemma EmitNothing()
    ensures Emit([], false, []) == []
  {
  }

  lemma FixedStep(ls: seq<Lexeme>)
    requires ls != []
    ensures Text(Fixed(ls)) == TextOf(Fixed(ls)[0]) + Text(Fixed(ls[1..]))
    ensures Fixed(ls)[0] == if ls[0].Num? && |ls| > 1 then Num(ls[0].text + Fix(ls[0].text)) else ls[0]
    ensures |Fixed(ls)| == 1 + |Fixed(ls[1..])| && Fixed(ls)[1..] == Fixed(ls[1..])
  {
    hide Fix, TextOf;
    assert Fixed(ls)[1..] == Fixed(ls[1..]);
  }

  lemma FixedOnce(t: seq<Byte>)
    requires t != [] && IsDigit(t[0]) && NumberRun(t)
    ensures Fix(t + Fix(t)) == [] || Fix(t) == []
    ensures Lexical(Num(t + Fix(t)))
  {
    if Fix(t) != [] {
      assert (t + Fix(t))[|t|] == 46;
    }
  }

  lemma {:induction false} FixedIsJson(ls: seq<Lexeme>)
    requires Json(ls)
    ensures Json(Fixed(ls)) && Fixed(Fixed(ls)) == Fixed(ls)
  {
    hide Fix, InNumber, IsDigit, StringBody, NumberRun;
    if ls != [] {
      FixedIsJson(ls[1..]);
      FixedStep(ls);
      FixedStep(Fixed(ls));
      if |ls| > 1 {
        FixedStep(ls[1..]);
      }
      if ls[0].Num? {
        StillANumber(ls[0].text);
      }
      assert Fixed(ls) == [Fixed(ls)[0]] + Fixed(ls[1..]);
      assert Fixed(Fixed(ls)) == [Fixed(Fixed(ls))[0]] + Fixed(Fixed(ls[1..]));
    }
  }

  lemma StillANumber(t: seq<Byte>)
    requires Lexical(Num(t))
    ensures Lexical(Num(t + Fix(t))) && t + Fix(t) + Fix(t + Fix(t)) == t + Fix(t)
  {
    FixedOnce(t);
    if Fix(t) == [] {
      assert t + Fix(t) == t;
    }
  }

  /** A second rewriting changes nothing. */
  lemma RewriteIsIdempotent(ls: seq<Lexeme>)
    requires Json(ls)
    ensures Rewrite(Rewrite(Text(ls))) == Rewrite(Text(ls))
  {
    RewritesExactlyTheOverflows(ls);
    FixedIsJson(ls);
    RewritesExactlyTheOverflows(Fixed(ls));
  }

  /** The text of a number pays for the two bytes that may be added after it. */
  lemma {:induction false} EmitBound(s: seq<Byte>, inStr: bool, tok: seq<Byte>)
    ensures |Emit(s, inStr, tok)| <= 2 * |s| + |tok|
    decreases |s|
  {
    hide IsDigit, InNumber, Overflows;
    if s == [] {
    } else if s[0] == QUOTE {
      EmitBound(s[1..], !inStr, More(tok, [s[0]]));
    } else if s[0] == BACKSLASH {
      if |s| > 1 {
        EmitBound(s[2..], inStr, More(tok, [s[0]] + [s[1]]));
      }
    } else if !inStr && tok == [] && IsDigit(s[0]) {
      EmitBound(s[1..], inStr, [s[0]]);
    } else if tok != [] && !InNumber(s[0]) {
      EmitBound(s[1..], inStr, []);
    } else {
      EmitBound(s[1..], inStr, More(tok, [s[0]]));
    }
  }

  function Pow10(n: nat): (r: nat)
    ensures r > 0
  {
    if n == 0 then 1 else TimesTen(Pow10(n - 1))
  }

  lemma {:induction false} DecimalBound(t: seq<Byte>)
    requires AllDigits(t)
    ensures Decimal(t) < Pow10(|t|)
  {
    if t != [] {
      DecimalBound(t[..|t| - 1]);
    }
  }

  /** The test that the number has more than four characters never decides anything. */
  lemma ShortNumbersFit(t: seq<Byte>)
    requires |t| <= 4
    ensures !Overflows(t)
  {
    if AllDigits(t) {
      DecimalBound(t);
      assert Pow10(1) == 10 && Pow10(2) == 100;
      assert Pow10(3) == 1000 && Pow10(4) == 10000;
    }
  }

  // ---- the sign is not looked at ----

  const MINUS: Byte := 45

  lemma {:induction false} FixedAt(ls: seq<Lexeme>, k: nat)
    requires k < |ls|
    ensures |Fixed(ls)| == |ls|
    ensures Fixed(ls)[k] == if ls[k].Num? && k + 1 < |ls| then Num(ls[k].text + Fix(ls[k].text)) else ls[k]
  {
    hide Fix;
    if k > 0 {
      FixedAt(ls[1..], k - 1);
    } else if |ls| > 1 {
      FixedAt(ls[1..], 0);
    }
  }

  /** A terminated integer after a minus sign gains ".0" although it fits in 64 bits exactly when it is -2^63. */
  lemma OnlyTheMinimumIsLost(ls: seq<Lexeme>, k: nat)
    requires Json(ls) && 0 < k && k + 1 < |ls|
    requires ls[k - 1] == Other(MINUS) && ls[k].Num? && AllDigits(ls[k].text)
    ensures Rewrite(Text(ls)) == Text(Fixed(ls)) && |Fixed(ls)| == |ls|
    ensures Fixed(ls)[k] == Num(ls[k].text + POINT_ZERO) && -(Decimal(ls[k].text) as int) >= -INT64_MAX - 1
            <==> Decimal(ls[k].text) == INT64_MAX + 1
  {
    hide Json, Text, Rewrite, Decimal;
    RewritesExactlyTheOverflows(ls);
    FixedAt(ls, k);
    var t := ls[k].text;
    assert |t + Fix(t)| == |t| + |Fix(t)|;
  }

  lemma Digit(t: seq<Byte>, n: nat, d: nat) returns (r: seq<Byte>)
    requires AllDigits(t) && Decimal(t) == n && d <= 9
    ensures r == t + [48 + d] && AllDigits(r) && Decimal(r) == 10 * n + d
  {
    r := t + [48 + d];
    assert r[..|t|] == t;
  }

  /** Three more digits. */
  lemma Digits(t: seq<Byte>, n: nat, a: nat, b: nat, c: nat) returns (r: seq<Byte>)
    requires AllDigits(t) && Decimal(t) == n && a <= 9 && b <= 9 && c <= 9
    ensures r == t + [48 + a, 48 + b, 48 + c]
    ensures AllDigits(r) && Decimal(r) == 1000 * n + 100 * a + 10 * b + c
  {
    hide AllDigits, Decimal;
    r := Digit(t, n, a);
    r := Digit(r, 10 * n + a, b);
    r := Digit(r, 10 * (10 * n + a) + b, c);
  }

  /** The digits 9223372036854775808. */
  function MinimumDigits(): seq<Byte> {
    [57] + [50, 50, 51] + [51, 55, 50] + [48, 51, 54] + [56, 53, 52] + [55, 55, 53] + [56, 48, 56]
  }

  lemma NoDigits()
    ensures AllDigits([]) && Decimal([]) == 0
  {
  }

  lemma MinimumIs()
    ensures AllDigits(MinimumDigits()) && Decimal(MinimumDigits()) == INT64_MAX + 1
  {
    hide AllDigits, Decimal;
    NoDigits();
    var t := Digit([], 0, 9);
    assert t == [57];
    t := Digits(t, 9, 2, 2, 3);
    t := Digits(t, 9_223, 3, 7, 2);
    t := Digits(t, 9_223_372, 0, 3, 6);
    t := Digits(t, 9_223_372_036, 8, 5, 4);
    t := Digits(t, 9_223_372_036_854, 7, 7, 5);
    t := Digits(t, 9_223_372_036_854_775, 8, 0, 8);
  }

  /** "-9223372036854775808," becomes "-9223372036854775808.0,". */
  lemma MinimumIsRewritten()
    ensures Rewrite([MINUS] + MinimumDigits() + [44]) == [MINUS] + MinimumDigits() + [46, 48] + [44]
  {
    var t := MinimumDigits();
    MinimumIs();
    var ls := [Other(MINUS), Num(t), Other(44)];
    ThreeLexemes(t);
    hide Rewrite, Fix, AllDigits, Decimal, MinimumDigits, Text, Json, Fixed;
    RewritesExactlyTheOverflows(ls);
    Fixes(t);
  }

  lemma Fixes(t: seq<Byte>)
    requires AllDigits(t) && Decimal(t) > INT64_MAX
    ensures Fix(t) == [46, 48]
  {
  }

  /** One lexeme in front of others. */
  lemma OneFirst(l: Lexeme, ls: seq<Lexeme>)
    requires Lexical(l) && Json(ls) && (l.Num? && ls != [] ==> ls[0].Other? && !InNumber(ls[0].c))
    ensures Json([l] + ls) && Text([l] + ls) == TextOf(l) + Text(ls)
    ensures Fixed([l] + ls) == [if l.Num? && ls != [] then Num(l.text + Fix(l.text)) else l] + Fixed(ls)
  {
    hide Fix, Lexical, InNumber, TextOf;
    assert ([l] + ls)[1..] == ls;
  }

  lemma SpecialBytes(t: seq<Byte>)
    requires t != [] && AllDigits(t)
    ensures Lexical(Other(44)) && Lexical(Other(MINUS)) && Lexical(Num(t)) && !InNumber(44)
    ensures Json([]) && Text([]) == [] && Fixed([]) == []
  {
  }

  lemma ThreeLexemes(t: seq<Byte>)
    requires t != [] && AllDigits(t)
    ensures var ls := [Other(MINUS), Num(t), Other(44)];
      Json(ls) && Text(ls) == [MINUS] + t + [44] && Text(Fixed(ls)) == [MINUS] + t + Fix(t) + [44]
  {
    hide *;
    var end := [Other(44)];
    SpecialBytes(t);
    OneFirst(Other(44), []);
    assert [Other(44)] + [] == end;
    OneFirst(Num(t), end);
    OneFirst(Other(MINUS), [Num(t)] + end);
    assert [Other(MINUS)] + ([Num(t)] + end) == [Other(MINUS), Num(t), Other(44)];
    var fixed := Num(t + Fix(t));
    assert [Other(MINUS)] + ([fixed] + end) == [Other(MINUS), fixed, Other(44)];
    TextOfThree(t);
    TextOfThree(t + Fix(t));
    assert [MINUS] + (t + Fix(t)) + [44] == [MINUS] + t + Fix(t) + [44];
  }

  lemma TextOfThree(t: seq<Byte>)
    ensures Text([Other(MINUS), Num(t), Other(44)]) == [MINUS] + t + [44]
  {
    hide Text;
    TextFirst(Other(MINUS), [Num(t), Other(44)]);
    TextFirst(Num(t), [Other(44)]);
    TextFirst(Other(44), []);
    NoText();
    assert [Other(44)] + [] == [Other(44)] && [Num(t)] + [Other(44)] == [Num(t), Other(44)];
    assert [Other(MINUS)] + [Num(t), Other(44)] == [Other(MINUS), Num(t), Other(44)];
    assert [MINUS] + (t + [44]) == [MINUS] + t + [44];
  }

  lemma TextFirst(l: Lexeme, ls: seq<Lexeme>)
    ensures Text([l] + ls) == TextOf(l) + Text(ls)
  {
    assert ([l] + ls)[1..] == ls;
  }

  lemma NoText()
    ensures Text([]) == []
  {
  }

  // ---- the loop over the output buffer ----

  /** The buffer starts with `done` and is zero after it, as calloc left it. */
  ghost predicate Written(out: array<Byte>, done: seq<Byte>)
    reads out
  {
    |done| <= out.Length && out[..] == done + Zeros(out.Length - |done|)
  }

  method Put(out: array<Byte>, off: nat, c: Byte, ghost done: seq<Byte>) returns (next: nat)
    requires Written(out, done) && off == |done| < out.Length
    modifies out
    ensures Written(out, done + [c]) && next == |done + [c]|
  {
    out[off] := c;
    next := off + 1;
  }

  /** What has been written and what the rest will add make up the whole; `tok` is the number being written. */
  ghost predicate Going(s: seq<Byte>, i: nat, inStr: bool, inInt: bool, intoff: nat, done: seq<Byte>, tok: seq<Byte>) {
    i <= |s| && Rewrite(s) == done + Emit(s[i..], inStr, tok)
    && (inInt <==> tok != []) && (inInt ==> intoff + |tok| == |done| && done[intoff..] == tok)
  }

  lemma Room(s: seq<Byte>, i: nat, inStr: bool, inInt: bool, intoff: nat, done: seq<Byte>, tok: seq<Byte>)
    requires Going(s, i, inStr, inInt, intoff, done, tok)
    ensures |done| <= |Rewrite(s)| <= 2 * |s|
    ensures i == |s| ==> Rewrite(s) == done
  {
    EmitBound(s, false, []);
  }

  lemma AtQuote(s: seq<Byte>, i: nat, inStr: bool, inInt: bool, intoff: nat, done: seq<Byte>, tok: seq<Byte>)
    requires Going(s, i, inStr, inInt, intoff, done, tok) && i < |s| && s[i] == QUOTE
    ensures Going(s, i + 1, !inStr, inInt, intoff, done + [s[i]], More(tok, [s[i]]))
  {
    Moved(s, i, [s[i]], Emit(s[i + 1..], !inStr, More(tok, [s[i]])), done, intoff);
  }

  lemma AtBackslash(s: seq<Byte>, i: nat, inStr: bool, inInt: bool, intoff: nat, done: seq<Byte>, tok: seq<Byte>)
    requires Going(s, i, inStr, inInt, intoff, done, tok) && i < |s| && s[i] == BACKSLASH
    ensures i + 1 == |s| ==> Rewrite(s) == done + [s[i]] && |Rewrite(s)| <= 2 * |s|
    ensures i + 1 < |s| ==>
      Going(s, i + 2, inStr, inInt, intoff, done + [s[i]] + [s[i + 1]], More(tok, [s[i]] + [s[i + 1]]))
  {
    if i + 1 == |s| {
      Room(s, i, inStr, inInt, intoff, done, tok);
    } else {
      var two := [s[i]] + [s[i + 1]];
      Moved(s, i, two, Emit(s[i + 2..], inStr, More(tok, two)), done, intoff);
      assert done + two == done + [s[i]] + [s[i + 1]];
    }
  }

  lemma AtNumber(s: seq<Byte>, i: nat, inStr: bool, inInt: bool, intoff: nat, done: seq<Byte>, tok: seq<Byte>)
    requires Going(s, i, inStr, inInt, intoff, done, tok) && i < |s|
    requires !inStr && !inInt && IsDigit(s[i])
    ensures Going(s, i + 1, inStr, true, |done|, done + [s[i]], [s[i]])
  {
    Moved(s, i, [s[i]], Emit(s[i + 1..], inStr, [s[i]]), done, intoff);
  }

  lemma AtEnd(s: seq<Byte>, i: nat, inStr: bool, inInt: bool, intoff: nat, done: seq<Byte>, tok: seq<Byte>)
    requires Going(s, i, inStr, inInt, intoff, done, tok) && i < |s|
    requires inInt && s[i] != QUOTE && s[i] != BACKSLASH && !InNumber(s[i])
    ensures Going(s, i + 1, inStr, false, intoff, done + Fix(tok) + [s[i]], [])
  {
    var two := Fix(tok) + [s[i]];
    Moved(s, i, two, Emit(s[i + 1..], inStr, []), done, intoff);
    assert done + two == done + Fix(tok) + [s[i]];
  }

  lemma AtOther(s: seq<Byte>, i: nat, inStr: bool, inInt: bool, intoff: nat, done: seq<Byte>, tok: seq<Byte>)
    requires Going(s, i, inStr, inInt, intoff, done, tok) && i < |s|
    requires s[i] != QUOTE && s[i] != BACKSLASH
    requires (inStr || inInt || !IsDigit(s[i])) && (!inInt || InNumber(s[i]))
    ensures Going(s, i + 1, inStr, inInt, intoff, done + [s[i]], More(tok, [s[i]]))
  {
    Moved(s, i, [s[i]], Emit(s[i + 1..], inStr, More(tok, [s[i]])), done, intoff);
  }

  lemma Moved(s: seq<Byte>, i: nat, put: seq<Byte>, rest: seq<Byte>, done: seq<Byte>, intoff: nat)
    requires i < |s|
    ensures done + (put + rest) == done + put + rest
    ensures s[i..][1..] == s[i + 1..] && (i + 1 < |s| ==> s[i..][2..] == s[i + 2..])
    ensures intoff <= |done| ==> (done + put)[intoff..] == done[intoff..] + put
    ensures (done + put)[|done|..] == put
  {
  }

  /** In a number the buffer holds its text, from intoff on. */
  lemma TokenAt(out: array<Byte>, s: seq<Byte>, i: nat, inStr: bool, intoff: nat, done: seq<Byte>, tok: seq<Byte>)
    requires Written(out, done) && Going(s, i, inStr, true, intoff, done, tok)
    ensures intoff + |tok| == |done| <= out.Length && out[intoff..|done|] == tok
  {
    assert out[..][intoff..|done|] == done[intoff..];
  }

  /** hack_json_numbers; s is the text before the NUL. */
  method HackJsonNumbers(s: seq<Byte>) returns (out: array<Byte>)
    ensures fresh(out) && out.Length == 2 * |s| + 1 && |Rewrite(s)| <= 2 * |s|
    ensures out[..] == Rewrite(s) + Zeros(out.Length - |Rewrite(s)|)
  {
    hide Going, Rewrite, IsDigit, IsMark, Overflows, More, Written;
    out := new Byte[2 * |s| + 1](_ => 0);
    var i, off, intoff := 0, 0, 0;
    var inStr, inInt := false, false;
    ghost var done: seq<Byte>, tok: seq<Byte> := [], [];
    WrittenFirst(out);
    Starts(s);
    while i < |s|
      invariant i <= |s| && off == |done| <= |Rewrite(s)| <= 2 * |s| && Written(out, done)
      invariant Going(s, i, inStr, inInt, intoff, done, tok) && (i == |s| ==> Rewrite(s) == done)
    {
      var c := s[i];
      ghost var goal;
      if c == QUOTE {
        AtQuote(s, i, inStr, inInt, intoff, done, tok);
        goal, tok := done + [c], More(tok, [c]);
        inStr := !inStr;
      } else if c == BACKSLASH {
        AtBackslash(s, i, inStr, inInt, intoff, done, tok);
        off := Put(out, off, c, done);
        done := done + [c];
        i := i + 1;
        if i == |s| {
          break;
        }
        goal, tok := done + [s[i]], More(tok, [c] + [s[i]]);
      } else if !inStr && !inInt && IsDigit(c) {
        AtNumber(s, i, inStr, inInt, intoff, done, tok);
        goal, tok := done + [c], [c];
        intoff := off;
        inInt := true;
      } else if inInt && !IsDigit(c) {
        if !IsMark(c) {
          inInt := false;
          AtEnd(s, i, inStr, true, intoff, done, tok);
          TokenAt(out, s, i, inStr, intoff, done, tok);
          goal := done + Fix(tok) + [c];
          Room(s, i + 1, inStr, inInt, intoff, goal, []);
          off := EndNumber(out, intoff, off, done, tok);
          done, tok := done + Fix(tok), [];
        } else {
          AtOther(s, i, inStr, inInt, intoff, done, tok);
          goal, tok := done + [c], More(tok, [c]);
        }
      } else {
        AtOther(s, i, inStr, inInt, intoff, done, tok);
        goal, tok := done + [c], More(tok, [c]);
      }
      Room(s, i + 1, inStr, inInt, intoff, goal, tok);
      off := Put(out, off, s[i], done);
      done := goal;
      i := i + 1;
    }
    WrittenLast(out, done);
  }

  /** The end of a number: its text is read back from the buffer, and ".0" added when it is out of range. */
  method EndNumber(out: array<Byte>, intoff: nat, off: nat, ghost done: seq<Byte>, ghost tok: seq<Byte>)
    returns (next: nat)
    requires Written(out, done) && intoff <= off == |done| && |done + Fix(tok)| < out.Length
    requires out[intoff..off] == tok
    modifies out
    ensures Written(out, done + Fix(tok)) && next == |done + Fix(tok)|
  {
    hide Written, AllDigits, Decimal;
    next := off;
    ShortOrLong(tok);
    assert done + [] == done && done + POINT_ZERO == done + [46] + [48];
    if off - intoff > 4 {
      if Overflows(out[intoff..off]) {
        next := Put(out, next, 46, done);
        next := Put(out, next, 48, done + [46]);
      }
    }
  }

  lemma ShortOrLong(tok: seq<Byte>)
    ensures |tok| <= 4 ==> !Overflows(tok)
  {
    if |tok| <= 4 {
      ShortNumbersFit(tok);
    }
  }

  lemma Starts(s: seq<Byte>)
    ensures Going(s, 0, false, false, 0, [], []) && |Rewrite(s)| <= 2 * |s|
  {
    EmitBound(s, false, []);
    assert s[0..] == s && [] + Rewrite(s) == Rewrite(s);
  }

  lemma WrittenLast(out: array<Byte>, done: seq<Byte>)
    requires Written(out, done)
    ensures |done| <= out.Length && out[..] == done + Zeros(out.Length - |done|)
  {
  }

  lemma WrittenFirst(out: array<Byte>)
    requires forall i :: 0 <= i < out.Length ==> out[i] == 0
    ensures Written(out, [])
  {
  }
}
