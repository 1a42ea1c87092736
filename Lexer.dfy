/** The tokenizer of `src/cmath/expr_parser.cc` (`ExprParser::nextToken`)
    and the parser's error codes.

    The tokenizer reads one token at a cursor into the input.  `eof()` is
    "the cursor is at the end of the input": it guards the digit loop, and
    the parser's loops test the same condition.  A token carries what the
    source keeps beside it in `currentNumber_` and `currentSymbol_`.  Only
    ASCII letters and digits are recognised. */
module Lexer {
  import opened Wrappers

  /** `ExprParser::Token`; `Num` and `Sym` carry the number read and the
      letter seen. */
  datatype Token = Eof | Num(value: nat) | Sym(letter: char)
                 | Plus | Minus | Mul | Div | Pow | RndOpen | RndClose

  /** `ExprParser::ErrorCode`. */
  datatype ErrorCode = UnexpectedCharacter | UnexpectedToken | UnexpectedEof

  /** Where the tokenizer stands: just past the current token, which it
      remembers. */
  datatype Cursor = Cursor(pos: nat, tok: Token)

  predicate IsDigit(c: char) {
    '0' <= c <= '9'
  }

  predicate IsAlpha(c: char) {
    'a' <= c <= 'z' || 'A' <= c <= 'Z'
  }

  /** The seven one-character tokens. */
  function OperatorToken(c: char): (r: Option<Token>)
    ensures r.Some? ==> r.value in {Plus, Minus, Mul, Div, Pow, RndOpen, RndClose}
    ensures r.Some? <==> c in "+-*/^()"
    ensures (r == Some(Plus) <==> c == '+') && (r == Some(Minus) <==> c == '-')
    ensures (r == Some(Mul) <==> c == '*') && (r == Some(Div) <==> c == '/')
    ensures (r == Some(Pow) <==> c == '^')
    ensures (r == Some(RndOpen) <==> c == '(') && (r == Some(RndClose) <==> c == ')')
  {
    match c
    case '+' => Some(Plus)
    case '-' => Some(Minus)
    case '*' => Some(Mul)
    case '/' => Some(Div)
    case '^' => Some(Pow)
    case '(' => Some(RndOpen)
    case ')' => Some(RndClose)
    case _ => None
  }

  /** A character some token starts with. */
  predicate IsTokenStart(c: char) {
    OperatorToken(c).Some? || IsAlpha(c) || IsDigit(c)
  }

  function DigitValue(c: char): (d: nat)
    requires IsDigit(c)
    ensures d < 10
  {
    c as int - '0' as int
  }

  function DigitChar(d: nat): (c: char)
    requires d < 10
    ensures IsDigit(c) && DigitValue(c) == d
  {
    ('0' as int + d) as char
  }

  predicate AllDigits(s: string) {
    forall k :: 0 <= k < |s| ==> IsDigit(s[k])
  }

  /** The number a run of digits accumulates to when each digit multiplies
      the running value by ten and adds itself, as the digit loop does. */
  function DigitsValue(ds: string): nat
    requires AllDigits(ds)
  {
    if ds == [] then 0 else DigitsValue(ds[..|ds| - 1]) * 10 + DigitValue(ds[|ds| - 1])
  }

  /** One more digit of a run, as the digit loop reads it. */
  lemma DigitsStep(s: string, start: nat, pos: nat)
    requires start <= pos < |s| && AllDigits(s[start..pos]) && IsDigit(s[pos])
    ensures AllDigits(s[start..pos + 1])
    ensures DigitsValue(s[start..pos + 1]) == DigitsValue(s[start..pos]) * 10 + DigitValue(s[pos])
  {
    assert s[start..pos + 1] == s[start..pos] + [s[pos]];
    AppendDigits(s[start..pos], s[pos]);
    assert s[start..pos + 1][..pos - start] == s[start..pos];
  }

  function Pow10(k: nat): (r: nat)
    ensures r >= 1
  {
    if k == 0 then 1 else 10 * Pow10(k - 1)
  }

  /** The positional reading of a digit string: the first digit weighs
      ten to the power of the number of digits after it. */
  function PlaceValue(ds: string): nat
    requires AllDigits(ds)
  {
    if ds == [] then 0 else DigitValue(ds[0]) * Pow10(|ds| - 1) + PlaceValue(ds[1..])
  }

  lemma AppendDigits(s: string, d: char)
    requires AllDigits(s) && IsDigit(d)
    ensures AllDigits(s + [d])
  {
    var t := s + [d];
    forall k | 0 <= k < |t| ensures IsDigit(t[k]) {
      if k < |s| { assert t[k] == s[k]; }
    }
  }

  lemma ShiftPlace(a: int, w: int, rest: int, d: int)
    ensures a * (10 * w) + (rest * 10 + d) == (a * w + rest) * 10 + d
  {
  }

  /** Appending a digit to a positional reading shifts it one place. */
  lemma {:induction false} PlaceValueAppend(s: string, d: char)
    requires AllDigits(s) && IsDigit(d)
    ensures AllDigits(s + [d])
    ensures PlaceValue(s + [d]) == PlaceValue(s) * 10 + DigitValue(d)
    decreases |s|
  {
    AppendDigits(s, d);
    var t := s + [d];
    if s == [] {
      assert t[1..] == [];
    } else {
      assert t[0] == s[0];
      assert t[1..] == s[1..] + [d];
      PlaceValueAppend(s[1..], d);
      ShiftPlace(DigitValue(s[0]), Pow10(|s| - 1), PlaceValue(s[1..]), DigitValue(d));
    }
  }

  /** Accumulating from the left gives the positional value. */
  lemma {:induction false} DigitsValueIsPlaceValue(ds: string)
    requires AllDigits(ds)
    ensures DigitsValue(ds) == PlaceValue(ds)
    decreases |ds|
  {
    if ds != [] {
      var n := |ds| - 1;
      DigitsValueIsPlaceValue(ds[..n]);
      PlaceValueAppend(ds[..n], ds[n]);
      assert ds[..n] + [ds[n]] == ds;
    }
  }

  /** The decimal digits of `n`, most significant first, without leading
      zeros. */
  function NatToDigits(n: nat): (s: string)
    ensures |s| >= 1 && AllDigits(s)
  {
    if n < 10 then [DigitChar(n)] else NatToDigits(n / 10) + [DigitChar(n % 10)]
  }

  /** Reading back the digits of a number gives the number. */
  lemma {:induction false} NatToDigitsRoundTrip(n: nat)
    ensures DigitsValue(NatToDigits(n)) == n
  {
    var s := NatToDigits(n);
    if n < 10 {
      assert s[..0] == [];
    } else {
      NatToDigitsRoundTrip(n / 10);
      assert s[..|s| - 1] == NatToDigits(n / 10);
    }
  }

  /** Where the run of digits starting at `i` ends. */
  function DigitRunEnd(s: string, i: nat): (j: nat)
    requires i <= |s|
    ensures i <= j <= |s| && AllDigits(s[i..j])
    ensures j < |s| ==> !IsDigit(s[j])
    decreases |s| - i
  {
    if i < |s| && IsDigit(s[i]) then DigitRunEnd(s, i + 1) else i
  }

  /** A run of digits followed by the end or a non-digit ends there. */
  lemma {:induction false} DigitRunEndAt(s: string, i: nat, end: nat)
    requires i <= end <= |s| && AllDigits(s[i..end])
    requires end < |s| ==> !IsDigit(s[end])
    ensures DigitRunEnd(s, i) == end
    decreases end - i
  {
    if i < end {
      assert s[i] == s[i..end][0];
      assert s[i + 1..end] == s[i..end][1..];
      DigitRunEndAt(s, i + 1, end);
    }
  }

  /** `nextToken` from position `pos`: the new cursor, or the character
      error.  At the end of the input it yields `Eof` and stays put. */
  function Next(input: string, pos: nat): (r: Result<Cursor, ErrorCode>)
    requires pos <= |input|
    ensures pos == |input| ==> r == Ok(Cursor(pos, Eof))
    ensures r.Ok? ==> r.value.pos <= |input| && (pos < |input| ==> pos < r.value.pos)
    ensures r.Ok? ==> (r.value.tok == Eof <==> pos == |input|)
    ensures r.Err? <==> pos < |input| && !IsTokenStart(input[pos])
    ensures r.Err? ==> r.error == UnexpectedCharacter
    ensures r.Ok? && r.value.tok.Sym? ==> IsAlpha(r.value.tok.letter)
  {
    if pos == |input| then Ok(Cursor(pos, Eof))
    else
      var c := input[pos];
      if OperatorToken(c).Some? then Ok(Cursor(pos + 1, OperatorToken(c).value))
      else if IsAlpha(c) then Ok(Cursor(pos + 1, Sym(c)))
      else if IsDigit(c) then
        var j := DigitRunEnd(input, pos + 1);
        Ok(Cursor(j, Num(DigitsValue(input[pos..j]))))
      else Err(UnexpectedCharacter)
  }

  /** Each of `+ - * / ^ ( )` is its own token and moves the cursor by
      exactly one character. */
  lemma NextOperator(input: string, pos: nat)
    requires pos < |input| && input[pos] in "+-*/^()"
    ensures Next(input, pos) == Ok(Cursor(pos + 1, OperatorToken(input[pos]).value))
  {
  }

  /** A letter is a symbol token holding exactly that letter; the next
      letter starts a token of its own. */
  lemma NextLetter(input: string, pos: nat)
    requires pos < |input| && IsAlpha(input[pos])
    ensures Next(input, pos) == Ok(Cursor(pos + 1, Sym(input[pos])))
  {
  }

  /** A maximal run of digits is one number token holding the run's
      decimal value, and the cursor ends just past its last digit. */
  lemma NextDigits(input: string, pos: nat, end: nat)
    requires pos < end <= |input| && AllDigits(input[pos..end])
    requires end < |input| ==> !IsDigit(input[end])
    ensures Next(input, pos) == Ok(Cursor(end, Num(PlaceValue(input[pos..end]))))
  {
    assert input[pos] == input[pos..end][0];
    assert input[pos + 1..end] == input[pos..end][1..];
    DigitRunEndAt(input, pos + 1, end);
    DigitsValueIsPlaceValue(input[pos..end]);
  }

  /** The written form of a number reads back as one token with its value. */
  lemma NextNumberText(input: string, pos: nat, n: nat)
    requires pos + |NatToDigits(n)| <= |input|
    requires input[pos..pos + |NatToDigits(n)|] == NatToDigits(n)
    requires pos + |NatToDigits(n)| < |input| ==> !IsDigit(input[pos + |NatToDigits(n)|])
    ensures Next(input, pos) == Ok(Cursor(pos + |NatToDigits(n)|, Num(n)))
  {
    NextDigits(input, pos, pos + |NatToDigits(n)|);
    DigitsValueIsPlaceValue(NatToDigits(n));
    NatToDigitsRoundTrip(n);
  }

  /** Exactly the characters that start no token are rejected, a space
      among them. */
  lemma NextRejects(input: string, pos: nat)
    requires pos < |input|
    ensures Next(input, pos) == Err(UnexpectedCharacter) <==> !IsTokenStart(input[pos])
    ensures input[pos] == ' ' ==> Next(input, pos) == Err(UnexpectedCharacter)
  {
  }

  /** `ErrorCategory::name`. */
  const CategoryName: string := "ExprParserError"

  /** `ErrorCategory::message`. */
  function Message(code: ErrorCode): (m: string)
    ensures |m| > 0
  {
    match code
    case UnexpectedCharacter => "Unexpected character"
    case UnexpectedToken => "Unexpected token"
    case UnexpectedEof => "Unexpected end of expression"
  }

  /** Each code has its own message. */
  lemma MessagesDistinct(a: ErrorCode, b: ErrorCode)
    ensures Message(a) == Message(b) <==> a == b
  {
  }
}
