/** The calculator's expression evaluator: one left-to-right pass over the
    text that accumulates a pending operand and folds it into the result with
    the previously seen operator whenever an operator or the end of the text
    is reached. There is no operator precedence.

    The source keeps `result` and `current` in doubles; here `result` is a
    `real` and `current` an `int` (it only ever holds sums of integer
    multiples of ten). Rounding and overflow of doubles are not modelled. */
module Evaluator {

  /** The three variables the evaluation loop updates. */
  datatype EvalState = EvalState(result: real, current: int, op: char)

  /** Before the first character: nothing accumulated, pending operator '+'. */
  const Start: EvalState := EvalState(0.0, 0, '+')

  /** The loop reads one character past the end of the text as a NUL. */
  const EndMark: char := '\0'

  predicate IsDigit(c: char) { '0' <= c <= '9' }

  /** Characters that extend the pending operand: the digits and '.'. */
  predicate IsNumeral(c: char) { IsDigit(c) || c == '.' }

  predicate IsOperator(c: char) { c == '+' || c == '-' || c == '*' || c == '/' }

  /** Characters that fold the pending operand into the result. */
  predicate IsSeparator(c: char) { IsOperator(c) || c == EndMark }

  /** The source adds `c - '0'`: the digit's value for a digit, and -2 for '.'. */
  function DigitValue(c: char): int
  {
    c as int - '0' as int
  }

  /** Applies the pending operator; division by zero leaves the result as it
      is, and any other pending character (the NUL) does nothing. */
  function Apply(op: char, result: real, operand: int): real
  {
    if op == '+' then result + operand as real
    else if op == '-' then result - operand as real
    else if op == '*' then result * operand as real
    else if op == '/' then (if operand != 0 then result / operand as real else result)
    else result
  }

  /** One iteration of the evaluation loop. */
  function Step(st: EvalState, c: char): EvalState
  {
    if IsNumeral(c) then st.(current := st.current * 10 + DigitValue(c))
    else if IsSeparator(c) then EvalState(Apply(st.op, st.result, st.current), 0, c)
    else st
  }

  /** The state after reading all of s, starting from st. */
  function Run(st: EvalState, s: string): EvalState
  {
    if s == [] then st else Step(Run(st, s[..|s| - 1]), s[|s| - 1])
  }

  /** The value the source's evaluateExpression returns for expr. */
  function Evaluate(expr: string): real
  {
    Run(Start, expr + [EndMark]).result
  }

  /** The evaluation loop as the source writes it: the index runs up to and
      including the length, the last character read being a NUL. */
  method EvaluateExpression(expr: string) returns (result: real)
    ensures result == Evaluate(expr)
  {
    ghost var text := expr + [EndMark];
    result := 0.0;
    var current := 0;
    var op := '+';
    var i := 0;
    while i <= |expr|
      invariant 0 <= i <= |expr| + 1
      invariant EvalState(result, current, op) == Run(Start, text[..i])
    {
      var c := if i < |expr| then expr[i] else EndMark;
      assert c == text[i] && text[..i + 1] == text[..i] + [c];
      if IsDigit(c) || c == '.' {
        current := current * 10 + DigitValue(c);
      } else if c == '+' || c == '-' || c == '*' || c == '/' || c == EndMark {
        if op == '+' {
          result := result + current as real;
        } else if op == '-' {
          result := result - current as real;
        } else if op == '*' {
          result := result * current as real;
        } else if op == '/' {
          if current != 0 {
            result := result / current as real;
          }
        }
        op := c;
        current := 0;
      }
      i := i + 1;
    }
    assert text[..i] == text;
  }

  // ---------------------------------------------------------------------------
  // Properties of the evaluation

  lemma {:induction false} RunAppend(st: EvalState, a: string, b: string)
    ensures Run(st, a + b) == Run(Run(st, a), b)
    decreases |b|
  {
    if b == [] {
      assert a + b == a;
    } else {
      assert (a + b)[..|a + b| - 1] == a + b[..|b| - 1];
      RunAppend(st, a, b[..|b| - 1]);
    }
  }

  predicate IsNumeralString(d: string)
  {
    forall i :: 0 <= i < |d| ==> IsNumeral(d[i])
  }

  /** The base-10 value the loop accumulates for a run of numeral characters. */
  function NumeralValue(d: string): int
  {
    if d == [] then 0 else NumeralValue(d[..|d| - 1]) * 10 + DigitValue(d[|d| - 1])
  }

  function Pow10(n: nat): int
  {
    if n == 0 then 1 else 10 * Pow10(n - 1)
  }

  /** A run of numerals extends the pending operand in base 10 and leaves the
      result and the pending operator alone. */
  lemma {:induction false} NumeralsExtendOperand(st: EvalState, d: string)
    requires IsNumeralString(d)
    ensures Run(st, d) == st.(current := st.current * Pow10(|d|) + NumeralValue(d))
    decreases |d|
  {
    if d != [] {
      var p := d[..|d| - 1];
      NumeralsExtendOperand(st, p);
      calc {
        (st.current * Pow10(|p|) + NumeralValue(p)) * 10 + DigitValue(d[|d| - 1]);
        st.current * (Pow10(|p|) * 10) + (NumeralValue(p) * 10 + DigitValue(d[|d| - 1]));
        st.current * Pow10(|d|) + NumeralValue(d);
      }
    }
  }

  /** The characters the evaluator does not ignore, in order. */
  function Significant(s: string): string
  {
    if s == [] then []
    else Significant(s[..|s| - 1]) +
         (if IsNumeral(s[|s| - 1]) || IsSeparator(s[|s| - 1]) then [s[|s| - 1]] else [])
  }

  /** Characters that are neither numerals nor separators change nothing. */
  lemma {:induction false} RunIgnoresOtherCharacters(st: EvalState, s: string)
    ensures Run(st, s) == Run(st, Significant(s))
    decreases |s|
  {
    if s != [] {
      var p, c := s[..|s| - 1], s[|s| - 1];
      RunIgnoresOtherCharacters(st, p);
      if IsNumeral(c) || IsSeparator(c) {
        RunAppend(st, Significant(p), [c]);
      } else {
        assert Significant(s) == Significant(p);
      }
    }
  }

  lemma EvaluateIgnoresOtherCharacters(expr: string)
    ensures Evaluate(expr) == Evaluate(Significant(expr))
  {
    RunAppend(Start, expr, [EndMark]);
    RunAppend(Start, Significant(expr), [EndMark]);
    RunIgnoresOtherCharacters(Start, expr);
  }

  // ---------------------------------------------------------------------------
  // Left-to-right evaluation of a sequence of terms

  /** An operator followed by the numerals of its operand. */
  datatype Term = Term(op: char, operand: string)

  /** A first operand followed by operator-operand terms; operands may be
      empty (an operand with no numerals is 0). */
  predicate WellFormed(first: string, rest: seq<Term>)
  {
    IsNumeralString(first) &&
    forall i :: 0 <= i < |rest| ==> IsOperator(rest[i].op) && IsNumeralString(rest[i].operand)
  }

  /** The text of an expression. */
  function Render(first: string, rest: seq<Term>): string
  {
    if rest == [] then first
    else Render(first, rest[..|rest| - 1]) + [rest[|rest| - 1].op] + rest[|rest| - 1].operand
  }

  /** The reference meaning: fold the terms strictly from left to right,
      each operator applied to everything accumulated before it. */
  function FoldLeft(first: string, rest: seq<Term>): real
  {
    if rest == [] then NumeralValue(first) as real
    else Apply(rest[|rest| - 1].op, FoldLeft(first, rest[..|rest| - 1]), NumeralValue(rest[|rest| - 1].operand))
  }

  /** The state after reading a whole expression, before the final NUL: the
      last operand and operator are still pending. */
  function Pending(first: string, rest: seq<Term>): EvalState
  {
    if rest == [] then EvalState(0.0, NumeralValue(first), '+')
    else EvalState(FoldLeft(first, rest[..|rest| - 1]), NumeralValue(rest[|rest| - 1].operand), rest[|rest| - 1].op)
  }

  lemma {:induction false} RunRender(first: string, rest: seq<Term>)
    requires WellFormed(first, rest)
    ensures Run(Start, Render(first, rest)) == Pending(first, rest)
    ensures Apply(Pending(first, rest).op, Pending(first, rest).result, Pending(first, rest).current)
            == FoldLeft(first, rest)
    decreases |rest|
  {
    if rest == [] {
      NumeralsExtendOperand(Start, first);
    } else {
      var p, t := rest[..|rest| - 1], rest[|rest| - 1];
      assert WellFormed(first, p);
      RunRender(first, p);
      var a := Render(first, p);
      RunAppend(Start, a + [t.op], t.operand);
      RunAppend(Start, a, [t.op]);
      NumeralsExtendOperand(EvalState(FoldLeft(first, p), 0, t.op), t.operand);
    }
  }

  /** Evaluation is a strict left-to-right fold of the terms: no precedence. */
  lemma LeftToRight(first: string, rest: seq<Term>)
    requires WellFormed(first, rest)
    ensures Evaluate(Render(first, rest)) == FoldLeft(first, rest)
  {
    RunRender(first, rest);
    RunAppend(Start, Render(first, rest), [EndMark]);
  }

  /** A text made of a single number evaluates to that number; in particular
      the empty text evaluates to 0. */
  lemma SingleNumber(d: string)
    requires IsNumeralString(d)
    ensures Evaluate(d) == NumeralValue(d) as real
  {
    LeftToRight(d, []);
  }

  /** No precedence: "2+3*4" is (2+3)*4. */
  lemma NoPrecedenceExample()
    ensures Evaluate("2+3*4") == 20.0
  {
    var e := [Term('+', "3"), Term('*', "4")];
    assert e[..1] == [Term('+', "3")];
    assert Render("2", e) == "2+3*4";
    LeftToRight("2", e);
  }

  /** Division by zero is skipped: "8/0" is 8 and "8/0+5" is 13. */
  lemma DivisionByZeroExample()
    ensures Evaluate("8/0") == 8.0
    ensures Evaluate("8/0+5") == 13.0
  {
    var e := [Term('/', "0")];
    assert Render("8", e) == "8/0";
    LeftToRight("8", e);
    var f := e + [Term('+', "5")];
    assert f[..1] == e;
    assert Render("8", f) == "8/0+5";
    LeftToRight("8", f);
  }

  /** A trailing operator is applied to operand 0: "5*" is 0. */
  lemma TrailingOperatorExample()
    ensures Evaluate("5*") == 0.0
  {
    var e := [Term('*', "")];
    assert Render("5", e) == "5*";
    LeftToRight("5", e);
  }

  /** '.' is read as a digit of value -2: "3.5" is 285, not 3.5. */
  lemma DecimalPointExample()
    ensures Evaluate("3.5") == 285.0
  {
    assert IsNumeralString("3.5");
    SingleNumber("3.5");
    assert "3.5"[..2] == "3." && "3."[..1] == "3" && "3"[..0] == "";
  }
}
