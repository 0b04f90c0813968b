/** The calculator's state outside the evaluator: the 4x4 grid of buttons,
    the text buffer `input`, and what a mouse press does to that buffer.
    Converting the evaluated number to text (the C++ library's to_string) is
    outside the model and is passed in as the function `toText`. */
module Calculator {
  import opened Geometry
  import opened Evaluator

  datatype Option<T> = None | Some(value: T)

  /** A button: its bounds and the text it stands for. */
  datatype Button = Button(bounds: Rect, value: string)

  /** Button labels in row-major order, top row first. */
  const Labels: seq<string> := ["7", "8", "9", "/",
                                "4", "5", "6", "*",
                                "1", "2", "3", "-",
                                "0", "C", "=", "+"]

  const GridLeft: int := 20
  const GridTop: int := 140
  const Pitch: int := 90
  const ButtonSize: int := 80

  /** The square of the button in the given row and column. */
  function ButtonRect(row: int, col: int): Rect
  {
    Rect((GridLeft + col * Pitch) as real, (GridTop + row * Pitch) as real,
         ButtonSize as real, ButtonSize as real)
  }

  /** The k-th button pushed by the grid construction. */
  function ButtonAt(k: int): Button
    requires 0 <= k < 16
  {
    Button(ButtonRect(k / 4, k % 4), Labels[k])
  }

  predicate IsGrid(buttons: seq<Button>)
  {
    |buttons| == 16 && forall k :: 0 <= k < 16 ==> buttons[k] == ButtonAt(k)
  }

  /** The nested loop that creates the 16 buttons, row by row. */
  method BuildButtons() returns (buttons: seq<Button>)
    ensures |buttons| == 16
    ensures forall k :: 0 <= k < 16 ==>
              buttons[k].value == Labels[k] &&
              buttons[k].bounds == ButtonRect(k / 4, k % 4)
  {
    buttons := [];
    var k := 0;
    for row := 0 to 4
      invariant k == 4 * row && |buttons| == k
      invariant forall j :: 0 <= j < k ==> buttons[j] == ButtonAt(j)
    {
      for col := 0 to 4
        invariant k == 4 * row + col && |buttons| == k
        invariant forall j :: 0 <= j < k ==> buttons[j] == ButtonAt(j)
      {
        assert k / 4 == row && k % 4 == col;
        var b := Button(ButtonRect(row, col), Labels[k]);
        buttons := buttons + [b];
        k := k + 1;
      }
    }
  }

  lemma SquaresApart(ri: int, ci: int, rj: int, cj: int)
    requires ri != rj || ci != cj
    ensures !Intersects(ButtonRect(ri, ci), ButtonRect(rj, cj))
  {
    var a, b := ButtonRect(ri, ci), ButtonRect(rj, cj);
    if ci < cj {
      assert Right(a) <= b.left;
    } else if cj < ci {
      assert Right(b) <= a.left;
    } else if ri < rj {
      assert Bottom(a) <= b.top;
    } else {
      assert Bottom(b) <= a.top;
    }
  }

  /** No two buttons of the grid overlap. */
  lemma ButtonsDoNotOverlap(i: int, j: int)
    requires 0 <= i < 16 && 0 <= j < 16 && i != j
    ensures !Intersects(ButtonAt(i).bounds, ButtonAt(j).bounds)
  {
    assert i == 4 * (i / 4) + i % 4 && j == 4 * (j / 4) + j % 4;
    SquaresApart(i / 4, i % 4, j / 4, j % 4);
  }

  /** The index of the button under the mouse position (x, y), by arithmetic. */
  function HitIndex(x: int, y: int): Option<int>
  {
    if GridLeft <= x && GridTop <= y &&
       (x - GridLeft) / Pitch < 4 && (y - GridTop) / Pitch < 4 &&
       (x - GridLeft) % Pitch < ButtonSize && (y - GridTop) % Pitch < ButtonSize
    then Some(4 * ((y - GridTop) / Pitch) + (x - GridLeft) / Pitch)
    else None
  }

  /** Along one axis: v lies in the idx-th square exactly when its offset
      from the grid's origin has quotient idx and a remainder inside the square. */
  lemma AxisHit(v: int, origin: int, idx: int)
    requires 0 <= idx < 4
    ensures (origin + idx * Pitch <= v < origin + idx * Pitch + ButtonSize) <==>
            (origin <= v && (v - origin) / Pitch == idx && (v - origin) % Pitch < ButtonSize)
  {
    var q, m := (v - origin) / Pitch, (v - origin) % Pitch;
    assert v - origin == q * Pitch + m && 0 <= m < Pitch;
    if origin + idx * Pitch <= v < origin + idx * Pitch + ButtonSize {
      assert v - origin == idx * Pitch + (v - origin - idx * Pitch);
    }
  }

  /** Button k contains the mouse position exactly when the arithmetic hit
      test names k. */
  lemma HitIndexCorrect(x: int, y: int, k: int)
    requires 0 <= k < 16
    ensures Contains(ButtonAt(k).bounds, x as real, y as real) <==> HitIndex(x, y) == Some(k)
  {
    var row, col := k / 4, k % 4;
    assert k == 4 * row + col;
    AxisHit(x, GridLeft, col);
    AxisHit(y, GridTop, row);
    if HitIndex(x, y) == Some(k) {
      var qx, qy := (x - GridLeft) / Pitch, (y - GridTop) / Pitch;
      assert 4 * qy + qx == 4 * row + col;
      assert qx == col && qy == row;
    }
  }

  // ---------------------------------------------------------------------------
  // Trimming the evaluated number

  /** s with every trailing '0' removed. */
  function StripZeros(s: string): string
  {
    if s != [] && s[|s| - 1] == '0' then StripZeros(s[..|s| - 1]) else s
  }

  /** The clean-up after "=": trailing zeros, then at most one trailing '.'. */
  function Trimmed(s: string): string
  {
    var u := StripZeros(s);
    if u != [] && u[|u| - 1] == '.' then u[..|u| - 1] else u
  }

  /** An independent description of the clean-up: t is a prefix of s, what was
      removed is zeros possibly preceded by one '.', and if no '.' was removed
      then t does not itself end in '0' or '.'. */
  predicate IsTrimOf(t: string, s: string)
  {
    t <= s &&
    (forall i :: |t| <= i < |s| ==> s[i] == '0' || (i == |t| && s[i] == '.')) &&
    ((|t| < |s| && s[|t|] == '.') || t == [] || (t[|t| - 1] != '0' && t[|t| - 1] != '.'))
  }

  lemma {:induction false} StripZerosShape(s: string)
    ensures StripZeros(s) <= s
    ensures forall i :: |StripZeros(s)| <= i < |s| ==> s[i] == '0'
    ensures StripZeros(s) == [] || StripZeros(s)[|StripZeros(s)| - 1] != '0'
    decreases |s|
  {
    if s != [] && s[|s| - 1] == '0' {
      StripZerosShape(s[..|s| - 1]);
    }
  }

  /** At most one string is a trim of s. */
  lemma TrimUnique(t1: string, t2: string, s: string)
    requires IsTrimOf(t1, s) && IsTrimOf(t2, s)
    ensures t1 == t2
  {
    if |t1| == |t2| {
      assert t1 == s[..|t1|] == t2;
    }
  }

  /** The clean-up after "=" is exactly what IsTrimOf describes. */
  lemma TrimmedIsTrim(s: string, t: string)
    ensures IsTrimOf(t, s) <==> t == Trimmed(s)
  {
    StripZerosShape(s);
    var u := StripZeros(s);
    assert IsTrimOf(Trimmed(s), s) by {
      if u != [] && u[|u| - 1] == '.' {
        assert Trimmed(s) <= u;
      }
    }
    if IsTrimOf(t, s) {
      TrimUnique(t, Trimmed(s), s);
    }
  }

  // ---------------------------------------------------------------------------
  // Button dispatch

  /** The buffer after pressing the button labelled `value`. */
  function Pressed(input: string, value: string, toText: real -> string): string
  {
    if value == "C" then ""
    else if value == "=" then Trimmed(toText(Evaluate(input)))
    else input + value
  }

  /** Every button containing the mouse position is pressed, in grid order. */
  function ClickAll(input: string, buttons: seq<Button>, x: int, y: int, toText: real -> string): string
    decreases |buttons|
  {
    if buttons == [] then input
    else
      var next := if Contains(buttons[0].bounds, x as real, y as real)
                  then Pressed(input, buttons[0].value, toText) else input;
      ClickAll(next, buttons[1..], x, y, toText)
  }

  lemma {:induction false} ClickAllAtMostOne(input: string, buttons: seq<Button>, x: int, y: int,
                                             toText: real -> string, k: int)
    requires -1 <= k < |buttons|
    requires forall j :: 0 <= j < |buttons| && j != k ==>
               !Contains(buttons[j].bounds, x as real, y as real)
    requires k >= 0 ==> Contains(buttons[k].bounds, x as real, y as real)
    ensures ClickAll(input, buttons, x, y, toText) ==
            if k >= 0 then Pressed(input, buttons[k].value, toText) else input
    decreases |buttons|
  {
    if buttons != [] {
      var rest := buttons[1..];
      if k == 0 {
        ClickAllAtMostOne(Pressed(input, buttons[0].value, toText), rest, x, y, toText, -1);
      } else if k > 0 {
        ClickAllAtMostOne(input, rest, x, y, toText, k - 1);
      } else {
        ClickAllAtMostOne(input, rest, x, y, toText, -1);
      }
    }
  }

  /** On the calculator's grid a click presses the one button the hit test
      names, or none. */
  lemma ClickOnGrid(input: string, buttons: seq<Button>, x: int, y: int, toText: real -> string)
    requires IsGrid(buttons)
    ensures ClickAll(input, buttons, x, y, toText) ==
            match HitIndex(x, y)
            case Some(k) => Pressed(input, Labels[k], toText)
            case None => input
  {
    forall j | 0 <= j < 16
      ensures Contains(buttons[j].bounds, x as real, y as real) <==> HitIndex(x, y) == Some(j)
    {
      HitIndexCorrect(x, y, j);
    }
    match HitIndex(x, y)
    case Some(k) =>
      HitIndexCorrect(x, y, k);
      ClickAllAtMostOne(input, buttons, x, y, toText, k);
    case None =>
      ClickAllAtMostOne(input, buttons, x, y, toText, -1);
  }

  /** The calculator window's state. */
  class CalculatorApp {
    var input: string
    var buttons: seq<Button>

    constructor ()
      ensures input == "" && IsGrid(buttons)
    {
      input := "";
      var bs := BuildButtons();
      buttons := bs;
    }

    /** "C" clears the buffer, "=" replaces it by its trimmed value, any other
        button appends its value. */
    method Press(value: string, toText: real -> string)
      modifies this`input
      ensures value == "C" ==> input == ""
      ensures value == "=" ==> IsTrimOf(input, toText(Evaluate(old(input))))
      ensures value != "C" && value != "=" ==> input == old(input) + value
      ensures input == Pressed(old(input), value, toText)
    {
      if value == "C" {
        input := "";
      } else if value == "=" {
        var result := EvaluateExpression(input);
        input := toText(result);
        ghost var text := input;
        while input != [] && input[|input| - 1] == '0'
          invariant StripZeros(input) == StripZeros(text)
          decreases |input|
        {
          input := input[..|input| - 1];
        }
        if input != [] && input[|input| - 1] == '.' {
          input := input[..|input| - 1];
        }
        TrimmedIsTrim(text, input);
      } else {
        input := input + value;
      }
    }

    /** A mouse press at (x, y): every button containing the point is pressed. */
    method Click(x: int, y: int, toText: real -> string)
      modifies this`input
      ensures input == ClickAll(old(input), buttons, x, y, toText)
      ensures IsGrid(buttons) ==>
                input == match HitIndex(x, y)
                         case Some(k) => Pressed(old(input), Labels[k], toText)
                         case None => old(input)
    {
      for i := 0 to |buttons|
        invariant ClickAll(input, buttons[i..], x, y, toText) == ClickAll(old(input), buttons, x, y, toText)
      {
        assert buttons[i..][1..] == buttons[i + 1..];
        if Contains(buttons[i].bounds, x as real, y as real) {
          Press(buttons[i].value, toText);
        }
      }
      if IsGrid(buttons) {
        ClickOnGrid(old(input), buttons, x, y, toText);
      }
    }
  }
}
