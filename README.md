# Calculator and Dino Run: the game and input logic of two SFML demos

The repository holds two single-file programs built on the SFML graphics
toolkit. Each keeps a small piece of sequential logic inside its `main` loop.
This project lifts that logic out of the toolkit, models it in Dafny and
proves properties of it.

**Calculator** (`Calculator.cpp`):

- `evaluateExpression` reads the text once, left to right. It accumulates
  numerals into a pending operand. At every operator, and at a NUL read one
  past the end, it applies the previously seen operator (initially `+`) to the
  result.
- There is no operator precedence. A division by a zero operand is skipped.
- The source treats `.` like a digit and adds `'.' - '0'`, which is -2. So
  `"3.5"` evaluates to 285, not 3.5. The model does the same, and
  `Evaluator.DecimalPointExample` shows it.
- The window has a 4x4 grid of 80x80 buttons on a 90-pixel pitch, starting at
  (20, 140).
- A mouse press goes through every button in grid order. Each button that
  contains the point is pressed:
  - "C" clears the input buffer;
  - "=" replaces the buffer by its value as text, with trailing `0`s and then
    one trailing `.` removed;
  - any other button appends its label.

**Dino Run** (`DinoRun.cpp`):

- A three-state machine: Ready, Playing, GameOver.
- Space starts a fresh run from Ready, makes the dino jump in Playing when it
  stands on the ground, and returns from GameOver to Ready.
- While Playing, each frame does the following in order:
  1. applies gravity and clamps the dino to the ground;
  2. spawns a cactus when the spawn interval has elapsed;
  3. moves every cactus left, erasing off-screen ones in place and stopping at
     the first one that overlaps the dino (GameOver, high score latched);
  4. advances the score every 80 ms;
  5. derives the speed from the score.
- Step 4 still runs in the frame of a collision. The final score can therefore
  exceed the high score by one. The model keeps this order
  (`DinoRun.FrameCollision`).

## Project layout

**`geometry.dfy`** (`Geometry`) holds the float-rectangle tests the toolkit
provides:

- containment is half-open;
- two rectangles intersect only when their overlap has positive area.

**`evaluator.dfy`** (`Evaluator`) models the evaluator in three parts:

- `Step`/`Run`/`Evaluate` are the meaning of the loop, one character at a
  time;
- `EvaluateExpression` is the loop itself, proved equal to `Evaluate`;
- lemmas relate `Evaluate` to an independent left-to-right fold `FoldLeft`
  over operator/operand terms.

**`calculator.dfy`** (`Calculator`) covers:

- the grid, with its hit test and non-overlap;
- the trim after "=", against an independent description `IsTrimOf`;
- the dispatch `Pressed`;
- the class `CalculatorApp`, whose `input` field the methods update in place.

**`dino.dfy`** (`DinoRun`) covers:

- the state transitions as functions on a snapshot `World` of the game's
  variables;
- the invariant `Valid`, which every transition keeps;
- the class `Game`, whose fields are the source's variables. Each method is
  proved to have the effect of the matching function on `Model()`.

**Inputs the model takes as parameters:**

- Time is an integer count of microseconds, passed as `now`. A clock is held
  as the time at which it was last restarted.
- The two `rand()` draws for a cactus's size are natural-number parameters.
- `rand() / RAND_MAX` for the next spawn interval is a parameter `u` in
  [0, 1].
- `std::to_string` is a parameter `toText`.

## Model

| member | source | states |
|---|---|---|
| Evaluator.EvaluateExpression | Calculator.cpp:8-31 | the loop, which reads one NUL past the end, returns exactly the value `Evaluate` assigns to the text |
| Evaluator.LeftToRight | Calculator.cpp:13-27 | for any first operand followed by operator/operand terms, evaluation equals the strict left-to-right fold of the terms, each operator applied to everything accumulated before it (no precedence) |
| Evaluator.RunRender | Calculator.cpp:13-27 | after reading a well-formed expression, the last operator and operand are still pending and the result holds the fold of the earlier terms |
| Evaluator.NoPrecedenceExample | Calculator.cpp:7-27 | "2+3*4" evaluates to 20 |
| Evaluator.NumeralsExtendOperand | Calculator.cpp:16-17 | a run of numerals multiplies the pending operand by 10 per character and adds the run's base-10 value, leaving result and operator unchanged |
| Evaluator.SingleNumber | Calculator.cpp:9-11 | a text that is a single number evaluates to that number; the empty text evaluates to 0 |
| Evaluator.DivisionByZeroExample | Calculator.cpp:23 | division by a zero operand leaves the result as it was: "8/0" is 8 and "8/0+5" is 13 |
| Evaluator.RunIgnoresOtherCharacters | Calculator.cpp:16-18 | characters that are neither numerals, operators nor NUL change neither result, operand nor operator: the run equals the run over the significant characters alone |
| Evaluator.EvaluateIgnoresOtherCharacters | Calculator.cpp:16-18 | deleting all other characters from a text does not change its value |
| Evaluator.TrailingOperatorExample | Calculator.cpp:18-26 | an operator resets the operand to 0 and becomes pending, so a trailing operator applies to 0: "5*" is 0 |
| Evaluator.DecimalPointExample | Calculator.cpp:16-17 | '.' is accumulated as a digit of value -2, so "3.5" evaluates to 285 |
| Calculator.BuildButtons | Calculator.cpp:73-90 | the nested loop creates 16 buttons, the k-th labelled `Labels[k]` and placed at row k/4, column k%4 of the grid |
| Calculator.ButtonsDoNotOverlap | Calculator.cpp:73-81 | no two distinct buttons of the grid intersect |
| Calculator.HitIndexCorrect | Calculator.cpp:104-105 | button k contains the mouse position exactly when the arithmetic hit test returns k |
| Calculator.ClickOnGrid | Calculator.cpp:104-130 | on the grid, a mouse press presses the single button the hit test names, or changes nothing |
| Calculator.TrimUnique | Calculator.cpp:116-120 | a text has at most one trim in the sense of `IsTrimOf` |
| Calculator.TrimmedIsTrim | Calculator.cpp:116-120 | the clean-up after "=" yields exactly the unique prefix obtained by removing trailing '0's, then at most one '.', and nothing more |
| Calculator.CalculatorApp.constructor | Calculator.cpp:43-90 | the buffer starts empty and the buttons form the grid |
| Calculator.CalculatorApp.Press | Calculator.cpp:107-128 | "C" empties the buffer; "=" replaces it by the trim of its evaluated text; any other button appends exactly its label |
| Calculator.CalculatorApp.Click | Calculator.cpp:104-130 | the buffer becomes the result of pressing every button containing the point, in grid order; on the grid that is the one button the hit test names, or none |
| DinoRun.Reset | DinoRun.cpp:134-145 | a reset run is Playing with no cacti, score 0, speed 7, the dino at rest on the ground, and the high score kept |
| DinoRun.SpaceTransitions | DinoRun.cpp:190-201 | Space resets from Ready; in Playing it sets velocity -13 and clears onGround only when grounded, otherwise changes nothing; from GameOver it moves to Ready and changes nothing else |
| DinoRun.Fall | DinoRun.cpp:209-216 | after the physics step the dino's y is at most groundY-40; when it reaches the ground it is clamped with velocity 0 and grounded, otherwise its velocity grows by the gravity constant |
| DinoRun.NewCactus | DinoRun.cpp:147-154 | a spawned cactus stands at x=900 with its bottom on the ground line, width in [18,32] and height in [35,59] |
| DinoRun.FirstStrike | DinoRun.cpp:243-256 | the index of the first cactus that, once moved, is on screen and overlaps the dino: no earlier cactus does, and the one at the index does |
| DinoRun.SweepLoop | DinoRun.cpp:243-259 | the in-place cactus loop (move, erase when off screen, stop at the first overlap) produces exactly the sequence and collision flag of `Sweep` |
| DinoRun.SweepWithoutHit | DinoRun.cpp:243-249 | when no cactus strikes the dino, the loop leaves every cactus moved, the off-screen ones dropped and the rest in their spawn order, and reports no collision |
| DinoRun.SweepHitIff | DinoRun.cpp:251-256 | the loop reports a collision if and only if some cactus strikes the dino |
| DinoRun.SweepStopsAtFirstHit | DinoRun.cpp:251-256 | on a collision at the first striking cactus, the cacti before it are moved and filtered, it is moved, and the later ones are left as they were |
| DinoRun.SurvivorsOnScreen | DinoRun.cpp:246-249 | no cactus left after a collision-free loop is off screen, and none is added |
| DinoRun.SweepKeepsWellPlaced | DinoRun.cpp:243-259 | the loop keeps every cactus on the ground, within the spawn size ranges and on screen: each kept cactus is an original one, moved or not |
| DinoRun.SweepKeepsOrder | DinoRun.cpp:243-259 | the loop keeps the cacti in spawn order, the leftmost first |
| DinoRun.SpawnKeepsValid | DinoRun.cpp:147-155 | appending a spawned cactus keeps the game invariant, spawn order included |
| DinoRun.InitialValid | DinoRun.cpp:63-131 | the state the game opens in satisfies the invariant |
| DinoRun.TickKeepsValid | DinoRun.cpp:207-268 | a frame keeps the invariant: dino above or on the ground, non-negative scores, speed 7 + score/200, spawn interval in [0.9,1.6], cacti well placed and in spawn order |
| DinoRun.SpaceKeepsValid | DinoRun.cpp:190-201 | the Space key keeps the invariant |
| DinoRun.IdleFrame | DinoRun.cpp:207 | outside Playing a frame changes nothing |
| DinoRun.FrameCollision | DinoRun.cpp:242-265 | a frame never lowers the high score or the score; it ends in GameOver exactly when a cactus strikes the dino, and then the high score is max(high score, score) and the score is at most one above it; otherwise it stays Playing with the high score unchanged |
| DinoRun.FrameMovesCacti | DinoRun.cpp:243-249 | a frame without collision leaves exactly the moved, still on-screen cacti, in spawn order, none off screen |
| DinoRun.JumpArc | DinoRun.cpp:193-216 | for 36 frames after a jump the dino is airborne, its velocity -13 + 0.7n and its height given by the closed form of the falling motion |
| DinoRun.Landing | DinoRun.cpp:193-216 | the 37th frame after a jump puts the dino back on the ground at rest |
| DinoRun.Game.constructor | DinoRun.cpp:63-131 | the fields start in the initial state (Ready, dino at rest, no cacti, speed 7, scores 0, interval 1 s), which is valid |
| DinoRun.Game.ResetGame | DinoRun.cpp:134-145 | the fields become those of `Reset` applied to the old state |
| DinoRun.Game.SpawnCactus | DinoRun.cpp:147-155 | exactly the new cactus is appended to the cactus vector |
| DinoRun.Game.PressSpace | DinoRun.cpp:190-201 | the fields become `Space` of the old state, and the invariant is kept |
| DinoRun.Game.Update | DinoRun.cpp:207-268 | the fields become `Tick` of the old state, and the invariant is kept |
| DinoRun.Game.ApplyGravity | DinoRun.cpp:209-216 | the dino's fields become `Fall` of the old dino; nothing else changes |
| DinoRun.Game.SpawnWhenDue | DinoRun.cpp:233-240 | when the spawn clock is past the interval, a cactus is appended, the clock restarted and the interval redrawn; otherwise nothing changes |
| DinoRun.Game.SweepCacti | DinoRun.cpp:242-259 | the cactus vector becomes the loop's result; on a collision the state becomes GameOver and the high score the larger of itself and the score |
| DinoRun.Game.AdvanceScore | DinoRun.cpp:261-267 | the score advances by one and its clock restarts when more than 80 whole milliseconds have passed; the speed becomes 7 + score/200 |

## Left out

- Windows, event polling, fonts, text and shape rendering are toolkit I/O with no logic of their own. This includes the Escape key and the display and text updates in both programs.
- Dino Run's clouds, scrolling ground segments and leg and eye animation (DinoRun.cpp:157-176, 218-231) are decorative. They touch no game state.
- Numbers are mathematical reals and integers. IEEE float and double rounding and overflow are not modelled. For example, the landing frame is computed with exact arithmetic.
- `std::to_string(double)` is a parameter `toText`. The trim is proved for any text it could return.
- The `catch (...)` that sets "ERR" is left out, because nothing in the evaluation throws.
- Wall clocks are the parameter `now`. `asSeconds` is real division of the elapsed microseconds, and `asMilliseconds` is integer division by 1000. Integer division floors where the toolkit truncates. The two differ only for negative elapsed times, where neither exceeds 80.
- Calls to `std::rand()` become parameters. The distribution of the spawn interval and the platform's `RAND_MAX` are not modelled; the model assumes only that `u` lies in [0, 1].
- The toolkit normalises rectangles of negative width or height. Every rectangle here has a positive size, so this is not modelled.
- DinoRun.Game.SweepCacti: the loop runs on a local copy of the cactus vector (`DinoRun.SweepLoop`), and the copy is stored back into the field once the loop ends. Since sequences are values, the result is the same as erasing in place. The model does not show the vector being modified mid-loop.
