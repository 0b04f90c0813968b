/** The game logic of Dino Run: a three-state machine (Ready, Playing,
    GameOver) driven by the Space key and by collisions, and the per-frame
    update that runs only while Playing.

    Each transition is first defined as a function on a snapshot `World` of
    the game's variables; the class `Game` at the end keeps those variables
    in fields and updates them in place, and each of its methods is proved
    to have the effect of the corresponding function. Coordinates, speeds
    and the spawn interval are `real`s (the source uses floats); time is an
    integer number of microseconds supplied by the caller, and the values of
    the C library's rand() are parameters. */
module DinoRun {
  import opened Geometry

  datatype GameState = Ready | Playing | GameOver

  /** An obstacle is just its rectangle. */
  datatype Cactus = Cactus(box: Rect)

  /** The dino's vertical position and velocity (it never moves sideways). */
  datatype Dino = Dino(y: real, velY: real, onGround: bool)

  /** Every variable the game logic reads or writes. The two clocks are held
      as the time at which each was last restarted. */
  datatype World = World(state: GameState, dino: Dino, cacti: seq<Cactus>,
                         speed: real, score: int, highScore: int,
                         nextSpawn: real, spawnClock: int, scoreClock: int)

  const WindowWidth: real := 900.0
  const GroundY: real := 230.0
  const DinoX: real := 80.0
  const DinoSize: real := 40.0
  /** The dino's y when it stands on the ground line. */
  const RestY: real := GroundY - DinoSize
  const Gravity: real := 0.7
  const JumpVelocity: real := -13.0
  const BaseSpeed: real := 7.0
  const SpawnMin: real := 0.9
  const SpawnMax: real := 1.6
  const FirstSpawn: real := 1.0
  /** Score advances once more than this many whole milliseconds have passed. */
  const ScoreTickMs: int := 80
  const MicrosPerSecond: int := 1000000
  const MicrosPerMilli: int := 1000

  function DinoBox(d: Dino): Rect
  {
    Rect(DinoX, d.y, DinoSize, DinoSize)
  }

  /** The state when the window opens. */
  function Initial(now: int): World
  {
    World(Ready, Dino(RestY, 0.0, true), [], BaseSpeed, 0, 0, FirstSpawn, now, now)
  }

  // ---------------------------------------------------------------------------
  // Space key

  /** resetGame: a fresh run with the high score kept. */
  function Reset(w: World, now: int): (r: World)
    ensures r.state == Playing && r.cacti == [] && r.score == 0 && r.speed == BaseSpeed
    ensures r.dino == Dino(RestY, 0.0, true)
    ensures r.highScore == w.highScore
  {
    w.(state := Playing, cacti := [], speed := BaseSpeed, score := 0,
       spawnClock := now, scoreClock := now, nextSpawn := FirstSpawn,
       dino := Dino(RestY, 0.0, true))
  }

  /** The Space key: start from Ready, jump while grounded in Playing, and go
      back to Ready from GameOver. */
  function Space(w: World, now: int): World
  {
    match w.state
    case Ready => Reset(w, now)
    case Playing =>
      if w.dino.onGround then w.(dino := w.dino.(velY := JumpVelocity, onGround := false)) else w
    case GameOver => w.(state := Ready)
  }

  lemma SpaceTransitions(w: World, now: int)
    ensures var r := Space(w, now);
      && (w.state == Ready ==> r == Reset(w, now))
      && (w.state == Playing ==>
            r.state == Playing && r.cacti == w.cacti && r.score == w.score &&
            r.highScore == w.highScore && r.dino.y == w.dino.y &&
            (w.dino.onGround ==> r.dino.velY == JumpVelocity && !r.dino.onGround) &&
            (!w.dino.onGround ==> r == w))
      && (w.state == GameOver ==> r == w.(state := Ready))
  {
  }

  // ---------------------------------------------------------------------------
  // Per-frame update while Playing

  /** Gravity, then the ground clamp. */
  function Fall(d: Dino): (r: Dino)
    ensures r.y <= RestY
    ensures r.onGround == (d.onGround || d.y + d.velY + Gravity >= RestY)
    ensures d.y + d.velY + Gravity >= RestY ==> r.velY == 0.0 && r.y == RestY
    ensures d.y + d.velY + Gravity < RestY ==> r.velY == d.velY + Gravity > d.velY
  {
    var velY := d.velY + Gravity;
    var y := d.y + velY;
    if y >= RestY then Dino(RestY, 0.0, true) else Dino(y, velY, d.onGround)
  }

  /** spawnCactus: a new cactus at the right edge standing on the ground,
      its size drawn from the two rand() values. */
  function NewCactus(widthDraw: nat, heightDraw: nat): (c: Cactus)
    ensures c.box.left == WindowWidth && Bottom(c.box) == GroundY
    ensures 18.0 <= c.box.width <= 32.0 && 35.0 <= c.box.height <= 59.0
  {
    var width := 18.0 + (widthDraw % 15) as real;
    var height := 35.0 + (heightDraw % 25) as real;
    Cactus(Rect(WindowWidth, GroundY - height, width, height))
  }

  function Spawn(w: World, widthDraw: nat, heightDraw: nat): World
  {
    w.(cacti := w.cacti + [NewCactus(widthDraw, heightDraw)])
  }

  /** The spawn clock, in seconds, is past the current interval. */
  predicate SpawnDue(w: World, now: int)
  {
    (now - w.spawnClock) as real / MicrosPerSecond as real > w.nextSpawn
  }

  /** Spawn when due, restart the spawn clock and draw the next interval from
      u = rand() / RAND_MAX. */
  function MaybeSpawn(w: World, now: int, widthDraw: nat, heightDraw: nat, u: real): World
  {
    if SpawnDue(w, now)
    then Spawn(w, widthDraw, heightDraw).(spawnClock := now,
                                          nextSpawn := SpawnMin + u * (SpawnMax - SpawnMin))
    else w
  }

  function MoveLeft(c: Cactus, speed: real): Cactus
  {
    Cactus(c.box.(left := c.box.left - speed))
  }

  predicate OffScreen(c: Cactus)
  {
    Right(c.box) < 0.0
  }

  /** A cactus that, once moved, is still on screen and overlaps the dino. */
  predicate Strikes(c: Cactus, speed: real, dino: Rect)
  {
    var m := MoveLeft(c, speed);
    !OffScreen(m) && Intersects(dino, m.box)
  }

  /** The index of the first cactus that strikes the dino, or |cs| if none does. */
  function FirstStrike(cs: seq<Cactus>, speed: real, dino: Rect): (r: nat)
    ensures r <= |cs|
    ensures forall k :: 0 <= k < r ==> !Strikes(cs[k], speed, dino)
    ensures r < |cs| ==> Strikes(cs[r], speed, dino)
    decreases |cs|
  {
    if cs == [] || Strikes(cs[0], speed, dino) then 0
    else 1 + FirstStrike(cs[1..], speed, dino)
  }

  datatype SweepResult = SweepResult(kept: seq<Cactus>, hit: bool)

  /** The cactus loop: move each cactus, erase it if it has left the screen,
      and stop at the first that overlaps the dino, leaving the ones after it
      unmoved. */
  function Sweep(cs: seq<Cactus>, speed: real, dino: Rect): SweepResult
    decreases |cs|
  {
    if cs == [] then SweepResult([], false)
    else
      var c := MoveLeft(cs[0], speed);
      if OffScreen(c) then Sweep(cs[1..], speed, dino)
      else if Intersects(dino, c.box) then SweepResult([c] + cs[1..], true)
      else
        var rest := Sweep(cs[1..], speed, dino);
        SweepResult([c] + rest.kept, rest.hit)
  }

  /** The reference for a sweep without collision: every cactus moved, the
      off-screen ones dropped, the rest in their original order. */
  function Survivors(cs: seq<Cactus>, speed: real): seq<Cactus>
    decreases |cs|
  {
    if cs == [] then []
    else
      var c := MoveLeft(cs[0], speed);
      (if OffScreen(c) then [] else [c]) + Survivors(cs[1..], speed)
  }

  /** The cactus loop, then the collision outcome: GameOver and the high score
      latched to the score. */
  function Collide(w: World): World
  {
    var s := Sweep(w.cacti, w.speed, DinoBox(w.dino));
    w.(cacti := s.kept,
       state := if s.hit then GameOver else w.state,
       highScore := if s.hit && w.score > w.highScore then w.score else w.highScore)
  }

  /** One score point per elapsed 80 ms, then the speed follows the score. */
  function ScoreTick(w: World, now: int): World
  {
    var v := if (now - w.scoreClock) / MicrosPerMilli > ScoreTickMs
             then w.(score := w.score + 1, scoreClock := now) else w;
    v.(speed := BaseSpeed + v.score as real / 200.0)
  }

  /** The whole update block of one frame. */
  function Tick(w: World, now: int, widthDraw: nat, heightDraw: nat, u: real): World
  {
    if w.state != Playing then w
    else ScoreTick(Collide(MaybeSpawn(w.(dino := Fall(w.dino)), now, widthDraw, heightDraw, u)), now)
  }

  // ---------------------------------------------------------------------------
  // The cactus sweep against its reference

  lemma {:induction false} SweepWithoutHit(cs: seq<Cactus>, speed: real, dino: Rect)
    requires forall i :: 0 <= i < |cs| ==> !Strikes(cs[i], speed, dino)
    ensures Sweep(cs, speed, dino) == SweepResult(Survivors(cs, speed), false)
    decreases |cs|
  {
    if cs != [] {
      SweepWithoutHit(cs[1..], speed, dino);
    }
  }

  /** A sweep reports a collision exactly when some cactus strikes the dino. */
  lemma {:induction false} SweepHitIff(cs: seq<Cactus>, speed: real, dino: Rect)
    ensures Sweep(cs, speed, dino).hit <==> exists i :: 0 <= i < |cs| && Strikes(cs[i], speed, dino)
    decreases |cs|
  {
    if cs != [] {
      SweepHitIff(cs[1..], speed, dino);
      if exists i :: 0 <= i < |cs[1..]| && Strikes(cs[1..][i], speed, dino) {
        var i :| 0 <= i < |cs[1..]| && Strikes(cs[1..][i], speed, dino);
        assert Strikes(cs[i + 1], speed, dino);
      }
      if exists i :: 0 <= i < |cs| && Strikes(cs[i], speed, dino) {
        var i :| 0 <= i < |cs| && Strikes(cs[i], speed, dino);
        if i > 0 {
          assert Strikes(cs[1..][i - 1], speed, dino);
        }
      }
    }
  }

  /** On a collision at the first striking cactus i, the cacti before it have
      been moved and filtered, cactus i has been moved, and the rest are as
      they were. */
  lemma {:induction false} SweepStopsAtFirstHit(cs: seq<Cactus>, speed: real, dino: Rect, i: int)
    requires 0 <= i < |cs| && Strikes(cs[i], speed, dino)
    requires forall j :: 0 <= j < i ==> !Strikes(cs[j], speed, dino)
    ensures Sweep(cs, speed, dino) ==
            SweepResult(Survivors(cs[..i], speed) + [MoveLeft(cs[i], speed)] + cs[i + 1..], true)
    decreases |cs|
  {
    if i > 0 {
      assert cs[1..][..i - 1] == cs[1..i];
      assert cs[1..][i - 1 + 1..] == cs[i + 1..];
      SweepStopsAtFirstHit(cs[1..], speed, dino, i - 1);
      assert cs[..i][1..] == cs[1..i];
    }
  }

  /** Survivors of a prefix, extended by one more cactus. */
  lemma {:induction false} SurvivorsSnoc(cs: seq<Cactus>, speed: real, j: int)
    requires 0 <= j < |cs|
    ensures var c := MoveLeft(cs[j], speed);
            Survivors(cs[..j + 1], speed) == Survivors(cs[..j], speed) + (if OffScreen(c) then [] else [c])
    decreases j
  {
    if j > 0 {
      SurvivorsSnoc(cs[1..], speed, j - 1);
      assert cs[1..][..j] == cs[..j + 1][1..];
      assert cs[1..][..j - 1] == cs[..j][1..];
    }
  }

  lemma {:induction false} SurvivorsOnScreen(cs: seq<Cactus>, speed: real)
    ensures |Survivors(cs, speed)| <= |cs|
    ensures forall c :: c in Survivors(cs, speed) ==> !OffScreen(c)
    decreases |cs|
  {
    if cs != [] {
      SurvivorsOnScreen(cs[1..], speed);
    }
  }

  /** One visit of the cactus loop, on the sequence shape its invariant
      keeps: the visited prefix of cs filtered, then the unvisited rest. */
  lemma SweepStep(cs: seq<Cactus>, speed: real, j: int, kept: seq<Cactus>)
    requires 0 <= j < |cs| && kept == Survivors(cs[..j], speed) + cs[j..]
    ensures var i, moved := |Survivors(cs[..j], speed)|, MoveLeft(cs[j], speed);
      var after := kept[i := moved];
      && i < |kept| && kept[i] == cs[j]
      && after == Survivors(cs[..j], speed) + [moved] + cs[j + 1..]
      && after[..i] + after[i + 1..] == Survivors(cs[..j], speed) + cs[j + 1..]
      && Survivors(cs[..j + 1], speed) ==
         Survivors(cs[..j], speed) + (if OffScreen(moved) then [] else [moved])
  {
    SurvivorsSnoc(cs, speed, j);
    var done, i, moved := Survivors(cs[..j], speed), |Survivors(cs[..j], speed)|, MoveLeft(cs[j], speed);
    assert cs[j..] == [cs[j]] + cs[j + 1..];
    var after := kept[i := moved];
    assert after == done + [moved] + cs[j + 1..];
    assert after[..i] == done && after[i + 1..] == cs[j + 1..];
  }

  /** The cactus loop: move each cactus, erase it once off screen, and stop
      at the first that overlaps the dino. The ghost index j counts the cacti
      of cs already visited; i is where the next one now sits in kept. */
  method SweepLoop(cs: seq<Cactus>, speed: real, dino: Rect) returns (kept: seq<Cactus>, hit: bool)
    ensures SweepResult(kept, hit) == Sweep(cs, speed, dino)
  {
    kept, hit := cs, false;
    ghost var j := 0;
    var i := 0;
    while i < |kept|
      invariant 0 <= j <= |cs|
      invariant kept == Survivors(cs[..j], speed) + cs[j..]
      invariant i == |Survivors(cs[..j], speed)|
      invariant forall k :: 0 <= k < j ==> !Strikes(cs[k], speed, dino)
      decreases |kept| - i
    {
      SweepStep(cs, speed, j, kept);
      kept := kept[i := MoveLeft(kept[i], speed)];
      if Right(kept[i].box) < 0.0 {
        kept := kept[..i] + kept[i + 1..];
        j := j + 1;
        continue;
      }
      if Intersects(dino, kept[i].box) {
        hit := true;
        SweepStopsAtFirstHit(cs, speed, dino, j);
        break;
      }
      j := j + 1;
      i := i + 1;
    }
    if !hit {
      assert j == |cs| && cs[..j] == cs;
      SweepWithoutHit(cs, speed, dino);
    }
  }

  // ---------------------------------------------------------------------------
  // The game invariant

  /** A cactus as spawned and moved: standing on the ground with a size in
      the spawn ranges, not right of the spawn point and not off screen. */
  predicate WellPlaced(c: Cactus)
  {
    Bottom(c.box) == GroundY &&
    18.0 <= c.box.width <= 32.0 && 35.0 <= c.box.height <= 59.0 &&
    c.box.left <= WindowWidth && !OffScreen(c)
  }

  /** Cacti are ordered by spawn time: the oldest is the leftmost. */
  predicate SpawnOrdered(cs: seq<Cactus>)
  {
    forall i, j :: 0 <= i < j < |cs| ==> cs[i].box.left <= cs[j].box.left
  }

  predicate Valid(w: World)
  {
    w.dino.y <= RestY &&
    (w.dino.onGround ==> w.dino.y == RestY && w.dino.velY == 0.0) &&
    0 <= w.score && 0 <= w.highScore &&
    w.speed == BaseSpeed + w.score as real / 200.0 &&
    SpawnMin <= w.nextSpawn <= SpawnMax &&
    (forall c :: c in w.cacti ==> WellPlaced(c)) &&
    SpawnOrdered(w.cacti)
  }

  lemma InitialValid(now: int)
    ensures Valid(Initial(now))
  {
  }

  lemma {:induction false} SweepBelow(cs: seq<Cactus>, speed: real, dino: Rect, m: real)
    requires 0.0 <= speed
    requires forall c :: c in cs ==> m <= c.box.left
    ensures forall c :: c in Sweep(cs, speed, dino).kept ==> m - speed <= c.box.left
    decreases |cs|
  {
    if cs != [] {
      SweepBelow(cs[1..], speed, dino, m);
    }
  }

  /** What the sweep keeps is either a moved cactus or one left as it was. */
  lemma {:induction false} SweepKept(cs: seq<Cactus>, speed: real, dino: Rect)
    ensures forall x :: x in Sweep(cs, speed, dino).kept ==>
              exists c :: c in cs && (x == c || (x == MoveLeft(c, speed) && !OffScreen(x)))
    decreases |cs|
  {
    if cs != [] {
      SweepKept(cs[1..], speed, dino);
      var r := Sweep(cs, speed, dino);
      forall x | x in r.kept
        ensures exists c :: c in cs && (x == c || (x == MoveLeft(c, speed) && !OffScreen(x)))
      {
        if x == MoveLeft(cs[0], speed) && !OffScreen(x) {
          assert cs[0] in cs;
        } else {
          var y := x;
          assert y in cs[1..] || y in Sweep(cs[1..], speed, dino).kept;
          if y in cs[1..] {
            assert y in cs;
          } else {
            var c :| c in cs[1..] && (y == c || (y == MoveLeft(c, speed) && !OffScreen(y)));
            assert c in cs;
          }
        }
      }
    }
  }

  /** The sweep keeps every cactus well placed. */
  lemma SweepKeepsWellPlaced(cs: seq<Cactus>, speed: real, dino: Rect)
    requires 0.0 <= speed
    requires forall c :: c in cs ==> WellPlaced(c)
    ensures forall c :: c in Sweep(cs, speed, dino).kept ==> WellPlaced(c)
  {
    SweepKept(cs, speed, dino);
  }

  lemma OrderedTail(cs: seq<Cactus>)
    requires cs != [] && SpawnOrdered(cs)
    ensures SpawnOrdered(cs[1..])
    ensures forall c :: c in cs[1..] ==> cs[0].box.left <= c.box.left
  {
    forall c | c in cs[1..] ensures cs[0].box.left <= c.box.left {
      var k :| 0 <= k < |cs[1..]| && cs[1..][k] == c;
      assert cs[k + 1] == c;
    }
  }

  lemma OrderedCons(c: Cactus, tail: seq<Cactus>)
    requires SpawnOrdered(tail)
    requires forall x :: x in tail ==> c.box.left <= x.box.left
    ensures SpawnOrdered([c] + tail)
  {
    var s := [c] + tail;
    forall i, j | 0 <= i < j < |s| ensures s[i].box.left <= s[j].box.left {
      assert s[j] == tail[j - 1] && tail[j - 1] in tail;
      if i > 0 {
        assert s[i] == tail[i - 1];
      }
    }
  }

  /** The sweep keeps the spawn order. */
  lemma {:induction false} SweepKeepsOrder(cs: seq<Cactus>, speed: real, dino: Rect)
    requires 0.0 <= speed
    requires SpawnOrdered(cs)
    ensures SpawnOrdered(Sweep(cs, speed, dino).kept)
    decreases |cs|
  {
    if cs != [] {
      var rest := cs[1..];
      OrderedTail(cs);
      SweepKeepsOrder(rest, speed, dino);
      SweepBelow(rest, speed, dino, cs[0].box.left);
      var c := MoveLeft(cs[0], speed);
      if !OffScreen(c) {
        if Intersects(dino, c.box) {
          OrderedCons(c, rest);
        } else {
          OrderedCons(c, Sweep(rest, speed, dino).kept);
        }
      }
    }
  }

  lemma SpawnKeepsValid(w: World, widthDraw: nat, heightDraw: nat)
    requires Valid(w)
    ensures Valid(Spawn(w, widthDraw, heightDraw))
  {
    var c := NewCactus(widthDraw, heightDraw);
    var cs := w.cacti + [c];
    forall i, j | 0 <= i < j < |cs| ensures cs[i].box.left <= cs[j].box.left {
      if j == |cs| - 1 {
        assert cs[i] in w.cacti;
      }
    }
  }

  /** Every frame keeps the invariant. */
  lemma TickKeepsValid(w: World, now: int, widthDraw: nat, heightDraw: nat, u: real)
    requires Valid(w) && 0.0 <= u <= 1.0
    ensures Valid(Tick(w, now, widthDraw, heightDraw, u))
  {
    if w.state == Playing {
      var w1 := w.(dino := Fall(w.dino));
      assert Valid(w1);
      var w2 := MaybeSpawn(w1, now, widthDraw, heightDraw, u);
      if SpawnDue(w1, now) {
        SpawnKeepsValid(w1, widthDraw, heightDraw);
      }
      assert Valid(w2);
      SweepKeepsWellPlaced(w2.cacti, w2.speed, DinoBox(w2.dino));
      SweepKeepsOrder(w2.cacti, w2.speed, DinoBox(w2.dino));
      assert Valid(Collide(w2));
    }
  }

  /** The Space key keeps the invariant. */
  lemma SpaceKeepsValid(w: World, now: int)
    requires Valid(w)
    ensures Valid(Space(w, now))
  {
  }

  // ---------------------------------------------------------------------------
  // Properties of a frame

  /** Outside Playing a frame changes nothing. */
  lemma IdleFrame(w: World, now: int, widthDraw: nat, heightDraw: nat, u: real)
    requires w.state != Playing
    ensures Tick(w, now, widthDraw, heightDraw, u) == w
  {
  }

  /** A frame never lowers the high score; it ends in GameOver exactly when a
      cactus strikes the dino, and then the high score is the larger of the
      old high score and the score before this frame's score tick. The score
      tick still runs in the frame of the collision, so the final score may
      exceed the high score by one. */
  lemma FrameCollision(w: World, now: int, widthDraw: nat, heightDraw: nat, u: real)
    requires w.state == Playing
    ensures var v := MaybeSpawn(w.(dino := Fall(w.dino)), now, widthDraw, heightDraw, u);
            var r := Tick(w, now, widthDraw, heightDraw, u);
      && r.highScore >= w.highScore
      && r.score >= w.score
      && (r.state == GameOver <==>
            exists i :: 0 <= i < |v.cacti| && Strikes(v.cacti[i], v.speed, DinoBox(v.dino)))
      && (r.state == GameOver ==> r.highScore == (if w.score > w.highScore then w.score else w.highScore))
      && (r.state == GameOver ==> w.score <= r.score <= r.highScore + 1)
      && (r.state != GameOver ==> r.state == Playing && r.highScore == w.highScore)
  {
    var v := MaybeSpawn(w.(dino := Fall(w.dino)), now, widthDraw, heightDraw, u);
    SweepHitIff(v.cacti, v.speed, DinoBox(v.dino));
  }

  /** A frame without collision leaves exactly the moved cacti that are still
      on screen, in spawn order. */
  lemma FrameMovesCacti(w: World, now: int, widthDraw: nat, heightDraw: nat, u: real)
    requires w.state == Playing
    ensures var v := MaybeSpawn(w.(dino := Fall(w.dino)), now, widthDraw, heightDraw, u);
            var r := Tick(w, now, widthDraw, heightDraw, u);
      r.state == Playing ==>
        r.cacti == Survivors(v.cacti, v.speed) && forall c :: c in r.cacti ==> !OffScreen(c)
  {
    var v := MaybeSpawn(w.(dino := Fall(w.dino)), now, widthDraw, heightDraw, u);
    var dino := DinoBox(v.dino);
    SweepHitIff(v.cacti, v.speed, dino);
    if !Sweep(v.cacti, v.speed, dino).hit {
      SweepWithoutHit(v.cacti, v.speed, dino);
      SurvivorsOnScreen(v.cacti, v.speed);
    }
  }

  // ---------------------------------------------------------------------------
  // A jump

  /** The dino after n frames of physics. */
  function FallN(d: Dino, n: nat): Dino
  {
    if n == 0 then d else Fall(FallN(d, n - 1))
  }

  /** Just after the jump impulse. */
  const Jumped: Dino := Dino(RestY, JumpVelocity, false)

  /** The triangular number 1 + 2 + ... + n. */
  function Tri(n: nat): nat
  {
    if n == 0 then 0 else Tri(n - 1) + n
  }

  lemma TriBound(n: nat)
    requires n <= 36
    ensures 2 * Tri(n) <= 37 * n
  {
    TriClosed(n);
    MulMonotone(n, n + 1, 37);
  }

  lemma {:induction false} MulMonotone(a: nat, b: int, c: int)
    requires b <= c
    ensures a * b <= a * c
  {
    if a > 0 {
      MulMonotone(a - 1, b, c);
      assert a * b == (a - 1) * b + b && a * c == (a - 1) * c + c;
    }
  }

  lemma {:induction false} TriClosed(n: nat)
    ensures 2 * Tri(n) == n * (n + 1)
  {
    if n > 0 {
      TriClosed(n - 1);
    }
  }

  /** For 36 frames after a jump the dino is airborne and its velocity grows
      by the gravity constant each frame. */
  lemma {:induction false} JumpArc(n: nat)
    requires n <= 36
    ensures FallN(Jumped, n) ==
            Dino(RestY + JumpVelocity * n as real + Gravity * Tri(n) as real,
                 JumpVelocity + Gravity * n as real, false)
  {
    if n > 0 {
      JumpArc(n - 1);
      TriBound(n);
    }
  }

  /** The 37th frame after a jump puts the dino back on the ground at rest. */
  lemma Landing()
    ensures FallN(Jumped, 37) == Dino(RestY, 0.0, true)
  {
    JumpArc(36);
    assert Tri(36) == 666 by { TriClosed(36); }
  }

  // ---------------------------------------------------------------------------
  // The game object

  class Game {
    var state: GameState
    var dinoY: real
    var dinoVelY: real
    var onGround: bool
    var cacti: seq<Cactus>
    var cactusSpeed: real
    var score: int
    var highScore: int
    var nextCactusSpawn: real
    var spawnClock: int
    var scoreClock: int

    function Model(): World
      reads this
    {
      World(state, Dino(dinoY, dinoVelY, onGround), cacti, cactusSpeed, score, highScore,
            nextCactusSpawn, spawnClock, scoreClock)
    }

    constructor (now: int)
      ensures Model() == Initial(now) && Valid(Model())
    {
      state := Ready;
      dinoY, dinoVelY, onGround := RestY, 0.0, true;
      cacti := [];
      cactusSpeed := BaseSpeed;
      score, highScore := 0, 0;
      nextCactusSpawn := FirstSpawn;
      spawnClock, scoreClock := now, now;
    }

    method ResetGame(now: int)
      modifies this
      ensures Model() == Reset(old(Model()), now)
    {
      cacti := [];
      cactusSpeed := BaseSpeed;
      score := 0;
      spawnClock := now;
      scoreClock := now;
      nextCactusSpawn := FirstSpawn;
      dinoY := RestY;
      dinoVelY := 0.0;
      onGround := true;
      state := Playing;
    }

    method SpawnCactus(widthDraw: nat, heightDraw: nat)
      modifies this`cacti
      ensures cacti == old(cacti) + [NewCactus(widthDraw, heightDraw)]
    {
      var width := 18.0 + (widthDraw % 15) as real;
      var height := 35.0 + (heightDraw % 25) as real;
      cacti := cacti + [Cactus(Rect(WindowWidth, GroundY - height, width, height))];
    }

    /** The Space key. */
    method PressSpace(now: int)
      requires Valid(Model())
      modifies this
      ensures Model() == Space(old(Model()), now) && Valid(Model())
    {
      if state == Ready {
        ResetGame(now);
      } else if state == Playing {
        if onGround {
          dinoVelY := JumpVelocity;
          onGround := false;
        }
      } else if state == GameOver {
        state := Ready;
      }
      SpaceKeepsValid(old(Model()), now);
    }

    /** The update block of one frame. */
    method Update(now: int, widthDraw: nat, heightDraw: nat, u: real)
      requires Valid(Model()) && 0.0 <= u <= 1.0
      modifies this
      ensures Model() == Tick(old(Model()), now, widthDraw, heightDraw, u) && Valid(Model())
    {
      TickKeepsValid(Model(), now, widthDraw, heightDraw, u);
      if state == Playing {
        ApplyGravity();
        SpawnWhenDue(now, widthDraw, heightDraw, u);
        ghost var spawned := Model();
        SweepCacti();
        assert Model() == Collide(spawned);
        AdvanceScore(now);
      }
    }

    /** Dino physics: gravity, then the ground clamp. */
    method ApplyGravity()
      modifies this`dinoY, this`dinoVelY, this`onGround
      ensures Model() == old(Model()).(dino := Fall(old(Model()).dino))
    {
      dinoVelY := dinoVelY + Gravity;
      dinoY := dinoY + dinoVelY;
      if dinoY >= RestY {
        dinoY := RestY;
        dinoVelY := 0.0;
        onGround := true;
      }
    }

    /** Spawn a cactus when the spawn clock is past the interval, restart the
        clock and draw the next interval. */
    method SpawnWhenDue(now: int, widthDraw: nat, heightDraw: nat, u: real)
      modifies this`cacti, this`spawnClock, this`nextCactusSpawn
      ensures Model() == MaybeSpawn(old(Model()), now, widthDraw, heightDraw, u)
    {
      if (now - spawnClock) as real / MicrosPerSecond as real > nextCactusSpawn {
        SpawnCactus(widthDraw, heightDraw);
        spawnClock := now;
        nextCactusSpawn := SpawnMin + u * (SpawnMax - SpawnMin);
      }
    }

    /** One point per elapsed 80 ms, then the speed follows the score. */
    method AdvanceScore(now: int)
      modifies this`score, this`scoreClock, this`cactusSpeed
      ensures Model() == ScoreTick(old(Model()), now)
    {
      if (now - scoreClock) / MicrosPerMilli > ScoreTickMs {
        score := score + 1;
        scoreClock := now;
      }
      cactusSpeed := BaseSpeed + score as real / 200.0;
    }

    /** The cactus loop of the update block, then the collision outcome. */
    method SweepCacti()
      requires state == Playing
      modifies this`cacti, this`state, this`highScore
      ensures var r := Sweep(old(cacti), cactusSpeed, DinoBox(Dino(dinoY, dinoVelY, onGround)));
        && cacti == r.kept
        && state == (if r.hit then GameOver else Playing)
        && highScore == (if r.hit && score > old(highScore) then score else old(highScore))
    {
      var kept, hit := SweepLoop(cacti, cactusSpeed, DinoBox(Dino(dinoY, dinoVelY, onGround)));
      cacti := kept;
      if hit {
        state := GameOver;
        if score > highScore {
          highScore := score;
        }
      }
    }
  }
}
