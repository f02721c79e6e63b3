/**
 * The game-state logic of game/SpaceX_game.py, the second copy of the game.
 * It shares the cooldown rule, movement, loss check and wave spawn of the
 * first copy, but differs in four places: `off_screen` has the opposite
 * polarity, `shoot` builds its laser from the unbound names `x` and `y` and
 * so fails with a NameError, no laser list is ever updated, and the asteroid
 * pass only moves asteroids and removes those past the bottom edge (there is
 * no collision with the player).  The ship starts at (300, 650), with its
 * bottom edge below the screen, and a QUIT event only clears `run`.
 */
module GameCopy {
  import opened Common

  /** The ship's starting position in this copy. */
  const START_X: int := 300
  const START_Y: int := 650

  /** `Laser.off_screen(height)` as written here: within [0, height]. */
  predicate OffScreen(l: Laser, height: int)
  {
    l.y <= height && l.y >= 0
  }

  /** How a call to `shoot` ends. */
  datatype Outcome = Done | NameError

  class Player {
    var x: int
    var y: int
    var health: int
    var coolDown: int
    var lasers: seq<Laser>
    const maxHealth: int

    constructor (x0: int, y0: int, health0: int)
      ensures x == x0 && y == y0 && health == health0 && maxHealth == health0
      ensures coolDown == 0 && lasers == []
    {
      x, y, health, maxHealth := x0, y0, health0, health0;
      coolDown, lasers := 0, [];
    }

    /** `cooldown()`: the same rule as in the first copy. */
    method Cooldown()
      modifies this`coolDown
      ensures coolDown == NextCooldown(old(coolDown))
    {
      if coolDown >= COOLDOWN {
        coolDown := 0;
      } else if coolDown > 0 {
        coolDown := coolDown + 1;
      }
    }

    /** `shoot()` as written: with the counter at 0 the laser is built from
        the names `x` and `y`, which are bound nowhere in the module, so the
        call raises a NameError before anything is changed; with any other
        counter it does nothing. */
    method Shoot() returns (r: Outcome)
      ensures r == NameError <==> coolDown == 0
    {
      r := Done;
      if coolDown == 0 {
        r := NameError;
      }
    }

    /** `shoot()` as evidently intended, with the laser at the ship's own
        position: one laser is added and the counter starts at 1. */
    method ShootAtShip()
      modifies this`coolDown, this`lasers
      ensures old(coolDown) == 0 ==> lasers == old(lasers) + [Laser(x, y)] && coolDown == 1
      ensures old(coolDown) != 0 ==> lasers == old(lasers) && coolDown == old(coolDown)
    {
      if coolDown == 0 {
        lasers := lasers + [Laser(x, y)];
        coolDown := 1;
      }
    }
  }

  // ---------------------------------------------------------------------
  // The asteroid pass

  /** The asteroids of the snapshot `s` that are kept after moving down by
      one: those whose bottom edge is not below the screen. */
  function Drifted(s: seq<Asteroid>): seq<Asteroid>
    decreases |s|
  {
    if s == [] then []
    else
      var a := s[|s| - 1].Moved(ASTEROID_VEL);
      var r := Drifted(s[..|s| - 1]);
      if a.PastBottom() then r else r + [a]
  }

  /** How many asteroids of the snapshot leave through the bottom. */
  function Fallen(s: seq<Asteroid>): nat
    decreases |s|
  {
    if s == [] then 0
    else Fallen(s[..|s| - 1]) + if s[|s| - 1].Moved(ASTEROID_VEL).PastBottom() then 1 else 0
  }

  /** Every asteroid of the snapshot is either kept, moved down by one, or
      lost through the bottom at the cost of one life; what is kept is not
      past the bottom. */
  lemma {:induction false} DriftAccounting(s: seq<Asteroid>)
    ensures |Drifted(s)| + Fallen(s) == |s|
    ensures forall a :: a in Drifted(s) ==>
              !a.PastBottom() && exists b :: b in s && a == b.Moved(ASTEROID_VEL)
    decreases |s|
  {
    if s != [] {
      var init := s[..|s| - 1];
      DriftAccounting(init);
      assert forall b :: b in init ==> b in s;
      assert s[|s| - 1] in s;
    }
  }

  /** Conversely, every asteroid whose moved bottom edge is still on screen
      is kept: an asteroid is removed exactly when it is past the bottom. */
  lemma {:induction false} DriftKeeps(s: seq<Asteroid>)
    ensures forall b :: b in s && !b.Moved(ASTEROID_VEL).PastBottom() ==> b.Moved(ASTEROID_VEL) in Drifted(s)
    decreases |s|
  {
    if s != [] {
      var init := s[..|s| - 1];
      DriftKeeps(init);
      assert s == init + [s[|s| - 1]];
      assert forall b :: b in s ==> b in init || b == s[|s| - 1];
    }
  }

  /** Moving keeps an asteroid idle, so the kept list stays idle. */
  lemma {:induction false} DriftedIdle(s: seq<Asteroid>)
    requires forall a :: a in s ==> Idle(a)
    ensures forall a :: a in Drifted(s) ==> Idle(a)
    decreases |s|
  {
    if s != [] {
      var init := s[..|s| - 1];
      assert forall a :: a in init ==> a in s;
      assert s[|s| - 1] in s;
      DriftedIdle(init);
    }
  }

  /** Mid-pass, the asteroid the snapshot visits next sits at position
      `i` of the live list, right after the ones kept so far. */
  lemma DriftAt(snapshot: seq<Asteroid>, k: nat, live: seq<Asteroid>, i: nat)
    requires k < |snapshot|
    requires live == Drifted(snapshot[..k]) + snapshot[k..]
    requires i == |Drifted(snapshot[..k])|
    ensures i < |live| && live[i] == snapshot[k]
    ensures live[..i] == Drifted(snapshot[..k]) && live[i + 1..] == snapshot[k + 1..]
  {
    var rest := snapshot[k + 1..];
    assert snapshot[k..] == [snapshot[k]] + rest;
    Advance(Drifted(snapshot[..k]), snapshot[k], rest);
    Around(Drifted(snapshot[..k]), snapshot[k], rest);
  }

  /** One asteroid of the pass over the snapshot: the live list after the
      step on position `i` is the next prefix's pass followed by the rest of
      the snapshot, and the lives lost grow by that asteroid's outcome. */
  lemma DriftAdvance(snapshot: seq<Asteroid>, k: nat, pre: seq<Asteroid>, post: seq<Asteroid>, i: nat)
    requires k < |snapshot|
    requires pre == Drifted(snapshot[..k]) + snapshot[k..]
    requires i == |Drifted(snapshot[..k])|
    requires i < |pre|
    requires var a := snapshot[k].Moved(ASTEROID_VEL);
             post == pre[..i] + (if a.PastBottom() then [] else [a]) + pre[i + 1..]
    ensures post == Drifted(snapshot[..k + 1]) + snapshot[k + 1..]
    ensures |Drifted(snapshot[..k + 1])| == if snapshot[k].Moved(ASTEROID_VEL).PastBottom() then i else i + 1
    ensures Fallen(snapshot[..k + 1])
            == Fallen(snapshot[..k]) + if snapshot[k].Moved(ASTEROID_VEL).PastBottom() then 1 else 0
  {
    DriftAt(snapshot, k, pre, i);
    assert snapshot[..k + 1][..k] == snapshot[..k];
  }

  // ---------------------------------------------------------------------
  // The game loop

  /** The state `main` keeps across frames. */
  class Game {
    const player: Player
    var run: bool
    var level: int
    var lives: int
    var waveLength: int
    var lost: bool
    var lostCount: int
    var asteroids: seq<Asteroid>
    /** A NameError from `shoot` ended the program. */
    var crashed: bool

    /** What every frame keeps: the ship's left and right edges strictly
        inside the screen and its top edge strictly below the top, at most as
        low as where it started; its counter at 0, no laser, full health; and
        every asteroid idle. */
    ghost predicate Valid()
      reads this, player
    {
      && 0 < player.x && player.x + SHIP_WIDTH < WIDTH && 0 < player.y <= START_Y
      && player.coolDown == 0 && player.lasers == [] && player.health == START_HEALTH
      && forall a :: a in asteroids ==> Idle(a)
    }

    /** The start of `main`: the ship at (300, 650) with 100 health. */
    constructor ()
      ensures Valid() && fresh(player)
      ensures run && !crashed && !lost && lostCount == 0
      ensures level == START_LEVEL && lives == START_LIVES && waveLength == START_WAVE_LENGTH
      ensures asteroids == []
      ensures player.x == START_X && player.y == START_Y
    {
      player := new Player(START_X, START_Y, START_HEALTH);
      run, crashed, lost, lostCount := true, false, false, 0;
      level, lives, waveLength := START_LEVEL, START_LIVES, START_WAVE_LENGTH;
      asteroids := [];
    }

    /** The wave manager: with no asteroid left, the level goes up by one,
        the wave length by three, and that many asteroids are appended. */
    method SpawnWave(spawns: seq<Spawn>)
      requires asteroids == []
      requires |spawns| == waveLength + 3
      modifies this`level, this`waveLength, this`asteroids
      ensures level == old(level) + 1 && waveLength == old(waveLength) + 3
      ensures |asteroids| == waveLength && asteroids == Spawned(spawns)
    {
      level := level + 1;
      waveLength := waveLength + 3;
      for i := 0 to waveLength
        invariant level == old(level) + 1 && waveLength == old(waveLength) + 3
        invariant |asteroids| == i
        invariant forall j :: 0 <= j < i ==> asteroids[j] == FromSpawn(spawns[j])
      {
        asteroids := asteroids + [FromSpawn(spawns[i])];
      }
    }

    /** The movement keys of one frame. */
    method MovePlayer(keys: Keys)
      modifies player`x, player`y
      ensures Pos(player.x, player.y) == Steered(old(Pos(player.x, player.y)), SHIP_WIDTH, SHIP_HEIGHT, keys)
    {
      if keys.left && player.x - PLAYER_VEL > 0 {
        player.x := player.x - PLAYER_VEL;
      }
      if keys.right && player.x + PLAYER_VEL + SHIP_WIDTH < WIDTH {
        player.x := player.x + PLAYER_VEL;
      }
      if keys.up && player.y - PLAYER_VEL > 0 {
        player.y := player.y - PLAYER_VEL;
      }
      if keys.down && player.y + PLAYER_VEL + SHIP_HEIGHT < HEIGHT {
        player.y := player.y + PLAYER_VEL;
      }
    }

    /** The asteroid pass over a copy of the list: each asteroid moves down
        and is removed, with one life lost, once its bottom edge is below
        the screen. */
    method AsteroidPass()
      modifies this`lives, this`asteroids
      ensures asteroids == Drifted(old(asteroids))
      ensures lives == old(lives) - Fallen(old(asteroids))
    {
      var snapshot := asteroids;
      var i := 0;
      for k := 0 to |snapshot|
        invariant asteroids == Drifted(snapshot[..k]) + snapshot[k..]
        invariant i == |Drifted(snapshot[..k])|
        invariant lives == old(lives) - Fallen(snapshot[..k])
      {
        ghost var pre := asteroids;
        DriftAt(snapshot, k, pre, i);
        var kept := AsteroidStep(i);
        DriftAdvance(snapshot, k, pre, asteroids, i);
        if kept {
          i := i + 1;
        }
      }
      assert snapshot[..|snapshot|] == snapshot;
    }

    /** The body of the asteroid pass for the asteroid at position `i` of
        the live list: it moves down, and is removed with one life lost when
        its bottom edge is below the screen. */
    method AsteroidStep(i: nat) returns (kept: bool)
      requires i < |asteroids|
      modifies this`lives, this`asteroids
      ensures var a := old(asteroids[i]).Moved(ASTEROID_VEL);
              && kept == !a.PastBottom()
              && asteroids == old(asteroids[..i]) + (if kept then [a] else []) + old(asteroids[i + 1..])
              && lives == old(lives) - (if kept then 0 else 1)
    {
      var asteroid := asteroids[i].Moved(ASTEROID_VEL);
      asteroids := asteroids[i := asteroid];
      kept := true;
      if asteroid.PastBottom() {
        lives := lives - 1;
        asteroids := asteroids[..i] + asteroids[i + 1..];
        kept := false;
      }
    }

    /** One iteration of the `while run` loop of `main`.  A lost frame is
        skipped until the loss counter passes 3 * FPS; the frame that clears
        `run`, by the loss counter or by QUIT, still runs to its end, unless
        the fire key makes `shoot` fail. */
    method Tick(keys: Keys, quit: bool, spawns: seq<Spawn>)
      requires Valid() && run && !crashed
      requires AllInRange(spawns) && |spawns| == waveLength + 3
      modifies this, player
      ensures Valid() && player.health == old(player.health)
      ensures var loss := CheckLoss(old(lost), old(lostCount), old(lives), old(player.health));
              && lost == loss.lost && lostCount == loss.lostCount
              && (loss.frame == Freeze ==>
                    && run && !crashed && unchanged(player)
                    && level == old(level) && waveLength == old(waveLength)
                    && lives == old(lives) && asteroids == old(asteroids))
              && (loss.frame != Freeze ==>
                    && crashed == keys.fire
                    && run == (loss.frame == Play && !quit)
                    && Pos(player.x, player.y)
                       == Steered(Pos(old(player.x), old(player.y)), SHIP_WIDTH, SHIP_HEIGHT, keys)
                    && (old(asteroids) == [] ==> level == old(level) + 1 && waveLength == old(waveLength) + 3)
                    && (old(asteroids) != [] ==> level == old(level) && waveLength == old(waveLength)))
              && (loss.frame != Freeze && !keys.fire ==>
                    && asteroids == Drifted(NextWave(old(asteroids), spawns))
                    && lives == old(lives) - Fallen(NextWave(old(asteroids), spawns)))
      ensures lives <= old(lives)
    {
      if lives <= 0 || player.health <= 0 {
        lost := true;
        lostCount := lostCount + 1;
      }
      if lost {
        if lostCount > FPS * 3 {
          run := false;
        } else {
          return;
        }
      }
      Update(keys, quit, spawns);
    }

    /** The part of a frame after the loss check: wave spawn, the QUIT
        event, movement, firing and the asteroid pass. */
    method Update(keys: Keys, quit: bool, spawns: seq<Spawn>)
      requires Valid() && !crashed
      requires AllInRange(spawns) && |spawns| == waveLength + 3
      modifies this`run, this`crashed, this`level, this`waveLength, this`asteroids, this`lives, player`x, player`y
      ensures Valid()
      ensures crashed == keys.fire && run == (old(run) && !quit)
      ensures Pos(player.x, player.y) == Steered(Pos(old(player.x), old(player.y)), SHIP_WIDTH, SHIP_HEIGHT, keys)
      ensures old(asteroids) == [] ==> level == old(level) + 1 && waveLength == old(waveLength) + 3
      ensures old(asteroids) != [] ==> level == old(level) && waveLength == old(waveLength)
      ensures !keys.fire ==> asteroids == Drifted(NextWave(old(asteroids), spawns))
                             && lives == old(lives) - Fallen(NextWave(old(asteroids), spawns))
      ensures keys.fire ==> asteroids == NextWave(old(asteroids), spawns) && lives == old(lives)
    {
      if |asteroids| == 0 {
        SpawnWave(spawns);
      }
      if quit {
        run := false;
      }
      MovePlayer(keys);
      if keys.fire {
        var outcome := player.Shoot();
        if outcome == NameError {
          crashed := true;
          return;
        }
      }
      ghost var wave := asteroids;
      AsteroidPass();
      DriftedIdle(wave);
    }
  }
  /** From the start (300, 650) the ship's bottom edge is below the screen,
      so a down move is refused until the ship has climbed above y = 586. */
  lemma DownBlockedFromStart(p: Pos, keys: Keys)
    requires keys.down && !keys.up
    ensures Steered(p, SHIP_WIDTH, SHIP_HEIGHT, keys).y == if p.y < 586 then p.y + PLAYER_VEL else p.y
    ensures p.y == START_Y ==> Steered(p, SHIP_WIDTH, SHIP_HEIGHT, keys).y == START_Y
  {
  }
}
