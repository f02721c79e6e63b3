/**
 * What the two copies of the SpaceX game loop have in common: the screen and
 * speed constants, the value records for lasers and asteroids, the pixel-mask
 * collision test (as an uninterpreted overlap function), the cooldown rule,
 * the bounded player movement, the loss check and the asteroid spawn rule.
 */
module Common {

  const WIDTH: int := 680
  const HEIGHT: int := 700
  const FPS: int := 60
  const COOLDOWN: int := 30
  const PLAYER_VEL: int := 3
  const ASTEROID_VEL: int := 1
  const LASER_VEL: int := 5
  const DAMAGE: int := 10
  const START_HEALTH: int := 100
  const START_LIVES: int := 6
  const START_WAVE_LENGTH: int := 6
  const START_LEVEL: int := 1
  /** The ship image is scaled to 24 x 111 pixels in both copies. */
  const SHIP_WIDTH: int := 24
  const SHIP_HEIGHT: int := 111
  /** The first copy scales the laser image to 7 x 16 pixels; the second
      never scales it (and never builds a laser). */
  const LASER_WIDTH: int := 7
  const LASER_HEIGHT: int := 16
  /** Horizontal offset of a fired laser from the ship's left edge. */
  const LASER_OFFSET: int := 8

  // ---------------------------------------------------------------------
  // Collision

  /** Which sprite a pixel mask was taken from; asteroid masks depend on the
      random scale and rotation, so each asteroid carries its own. */
  datatype Mask = LaserMask | ShipMask | RockMask(id: nat)

  /** The mask overlap test of the graphics library: does mask `a` overlap
      mask `b` when `b` is shifted by (dx, dy) relative to `a`?  It is a
      foreign call, so the model takes it as a parameter. */
  type Overlap = (Mask, Mask, int, int) -> bool

  /** Position, size and mask of a sprite (top-left anchor). */
  datatype Body = Body(x: int, y: int, width: int, height: int, mask: Mask)

  /** `collide(a, b)`: the masks overlap at the offset of b's origin from a's. */
  predicate Collide(overlap: Overlap, a: Body, b: Body)
  {
    overlap(a.mask, b.mask, b.x - a.x, b.y - a.y)
  }

  // ---------------------------------------------------------------------
  // Entities held in lists

  /** A laser: its position; its image and mask are the same for all lasers. */
  datatype Laser = Laser(x: int, y: int)
  {
    /** `Laser.move(vel)`: only the vertical position changes. */
    function Moved(vel: int): Laser
    {
      this.(y := y + vel)
    }

    function Sprite(): Body
    {
      Body(x, y, LASER_WIDTH, LASER_HEIGHT, LaserMask)
    }
  }

  /** An asteroid: an `Objects` instance with its sprite, health, cooldown
      counter and (never used) list of lasers. */
  datatype Asteroid = Asteroid(body: Body, health: int, coolDown: int, lasers: seq<Laser>)
  {
    /** `Asteroid.move(vel)`: the asteroid drifts down by `vel`. */
    function Moved(vel: int): Asteroid
    {
      this.(body := body.(y := body.y + vel))
    }

    /** The bottom edge of the sprite is below the bottom of the screen. */
    predicate PastBottom()
    {
      body.y + body.height > HEIGHT
    }
  }

  // ---------------------------------------------------------------------
  // In-place list edits

  /** Assigning at the position right after `done` replaces that element. */
  lemma ReplaceAt<T>(done: seq<T>, x: T, y: T, rest: seq<T>)
    ensures (done + [x] + rest)[|done| := y] == done + [y] + rest
  {
  }

  /** Moving one element from the front of what is left to the end of what
      is done. */
  lemma Advance<T>(done: seq<T>, x: T, rest: seq<T>)
    ensures done + ([x] + rest) == (done + [x]) + rest
    ensures ([x] + rest)[0] == x && ([x] + rest)[1..] == rest
  {
  }

  /** The parts around the element right after `done`. */
  lemma Around<T>(done: seq<T>, x: T, rest: seq<T>)
    ensures (done + [x] + rest)[..|done|] == done
    ensures (done + [x] + rest)[|done|] == x
    ensures (done + [x] + rest)[|done| + 1..] == rest
  {
  }

  /** `list.remove` of the element right after `done`. */
  lemma RemoveAt<T>(done: seq<T>, x: T, rest: seq<T>)
    ensures (done + [x] + rest)[..|done|] + (done + [x] + rest)[|done| + 1..] == done + rest
  {
    var s := done + [x] + rest;
    assert s[..|done|] == done;
    assert s[|done| + 1..] == rest;
  }

  // ---------------------------------------------------------------------
  // Cooldown

  /** One `cooldown()` step of a counter. */
  function NextCooldown(c: int): int
  {
    if c >= COOLDOWN then 0
    else if c > 0 then c + 1
    else c
  }

  /** `c` steps of the cooldown rule in a row. */
  function CooldownAfter(c: int, n: nat): int
    decreases n
  {
    if n == 0 then c else CooldownAfter(NextCooldown(c), n - 1)
  }

  /** A counter in [0, COOLDOWN] stays there; a counter of 0 stays 0. */
  lemma CooldownInRange(c: int)
    requires 0 <= c <= COOLDOWN
    ensures 0 <= NextCooldown(c) <= COOLDOWN
    ensures NextCooldown(c) == 0 <==> c == 0 || c == COOLDOWN
  {
  }

  /** After a shot sets the counter to 1, the next 29 frames walk it up to
      COOLDOWN and the 30th puts it back to 0: at most one shot per 30 frames. */
  lemma {:induction false} CooldownPeriod(n: nat)
    requires n <= COOLDOWN
    ensures n < COOLDOWN ==> CooldownAfter(1, n) == 1 + n
    ensures n == COOLDOWN ==> CooldownAfter(1, n) == 0
    ensures forall k :: 0 <= k < n ==> CooldownAfter(1, k) != 0
  {
    if n > 0 {
      CooldownPeriod(n - 1);
      CooldownAfterLast(1, n - 1);
    }
  }

  /** Unrolling `CooldownAfter` from the other end. */
  lemma {:induction false} CooldownAfterLast(c: int, n: nat)
    ensures CooldownAfter(c, n + 1) == NextCooldown(CooldownAfter(c, n))
    decreases n
  {
    if n > 0 {
      CooldownAfterLast(NextCooldown(c), n - 1);
    }
  }

  // ---------------------------------------------------------------------
  // Player movement

  /** Which movement keys are held in a frame, and the fire key. */
  datatype Keys = Keys(left: bool, right: bool, up: bool, down: bool, fire: bool)

  datatype Pos = Pos(x: int, y: int)

  /** The sprite lies strictly inside the screen. */
  predicate Inside(x: int, y: int, width: int, height: int)
  {
    0 < x && x + width < WIDTH && 0 < y && y + height < HEIGHT
  }

  /** The four key checks of the game loop: each step is applied only when
      its result stays strictly inside the screen, and the checks run in the
      order left, right, up, down, each seeing the previous one's result. */
  function Steered(p: Pos, width: int, height: int, keys: Keys): (r: Pos)
    ensures Inside(p.x, p.y, width, height) ==> Inside(r.x, r.y, width, height)
    ensures r.x < p.x ==> keys.left && 0 < r.x && r.x == p.x - PLAYER_VEL
    ensures r.x > p.x ==> keys.right && r.x + width < WIDTH && r.x == p.x + PLAYER_VEL
    ensures r.y < p.y ==> keys.up && 0 < r.y && r.y == p.y - PLAYER_VEL
    ensures r.y > p.y ==> keys.down && r.y + height < HEIGHT && r.y == p.y + PLAYER_VEL
    ensures !keys.left && !keys.right ==> r.x == p.x
    ensures !keys.up && !keys.down ==> r.y == p.y
  {
    var x1 := if keys.left && p.x - PLAYER_VEL > 0 then p.x - PLAYER_VEL else p.x;
    var x2 := if keys.right && x1 + PLAYER_VEL + width < WIDTH then x1 + PLAYER_VEL else x1;
    var y1 := if keys.up && p.y - PLAYER_VEL > 0 then p.y - PLAYER_VEL else p.y;
    var y2 := if keys.down && y1 + PLAYER_VEL + height < HEIGHT then y1 + PLAYER_VEL else y1;
    Pos(x2, y2)
  }

  /** A single held key moves the ship exactly when the moved sprite would
      still be strictly inside the screen on that side. */
  lemma SingleKeyGuards(p: Pos, width: int, height: int)
    ensures Steered(p, width, height, Keys(true, false, false, false, false)).x
            == (if p.x - PLAYER_VEL > 0 then p.x - PLAYER_VEL else p.x)
    ensures Steered(p, width, height, Keys(false, true, false, false, false)).x
            == (if p.x + PLAYER_VEL + width < WIDTH then p.x + PLAYER_VEL else p.x)
    ensures Steered(p, width, height, Keys(false, false, true, false, false)).y
            == (if p.y - PLAYER_VEL > 0 then p.y - PLAYER_VEL else p.y)
    ensures Steered(p, width, height, Keys(false, false, false, true, false)).y
            == (if p.y + PLAYER_VEL + height < HEIGHT then p.y + PLAYER_VEL else p.y)
  {
  }

  // ---------------------------------------------------------------------
  // Loss

  /** What the rest of a frame does once the loss check has run. */
  datatype Frame = Play | Freeze | Stop

  datatype Loss = Loss(lost: bool, lostCount: int, frame: Frame)

  /** The loss check at the top of each frame: losing is entered when lives
      or health reach 0, and the counter grows in every frame where that
      holds; a lost frame is skipped (`continue`) until the counter passes
      3 * FPS, when `run` is cleared and the frame goes on to its end. */
  function CheckLoss(lost: bool, lostCount: int, lives: int, health: int): (r: Loss)
    ensures lost ==> r.lost
    ensures r.lost <==> lost || lives <= 0 || health <= 0
    ensures r.lostCount == lostCount || r.lostCount == lostCount + 1
    ensures r.lostCount == lostCount + 1 <==> lives <= 0 || health <= 0
    ensures r.frame == Play <==> !r.lost
    ensures r.frame == Stop <==> r.lost && r.lostCount > 3 * FPS
  {
    var dead := lives <= 0 || health <= 0;
    var lost' := lost || dead;
    var count' := if dead then lostCount + 1 else lostCount;
    Loss(lost', count', if !lost' then Play else if count' > FPS * 3 then Stop else Freeze)
  }

  /** The loss state after `n` frames in which lives or health are at or
      below 0 (a frozen frame changes neither), starting from a fresh game. */
  function DeadFrames(n: nat): Loss
  {
    if n == 0 then Loss(false, 0, Play)
    else
      var prev := DeadFrames(n - 1);
      CheckLoss(prev.lost, prev.lostCount, 0, 0)
  }

  /** The session ends on the first frame after exactly 3 * FPS frozen
      frames: frames 1 .. 180 are frozen, frame 181 stops the loop. */
  lemma {:induction false} DeadFramesCount(n: nat)
    requires n > 0
    ensures DeadFrames(n).lost && DeadFrames(n).lostCount == n
    ensures DeadFrames(n).frame == (if n <= 3 * FPS then Freeze else Stop)
  {
    if n > 1 {
      DeadFramesCount(n - 1);
    }
  }

  // ---------------------------------------------------------------------
  // Waves

  /** The random draws behind one spawned asteroid: x and y from
      `randrange`, and the size and mask of its randomly chosen, scaled and
      rotated sprite (computed by the graphics library). */
  datatype Spawn = Spawn(x: int, y: int, width: nat, height: nat, mask: nat)

  /** `randrange(50, WIDTH - 100)` and `randrange(-1500, -100)`. */
  predicate SpawnInRange(s: Spawn)
  {
    50 <= s.x < WIDTH - 100 && -1500 <= s.y < -100
  }

  predicate AllInRange(spawns: seq<Spawn>)
  {
    forall i :: 0 <= i < |spawns| ==> SpawnInRange(spawns[i])
  }

  /** `Asteroid(x, y, type)`: full health, counter 0, no lasers. */
  function FromSpawn(s: Spawn): Asteroid
  {
    Asteroid(Body(s.x, s.y, s.width, s.height, RockMask(s.mask)), START_HEALTH, 0, [])
  }

  /** The wave appended for the given draws, in order. */
  function Spawned(spawns: seq<Spawn>): seq<Asteroid>
  {
    seq(|spawns|, i requires 0 <= i < |spawns| => FromSpawn(spawns[i]))
  }

  /** The list the rest of a frame works on: a new wave when the list was
      empty, the list itself otherwise. */
  function NextWave(asteroids: seq<Asteroid>, spawns: seq<Spawn>): seq<Asteroid>
  {
    if asteroids == [] then Spawned(spawns) else asteroids
  }

  /** An asteroid that has not yet been hit, shot at or moved by anything
      but its own drift: it never shoots, so its lasers stay empty and its
      counter stays at 0. */
  predicate Idle(a: Asteroid)
  {
    a.lasers == [] && a.coolDown == 0
  }

  /** Every asteroid of a freshly spawned wave is idle, starts above the
      screen and lies within the spawn ranges. */
  lemma {:induction false} FreshWave(spawns: seq<Spawn>, wave: seq<Asteroid>)
    requires AllInRange(spawns)
    requires |wave| == |spawns|
    requires forall i :: 0 <= i < |wave| ==> wave[i] == FromSpawn(spawns[i])
    ensures forall a :: a in wave ==> Idle(a) && a.health == START_HEALTH
    ensures forall a :: a in wave ==> 50 <= a.body.x < 580 && -1500 <= a.body.y < -100
  {
    forall a | a in wave
      ensures Idle(a) && a.health == START_HEALTH
      ensures 50 <= a.body.x < 580 && -1500 <= a.body.y < -100
    {
      var i :| 0 <= i < |wave| && wave[i] == a;
      assert SpawnInRange(spawns[i]);
    }
  }
}
