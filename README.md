# SpaceX game: a model of the per-frame game state

SpaceX is a small pygame arcade game. The player steers a ship at the bottom of
a 680 x 700 window, fires lasers upwards and dodges waves of asteroids falling
from above. The repository holds two near-copies of the game:

- `SpaceX_game.py`, the full game;
- `game/SpaceX_game.py`, an earlier copy.

This project models the state each copy changes frame by frame:

- the laser cooldown counter and shooting;
- the laser list updates;
- the wave manager;
- bounded ship movement;
- the asteroid pass;
- the sticky lost state.

Rendering, image loading and the event loop are left out.

The code is imperative, so the model is too. `Player` and `Game` are classes
whose methods update their fields. Each method is proved against a
specification function over sequences, and the lemmas state what the game
promises about those functions.

- `common.dfy` (module `Common`) holds what both copies share:
  - the screen and speed constants;
  - lasers and asteroids as value records;
  - the pixel-mask collision test;
  - the cooldown rule (`NextCooldown`);
  - bounded movement (`Steered`);
  - the loss check (`CheckLoss`);
  - the spawn rule (`FromSpawn`, `Spawned`).

  The mask overlap call of the graphics library is an uninterpreted
  function-valued parameter (`Overlap`). `Collide` applies it at the offset
  between two sprites' origins.
- `spacex.dfy` (module `SpaceX`) models `SpaceX_game.py`.
  - Python's list iterator walks an index that advances after every element.
    So when a `for` loop removes the element it is visiting, the element after
    it is passed over in that pass.
  - `ShooterPass` (for `Objects.move_lasers`), `PlayerPass` and `StrikePass`
    (for `Player.move_lasers` and its inner loop) describe exactly that walk.
  - The methods that change the lists are proved equal to these functions.
  - The asteroid loop walks a copy of the list, so `Kept`, `Hits` and `Exits`
    visit every asteroid once.
  - `Game.Tick` is one iteration of `main`'s `while run` loop.
  - The QUIT event calls `quit()`, which ends the process in the middle of the
    frame; the model records this in `exited`.
- `gamecopy.dfy` (module `GameCopy`) models `game/SpaceX_game.py`.
  - `off_screen` has the opposite polarity.
  - `shoot` raises a NameError: it uses names `x` and `y` that are bound
    nowhere.
  - `cooldown` is never called, so the counter stays at 0 and every press of
    the fire key raises. `Game.crashed` records this.
  - The asteroid pass only moves asteroids and removes those whose bottom edge
    is below the screen.
  - QUIT only clears `run`, and the frame goes on.
  - The ship starts at (300, 650), with its bottom edge below the screen.
- `variants.dfy` (module `Variants`) relates the two copies.

Random values are inputs. `Spawn` carries the x and y drawn by
`random.randrange` and the size and mask of the randomly chosen, scaled and
rotated image. `SpawnInRange` constrains x and y to their ranges. Each frame's
keys and QUIT event are also inputs (`Keys` and `quit`).

Members of `Common` model code that appears identically in both files. Their
rows cite `SpaceX_game.py`; the same code is at these lines of
`game/SpaceX_game.py`:

| code | lines |
|---|---|
| `Laser.move` | 39-40 |
| `cooldown` | 64-68 |
| `collide` | 109-112 |
| loss check | 160-168 |
| wave spawn | 170-176 |
| movement | 182-190 |

## Model

| member | source | states |
|---|---|---|
| Common.CooldownInRange | SpaceX_game.py:72-76 | a counter in [0, 30] stays in [0, 30] after `cooldown`, and it becomes 0 exactly when it was 0 or 30 |
| Common.CooldownPeriod | SpaceX_game.py:72-82 | after `shoot` sets the counter to 1, n < 30 cooldown steps give 1 + n, the 30th gives 0, and none before it gives 0: a new shot needs 30 steps |
| Common.Steered | SpaceX_game.py:214-222 | each key step is taken only if the moved sprite stays strictly inside the screen on that side, and each step is exactly 3 pixels. A ship strictly inside stays strictly inside. Without a key on an axis that coordinate is unchanged |
| Common.SingleKeyGuards | SpaceX_game.py:215-222 | a single held key moves the ship exactly when x - 3 > 0, x + 3 + w < 680, y - 3 > 0 or y + 3 + h < 700 respectively |
| Common.CheckLoss | SpaceX_game.py:192-200 | `lost` is sticky and becomes true exactly when lives or health are at or below 0. The counter grows by one exactly in those frames. The frame is skipped while lost and the counter is at most 180; the loop stops exactly when lost and the counter passes 3 * FPS |
| Common.DeadFramesCount | SpaceX_game.py:192-200 | from a fresh game, after n dead frames the counter is n; frames 1..180 are frozen and frame 181 stops the loop |
| Common.FreshWave | SpaceX_game.py:205-208 | every spawned asteroid has full health, no lasers and counter 0, x in [50, 580) and y in [-1500, -100) |
| SpaceX.FlightPath | SpaceX_game.py:35-39 | a player laser keeps its column and climbs 5 pixels a frame; after n moves it is off screen exactly when it started less than 5n pixels from the top |
| SpaceX.FlightBelow | SpaceX_game.py:35-36 | a laser above the top keeps climbing by 5 a frame |
| SpaceX.ShooterPassAccounting | SpaceX_game.py:62-70 | in `Objects.move_lasers` every hit removes a laser: lasers left plus hits is at most the lasers before |
| SpaceX.ObjectsMoveLasers | SpaceX_game.py:62-70 | `Objects.move_lasers`: one cooldown step; the lasers become the pass's survivors, position and health of the shooter unchanged; the target loses 10 health per hit |
| SpaceX.IdleAsteroidLasers | SpaceX_game.py:228 | an asteroid never shoots, so its `move_lasers` call finds no laser, keeps its counter at 0 and leaves the player's health as it was |
| SpaceX.StrikePassHit | SpaceX_game.py:105-109 | the laser is removed (struck) exactly when some asteroid in the list collides with it |
| SpaceX.StrikePassSurvivors | SpaceX_game.py:105-107 | the asteroids left by the inner loop all come from the list (as a multiset) |
| SpaceX.StrikePassKeepsMisses | SpaceX_game.py:105-107 | every asteroid the laser misses survives the inner loop: the survivors include, as a multiset, all that the intended `StrikeAll` keeps |
| SpaceX.StrikePassShrinks | SpaceX_game.py:105-109 | a strike removes at least one asteroid; without a strike the list is unchanged |
| SpaceX.StrikePassSkipsNeighbour | SpaceX_game.py:105-107 | two consecutive asteroids that both collide with the laser: only the first is removed, the second survives |
| SpaceX.StrikeAll | SpaceX_game.py:105-107 | the inner loop as evidently intended: an asteroid survives exactly when it does not collide with the laser, and the laser strikes exactly when one does |
| SpaceX.PlayerPassRemovesOnly | SpaceX_game.py:98-109 | `Player.move_lasers` adds no laser and no asteroid: at most as many lasers as before, asteroids a sub-multiset |
| SpaceX.PlayerPassFromList | SpaceX_game.py:98-109 | every asteroid left by `Player.move_lasers` was in the list it was given |
| SpaceX.PlayerPassSkipsNext | SpaceX_game.py:100-103 | when a laser leaves the screen and is removed, the laser after it in the list is neither moved nor tested in that frame |
| SpaceX.SingleLaser | SpaceX_game.py:100-109 | for one laser: off screen it is dropped with no collision test; otherwise it is dropped exactly once if it struck any asteroid, however many it struck, and kept moved if not |
| SpaceX.AsteroidPassAccounting | SpaceX_game.py:226-234 | every asteroid of the snapshot is kept, destroyed on the player or lost through the bottom, exactly once; what is kept moved down by 1, misses the player and is not past the bottom |
| SpaceX.AsteroidPassKeeps | SpaceX_game.py:226-234 | every asteroid that after moving misses the player and is not past the bottom is kept |
| SpaceX.KeptIdle | SpaceX_game.py:226-228 | asteroids kept by the pass stay idle (no lasers, counter 0) |
| SpaceX.Player.constructor | SpaceX_game.py:92-96 | a player starts with the given position and health, `max_health` equal to it, counter 0 and no lasers |
| SpaceX.Player.Cooldown | SpaceX_game.py:72-76 | the counter takes one step of the cooldown rule |
| SpaceX.Player.Shoot | SpaceX_game.py:78-82 | with the counter at 0 exactly one laser is appended at (x + 8, y) and the counter becomes 1; otherwise lasers and counter are unchanged |
| SpaceX.Player.MoveLasers | SpaceX_game.py:98-109 | one cooldown step, then the lasers and the asteroid list become exactly what `PlayerPass` (the iterator walk with its skips) gives |
| SpaceX.Player.StepLaser | SpaceX_game.py:101-109 | the laser at the current position moves. Off screen it is removed and the asteroids are untouched; otherwise the inner loop runs |
| SpaceX.Player.StrikeAsteroids | SpaceX_game.py:105-109 | the inner loop gives exactly `StrikePass`, and the laser is removed from the list once if it struck |
| SpaceX.Game.constructor | SpaceX_game.py:147-166 | the game starts at level 1 with 6 lives, wave length 6, no asteroids, not lost, and the ship at (300, 575) with 100 health, max_health 100, counter 0 and no lasers |
| SpaceX.Game.SpawnWave | SpaceX_game.py:202-208 | level + 1, wave length + 3, and the list becomes exactly the new wave-length asteroids built from the draws, in order |
| SpaceX.Game.MovePlayer | SpaceX_game.py:214-222 | the ship moves exactly as `Steered` |
| SpaceX.Game.AsteroidPass | SpaceX_game.py:226-234 | the list becomes `Kept` of the snapshot; health drops by 10 per collision and lives by 1 per asteroid past the bottom |
| SpaceX.Game.AsteroidStep | SpaceX_game.py:227-234 | one asteroid moves down by 1. On a collision it is removed and costs 10 health; otherwise, past the bottom, it is removed and costs a life; otherwise it is kept |
| SpaceX.Game.Tick | SpaceX_game.py:188-236 | one frame. A frozen frame changes nothing but the loss state. Otherwise: a new wave exactly when the list was empty; QUIT exits; else the full `Acted` state. The ship stays inside, counter in [0, 30], asteroids idle; lives and health never grow |
| SpaceX.Game.Update | SpaceX_game.py:202-236 | the frame after the loss check. QUIT exits with the ship unchanged; otherwise `Acted` holds on the new wave |
| SpaceX.Game.Act | SpaceX_game.py:214-236 | movement, the shot at the moved ship, the asteroid pass against it, then the player's laser pass on what the asteroid pass kept |
| GameCopy.Player.constructor | game/SpaceX_game.py:84-88 | a player starts with the given position and health, counter 0 and no lasers |
| GameCopy.Player.Cooldown | game/SpaceX_game.py:64-68 | the counter takes one step of the same cooldown rule |
| GameCopy.Player.Shoot | game/SpaceX_game.py:70-74 | raises NameError exactly when the counter is 0; nothing changes either way |
| GameCopy.Player.ShootAtShip | game/SpaceX_game.py:70-74 | as intended: with the counter at 0 one laser is appended at the ship's (x, y) and the counter becomes 1; otherwise nothing changes |
| GameCopy.DriftAccounting | game/SpaceX_game.py:194-198 | every asteroid is either kept or lost through the bottom at the cost of one life; kept ones moved down by 1 and are not past the bottom |
| GameCopy.DriftKeeps | game/SpaceX_game.py:194-198 | every asteroid whose moved bottom edge is on screen is kept: removal happens exactly when y + height > 700 |
| GameCopy.DriftedIdle | game/SpaceX_game.py:194-198 | the pass keeps asteroids idle |
| GameCopy.Game.constructor | game/SpaceX_game.py:115-134 | level 1, 6 lives, wave length 6, no asteroids, not lost, ship at (300, 650) with 100 health |
| GameCopy.Game.SpawnWave | game/SpaceX_game.py:170-176 | level + 1, wave length + 3, the list becomes the new wave built from the draws |
| GameCopy.Game.MovePlayer | game/SpaceX_game.py:182-190 | the ship moves exactly as `Steered` |
| GameCopy.Game.AsteroidPass | game/SpaceX_game.py:194-198 | the list becomes `Drifted` of the snapshot and lives drop by the number fallen; health is not touched |
| GameCopy.Game.AsteroidStep | game/SpaceX_game.py:195-198 | one asteroid moves down by 1 and is removed with one life lost exactly when past the bottom |
| GameCopy.Game.Tick | game/SpaceX_game.py:156-198 | one frame. A frozen frame changes nothing but the loss state. Otherwise: the program crashes exactly when fire is held; QUIT only clears `run`; the ship moves as `Steered`; a new wave exactly when the list was empty; without fire the asteroid pass runs on the new wave. Health never changes, counter stays 0, no lasers |
| GameCopy.Game.Update | game/SpaceX_game.py:170-198 | the frame after the loss check; with fire held the frame ends at `shoot`, before the asteroid pass |
| GameCopy.DownBlockedFromStart | game/SpaceX_game.py:189 | a down move applies exactly when y < 586; from the start y = 650 it is refused |
| Variants.OffScreenPolarity | game/SpaceX_game.py:42-43 | the second copy's `off_screen` is the negation of the first copy's |
| Variants.FlightPolarity | game/SpaceX_game.py:42-43 | for a laser climbing from on screen, the second copy's `off_screen` holds exactly while it is still on screen |
| Variants.StartPositions | game/SpaceX_game.py:129 | the first copy's ship starts strictly inside the screen, the second copy's does not |

## Left out

- Rendering is left out because it draws to the screen and changes no game
  state: `draw`, `health_bar`, `redraw_window`, `main_menu`, fonts and labels.
- Image loading, scaling and rotation are left out because they are calls into
  the graphics library. Ship and laser sizes are constants; an asteroid's size
  and mask come with its spawn draw.
- Pixel masks are not modelled: the overlap test is the parameter `overlap`.
- `random` is left out. Draws are inputs and no distribution is modelled.
  - In the second copy, the four asteroid images are scaled once when the
    module loads. The model does not tie asteroids of one type to one size.
- `clock.tick` and event polling are left out because they are I/O and timing.
  - All QUIT events of one frame collapse into one flag.
  - `quit()` and `pygame.quit()` are recorded as `exited` rather than run.
- The model does not capture the identity of objects or aliasing between them.
  - Lasers and asteroids are values held in `seq` fields, and `list.remove` of
    the element being visited is removal at its position.
  - In the source, removal goes by object identity. For the element being
    visited, removal by identity and removal at its position coincide.
- `Objects.move_lasers` is modelled only for asteroids. Only the game loop
  calls it, with the player as target, so it is a function of a shooter
  record and the target's health.
- `get_width` and `get_height` are left out: the sprite sizes are plain
  integers.
- `Laser.collision` is not a member of its own; it is `Collide` with the laser
  first.
- GameCopy.Game.Tick does not model anything after a NameError. The frame ends
  at `shoot` with `crashed` set and the rest of the run is not modelled,
  because the exception ends the program.
- The laser pass in the second copy is not modelled: that copy never moves
  lasers and never creates one, so there is nothing to model.

## Findings

| source | as written | input that shows it | evidently intended | confidence | as-written member | corrected member |
|---|---|---|---|---|---|---|
| SpaceX_game.py:105-107 | `objects.remove(object)` inside `for object in objects` passes over the asteroid after each one removed | a laser overlapping two asteroids that are next to each other in the list: only the first is destroyed and the second survives the hit | every asteroid the laser overlaps is destroyed | not executed | SpaceX.StrikePassSkipsNeighbour | SpaceX.StrikeAll |
| game/SpaceX_game.py:72 | `Laser(x, y, self.laser_img)` uses names `x`, `y` bound nowhere, so NameError is raised | any frame where the fire key is held: the counter starts at 0 and is never stepped | a laser at the ship's own position `(self.x, self.y)`; it would also need a laser image, since `self.laser_img` is `None` in this copy (line 57) and building a laser takes a mask from it (line 34) | not executed | GameCopy.Player.Shoot | GameCopy.Player.ShootAtShip |

In both rows the game loop (`SpaceX.Player.MoveLasers`, `GameCopy.Game.Tick`)
follows the code as written, since that is what the game does. The corrected
members state the intended behaviour and prove it.
