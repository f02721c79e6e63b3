/**
 * The game-state logic of SpaceX_game.py: the player's cooldown, shooting
 * and laser update (which destroys asteroids), the generic laser update of
 * `Objects` run by every asteroid, and one frame of the `main` loop (loss
 * check, wave spawn, bounded movement, asteroid pass, player lasers).
 *
 * Lists that the source changes while a `for` loop walks them are walked
 * the way Python's list iterator does: an index that advances after every
 * element, so the element right after a removed one is passed over in that
 * pass.  The functions below describe the same walk structurally.
 */
module SpaceX {
  import opened Common

  /** The ship's starting position in this copy. */
  const START_X: int := 300
  const START_Y: int := 575

  /** `Laser.off_screen(height)`: not within [0, height]. */
  predicate OffScreen(l: Laser, height: int)
  {
    !(l.y <= height && l.y >= 0)
  }

  /** A laser after `n` frames of flight at the player's laser speed. */
  function Flight(l: Laser, n: nat): Laser
    decreases n
  {
    if n == 0 then l else Flight(l.Moved(-LASER_VEL), n - 1)
  }

  /** A player laser keeps its column, climbs 5 pixels a frame, and is off
      screen after `n` moves exactly when it has climbed above the top. */
  lemma {:induction false} FlightPath(l: Laser, n: nat)
    requires 0 <= l.y <= HEIGHT
    ensures Flight(l, n) == Laser(l.x, l.y - LASER_VEL * n)
    ensures OffScreen(Flight(l, n), HEIGHT) <==> l.y < LASER_VEL * n
    decreases n
  {
    if n > 0 {
      var m := l.Moved(-LASER_VEL);
      if m.y >= 0 {
        FlightPath(m, n - 1);
      } else {
        FlightBelow(m, n - 1);
      }
    }
  }

  /** A laser that has left through the top keeps climbing. */
  lemma {:induction false} FlightBelow(l: Laser, n: nat)
    requires l.y < 0
    ensures Flight(l, n) == Laser(l.x, l.y - LASER_VEL * n)
    decreases n
  {
    if n > 0 {
      FlightBelow(l.Moved(-LASER_VEL), n - 1);
    }
  }

  // ---------------------------------------------------------------------
  // `Objects.move_lasers`: lasers of a shooter against one target

  /** The lasers left and the number of hits on the target after one pass
      of `Objects.move_lasers` (its cooldown step aside).  A laser that is
      off screen after moving is removed; otherwise one that collides with
      the target costs it 10 health and is removed; a removal makes the
      iteration pass over the following laser, which stays unmoved. */
  function ShooterPass(ls: seq<Laser>, vel: int, target: Body, overlap: Overlap): (r: (seq<Laser>, nat))
    decreases |ls|
  {
    if ls == [] then ([], 0)
    else
      var l := ls[0].Moved(vel);
      var off := OffScreen(l, HEIGHT);
      var hit := !off && Collide(overlap, l.Sprite(), target);
      if !off && !hit then
        var r := ShooterPass(ls[1..], vel, target, overlap);
        ([l] + r.0, r.1)
      else if |ls| == 1 then
        ([], if hit then 1 else 0)
      else
        var r := ShooterPass(ls[2..], vel, target, overlap);
        ([ls[1]] + r.0, r.1 + if hit then 1 else 0)
  }

  /** Every hit removes a laser: the lasers lost number at least the hits,
      and no laser is added. */
  lemma {:induction false} ShooterPassAccounting(ls: seq<Laser>, vel: int, target: Body, overlap: Overlap)
    ensures |ShooterPass(ls, vel, target, overlap).0| + ShooterPass(ls, vel, target, overlap).1 <= |ls|
    decreases |ls|
  {
    if |ls| == 1 {
    } else if |ls| > 1 {
      ShooterPassAccounting(ls[1..], vel, target, overlap);
      ShooterPassAccounting(ls[2..], vel, target, overlap);
    }
  }

  /** `Objects.move_lasers(vel, objects)` run by an asteroid against the
      player: the cooldown step, then the pass over its own lasers, which
      costs the target 10 health per hit. */
  method ObjectsMoveLasers(a: Asteroid, vel: int, target: Body, health: int, overlap: Overlap)
    returns (a': Asteroid, health': int)
    ensures a'.body == a.body && a'.health == a.health
    ensures a'.coolDown == NextCooldown(a.coolDown)
    ensures a'.lasers == ShooterPass(a.lasers, vel, target, overlap).0
    ensures health' == health - DAMAGE * ShooterPass(a.lasers, vel, target, overlap).1
  {
    // self.cooldown()
    var c := a.coolDown;
    if c >= COOLDOWN {
      c := 0;
    } else if c > 0 {
      c := c + 1;
    }
    var lasers := a.lasers;
    health' := health;
    var k := 0;
    ghost var out: seq<Laser> := [];
    ghost var rest := lasers;
    ghost var hits: nat := 0;
    while k < |lasers|
      invariant lasers == out + rest
      invariant k == |out| || (k == |out| + 1 && rest == [])
      invariant health' == health - DAMAGE * hits
      invariant ShooterPass(a.lasers, vel, target, overlap).0 == out + ShooterPass(rest, vel, target, overlap).0
      invariant ShooterPass(a.lasers, vel, target, overlap).1 == hits + ShooterPass(rest, vel, target, overlap).1
      decreases |lasers| - k
    {
      Advance(out, rest[0], rest[1..]);
      assert [rest[0]] + rest[1..] == rest;
      var laser := lasers[k].Moved(vel);
      ReplaceAt(out, rest[0], laser, rest[1..]);
      lasers := lasers[k := laser];
      var removed := false;
      if OffScreen(laser, HEIGHT) {
        RemoveAt(out, laser, rest[1..]);
        lasers := lasers[..k] + lasers[k + 1..];
        removed := true;
      } else if Collide(overlap, laser.Sprite(), target) {
        health' := health' - DAMAGE;
        hits := hits + 1;
        RemoveAt(out, laser, rest[1..]);
        lasers := lasers[..k] + lasers[k + 1..];
        removed := true;
      }
      ghost var step := ShooterPass(rest, vel, target, overlap);
      if !removed {
        assert step.0 == [laser] + ShooterPass(rest[1..], vel, target, overlap).0;
        Advance(out, laser, ShooterPass(rest[1..], vel, target, overlap).0);
        Advance(out, laser, rest[1..]);
        out, rest := out + [laser], rest[1..];
      } else if |rest| == 1 {
        assert step.0 == [];
        rest := [];
      } else {
        assert step.0 == [rest[1]] + ShooterPass(rest[2..], vel, target, overlap).0;
        Advance(out, rest[1], ShooterPass(rest[2..], vel, target, overlap).0);
        Advance(out, rest[1], rest[2..]);
        assert [rest[1]] + rest[2..] == rest[1..];
        out, rest := out + [rest[1]], rest[2..];
      }
      k := k + 1;
    }
    a' := a.(coolDown := c, lasers := lasers);
  }

  /** An asteroid never shoots, so the `move_lasers` call made for it each
      frame finds no laser: the asteroid and the player's health are left
      as they were. */
  lemma IdleAsteroidLasers(a: Asteroid, vel: int, target: Body, overlap: Overlap)
    requires Idle(a)
    ensures ShooterPass(a.lasers, vel, target, overlap) == ([], 0)
    ensures a.(coolDown := NextCooldown(a.coolDown), lasers := []) == a
  {
  }

  // ---------------------------------------------------------------------
  // `Player.move_lasers`: player lasers against the asteroid list

  /** The inner loop of `Player.move_lasers` for one laser: the asteroids
      left, and whether the laser struck any.  A struck asteroid is removed,
      which makes the iteration pass over the asteroid after it untested. */
  function StrikePass(l: Laser, objects: seq<Asteroid>, overlap: Overlap): (r: (seq<Asteroid>, bool))
    decreases |objects|
  {
    if objects == [] then ([], false)
    else if !Collide(overlap, l.Sprite(), objects[0].body) then
      var r := StrikePass(l, objects[1..], overlap);
      ([objects[0]] + r.0, r.1)
    else if |objects| == 1 then ([], true)
    else ([objects[1]] + StrikePass(l, objects[2..], overlap).0, true)
  }

  /** One step of the strike pass. */
  lemma StrikeUnfold(l: Laser, objects: seq<Asteroid>, overlap: Overlap)
    requires objects != []
    ensures !Collide(overlap, l.Sprite(), objects[0].body) ==>
              StrikePass(l, objects, overlap).0 == [objects[0]] + StrikePass(l, objects[1..], overlap).0
              && StrikePass(l, objects, overlap).1 == StrikePass(l, objects[1..], overlap).1
    ensures Collide(overlap, l.Sprite(), objects[0].body) && |objects| == 1 ==>
              StrikePass(l, objects, overlap) == ([], true)
    ensures Collide(overlap, l.Sprite(), objects[0].body) && |objects| > 1 ==>
              StrikePass(l, objects, overlap) == ([objects[1]] + StrikePass(l, objects[2..], overlap).0, true)
  {
  }

  /** The laser strikes exactly when some asteroid collides with it: until
      the first strike no asteroid is passed over. */
  lemma {:induction false} StrikePassHit(l: Laser, objects: seq<Asteroid>, overlap: Overlap)
    ensures StrikePass(l, objects, overlap).1
            <==> exists a :: a in objects && Collide(overlap, l.Sprite(), a.body)
    decreases |objects|
  {
    if objects == [] {
    } else if !Collide(overlap, l.Sprite(), objects[0].body) {
      StrikePassHit(l, objects[1..], overlap);
      assert forall a :: a in objects ==> a == objects[0] || a in objects[1..];
    } else {
      assert objects[0] in objects;
    }
  }

  /** The survivors of the strike pass come from the list. */
  lemma {:induction false} StrikePassSurvivors(l: Laser, objects: seq<Asteroid>, overlap: Overlap)
    ensures multiset(StrikePass(l, objects, overlap).0) <= multiset(objects)
    decreases |objects|
  {
    if objects == [] {
    } else if !Collide(overlap, l.Sprite(), objects[0].body) {
      StrikePassSurvivors(l, objects[1..], overlap);
      assert objects == [objects[0]] + objects[1..];
    } else if |objects| > 1 {
      StrikePassSurvivors(l, objects[2..], overlap);
      assert objects == [objects[0], objects[1]] + objects[2..];
    }
  }

  /** Every asteroid the laser misses survives the strike pass: the
      as-written pass keeps at least what the intended pass `StrikeAll`
      keeps. */
  lemma {:induction false} StrikePassKeepsMisses(l: Laser, objects: seq<Asteroid>, overlap: Overlap)
    ensures multiset(StrikeAll(l, objects, overlap).0) <= multiset(StrikePass(l, objects, overlap).0)
    decreases |objects|
  {
    if objects == [] {
    } else if !Collide(overlap, l.Sprite(), objects[0].body) {
      StrikePassKeepsMisses(l, objects[1..], overlap);
    } else if |objects| > 1 {
      StrikePassKeepsMisses(l, objects[2..], overlap);
      assert objects[1..][0] == objects[1] && objects[1..][1..] == objects[2..];
      assert StrikePass(l, objects, overlap).0 == [objects[1]] + StrikePass(l, objects[2..], overlap).0;
    }
  }

  /** A strike removes at least one asteroid, and without one the list is
      unchanged. */
  lemma {:induction false} StrikePassShrinks(l: Laser, objects: seq<Asteroid>, overlap: Overlap)
    ensures StrikePass(l, objects, overlap).1 ==> |StrikePass(l, objects, overlap).0| < |objects|
    ensures !StrikePass(l, objects, overlap).1 ==> StrikePass(l, objects, overlap).0 == objects
    decreases |objects|
  {
    if objects == [] {
    } else if !Collide(overlap, l.Sprite(), objects[0].body) {
      StrikePassShrinks(l, objects[1..], overlap);
      assert objects == [objects[0]] + objects[1..];
    } else if |objects| > 1 {
      StrikePassShrinks(l, objects[2..], overlap);
    }
  }

  /** The as-written strike pass can leave a struck asteroid in the list:
      when two asteroids in a row collide with the laser, the second one is
      passed over and survives. */
  lemma StrikePassSkipsNeighbour(l: Laser, a: Asteroid, b: Asteroid, overlap: Overlap)
    requires Collide(overlap, l.Sprite(), a.body) && Collide(overlap, l.Sprite(), b.body)
    ensures StrikePass(l, [a, b], overlap) == ([b], true)
  {
    var objects := [a, b];
    assert objects[0] == a && objects[1] == b && objects[2..] == [];
    assert StrikePass(l, objects[2..], overlap) == ([], false);
    assert StrikePass(l, objects, overlap) == ([objects[1]] + StrikePass(l, objects[2..], overlap).0, true);
    assert [objects[1]] + StrikePass(l, objects[2..], overlap).0 == [b];
  }

  /** The strike pass as evidently intended (walking a copy of the list, as
      the asteroid pass of the game loop does): every asteroid that collides
      with the laser is removed and every other one is kept, in order. */
  function StrikeAll(l: Laser, objects: seq<Asteroid>, overlap: Overlap): (r: (seq<Asteroid>, bool))
    ensures forall a :: a in r.0 <==> a in objects && !Collide(overlap, l.Sprite(), a.body)
    ensures r.1 <==> exists a :: a in objects && Collide(overlap, l.Sprite(), a.body)
    ensures |r.0| <= |objects|
    decreases |objects|
  {
    if objects == [] then ([], false)
    else
      var r := StrikeAll(l, objects[1..], overlap);
      assert forall a :: a in objects <==> a == objects[0] || a in objects[1..];
      if Collide(overlap, l.Sprite(), objects[0].body) then (r.0, true)
      else ([objects[0]] + r.0, r.1)
  }

  /** The lasers and asteroids left after one pass of `Player.move_lasers`
      (its cooldown step aside).  A laser off screen after moving is removed
      with no collision test; otherwise it is tested against every asteroid
      still in the list and removed once if it struck any.  Each removal of
      a laser makes the iteration pass over the next laser, unmoved. */
  function PlayerPass(ls: seq<Laser>, vel: int, objects: seq<Asteroid>, overlap: Overlap)
    : (r: (seq<Laser>, seq<Asteroid>))
    decreases |ls|
  {
    if ls == [] then ([], objects)
    else
      var l := ls[0].Moved(vel);
      var off := OffScreen(l, HEIGHT);
      var s := if off then (objects, false) else StrikePass(l, objects, overlap);
      if !off && !s.1 then
        var r := PlayerPass(ls[1..], vel, s.0, overlap);
        ([l] + r.0, r.1)
      else if |ls| == 1 then ([], s.0)
      else
        var r := PlayerPass(ls[2..], vel, s.0, overlap);
        ([ls[1]] + r.0, r.1)
  }

  /** One step of the player's laser pass, for a laser that is dropped
      (`removed`) or kept. */
  lemma PlayerPassUnfold(ls: seq<Laser>, vel: int, objects: seq<Asteroid>, overlap: Overlap,
                         left: seq<Asteroid>, removed: bool)
    requires ls != []
    requires OffScreen(ls[0].Moved(vel), HEIGHT) ==> left == objects && removed
    requires !OffScreen(ls[0].Moved(vel), HEIGHT) ==> StrikePass(ls[0].Moved(vel), objects, overlap) == (left, removed)
    ensures !removed ==>
              PlayerPass(ls, vel, objects, overlap).0 == [ls[0].Moved(vel)] + PlayerPass(ls[1..], vel, left, overlap).0
              && PlayerPass(ls, vel, objects, overlap).1 == PlayerPass(ls[1..], vel, left, overlap).1
    ensures removed && |ls| == 1 ==> PlayerPass(ls, vel, objects, overlap) == ([], left)
    ensures removed && |ls| > 1 ==>
              PlayerPass(ls, vel, objects, overlap).0 == [ls[1]] + PlayerPass(ls[2..], vel, left, overlap).0
              && PlayerPass(ls, vel, objects, overlap).1 == PlayerPass(ls[2..], vel, left, overlap).1
  {
  }

  /** Where the iteration over a laser list stands after one laser: `out`
      holds what the pass has produced, `rest` what it has still to visit. */
  ghost function NextOut(out: seq<Laser>, rest: seq<Laser>, removed: bool, vel: int): seq<Laser>
    requires rest != []
  {
    if !removed then out + [rest[0].Moved(vel)]
    else if |rest| == 1 then out
    else out + [rest[1]]
  }

  ghost function NextRest(rest: seq<Laser>, removed: bool): seq<Laser>
    requires rest != []
  {
    if !removed then rest[1..]
    else if |rest| == 1 then []
    else rest[2..]
  }

  /** One laser of the player's pass, from the list before (`pre`) to the
      list after (`post`) the step at position `k`. */
  lemma PlayerPassAdvance(pre: seq<Laser>, post: seq<Laser>, out: seq<Laser>, rest: seq<Laser>, k: nat,
                          vel: int, before: seq<Asteroid>, remaining: seq<Asteroid>, removed: bool,
                          overlap: Overlap)
    requires pre == out + rest && k == |out| && rest != []
    requires OffScreen(pre[k].Moved(vel), HEIGHT) ==> remaining == before && removed
    requires !OffScreen(pre[k].Moved(vel), HEIGHT) ==>
               (remaining, removed) == StrikePass(pre[k].Moved(vel), before, overlap)
    requires removed ==> post == pre[..k] + pre[k + 1..]
    requires !removed ==> post == pre[k := pre[k].Moved(vel)]
    ensures post == NextOut(out, rest, removed, vel) + NextRest(rest, removed)
    ensures out + PlayerPass(rest, vel, before, overlap).0
            == NextOut(out, rest, removed, vel) + PlayerPass(NextRest(rest, removed), vel, remaining, overlap).0
    ensures PlayerPass(rest, vel, before, overlap).1 == PlayerPass(NextRest(rest, removed), vel, remaining, overlap).1
    ensures |NextOut(out, rest, removed, vel)| == k + 1
            || (|NextOut(out, rest, removed, vel)| == k && NextRest(rest, removed) == [])
  {
    Advance(out, rest[0], rest[1..]);
    assert [rest[0]] + rest[1..] == rest;
    PlayerPassUnfold(rest, vel, before, overlap, remaining, removed);
    if !removed {
      ReplaceAt(out, rest[0], rest[0].Moved(vel), rest[1..]);
      Advance(out, rest[0].Moved(vel), PlayerPass(rest[1..], vel, remaining, overlap).0);
      Advance(out, rest[0].Moved(vel), rest[1..]);
    } else {
      RemoveAt(out, rest[0], rest[1..]);
      if |rest| > 1 {
        Advance(out, rest[1], PlayerPass(rest[2..], vel, remaining, overlap).0);
        Advance(out, rest[1], rest[2..]);
        assert [rest[1]] + rest[2..] == rest[1..];
      }
    }
  }

  /** The player's laser pass only removes: no laser or asteroid is added,
      and every asteroid left was in the list before. */
  lemma {:induction false} PlayerPassRemovesOnly(ls: seq<Laser>, vel: int, objects: seq<Asteroid>, overlap: Overlap)
    ensures |PlayerPass(ls, vel, objects, overlap).0| <= |ls|
    ensures multiset(PlayerPass(ls, vel, objects, overlap).1) <= multiset(objects)
    decreases |ls|
  {
    if ls != [] {
      var l := ls[0].Moved(vel);
      if !OffScreen(l, HEIGHT) {
        StrikePassSurvivors(l, objects, overlap);
      }
      var s := if OffScreen(l, HEIGHT) then (objects, false) else StrikePass(l, objects, overlap);
      if |ls| > 1 {
        PlayerPassRemovesOnly(ls[1..], vel, s.0, overlap);
        PlayerPassRemovesOnly(ls[2..], vel, s.0, overlap);
      }
    }
  }

  /** Every asteroid left by the player's laser pass was in the list. */
  lemma PlayerPassFromList(ls: seq<Laser>, vel: int, objects: seq<Asteroid>, overlap: Overlap)
    ensures forall a :: a in PlayerPass(ls, vel, objects, overlap).1 ==> a in objects
  {
    PlayerPassRemovesOnly(ls, vel, objects, overlap);
    var left := PlayerPass(ls, vel, objects, overlap).1;
    forall a | a in left
      ensures a in objects
    {
      assert multiset(left)[a] > 0;
    }
  }

  /** Removing a laser from the list being walked passes over the laser
      right after it: when the first of two lasers leaves the screen, the
      second is neither moved nor tested in that frame. */
  lemma PlayerPassSkipsNext(l0: Laser, l1: Laser, objects: seq<Asteroid>, overlap: Overlap)
    requires OffScreen(l0.Moved(-LASER_VEL), HEIGHT)
    ensures PlayerPass([l0, l1], -LASER_VEL, objects, overlap) == ([l1], objects)
  {
    var ls := [l0, l1];
    assert ls[0] == l0 && ls[1] == l1 && ls[2..] == [];
    assert PlayerPass(ls[2..], -LASER_VEL, objects, overlap) == ([], objects);
    assert PlayerPass(ls, -LASER_VEL, objects, overlap)
           == ([ls[1]] + PlayerPass(ls[2..], -LASER_VEL, objects, overlap).0,
               PlayerPass(ls[2..], -LASER_VEL, objects, overlap).1);
    assert [ls[1]] + PlayerPass(ls[2..], -LASER_VEL, objects, overlap).0 == [l1];
  }

  /** One laser on its own: off screen it is dropped and the asteroids are
      untouched; otherwise it is dropped exactly once if it struck anything
      (however many asteroids it struck), and kept, moved, if not. */
  lemma SingleLaser(l: Laser, vel: int, objects: seq<Asteroid>, overlap: Overlap)
    ensures OffScreen(l.Moved(vel), HEIGHT) ==> PlayerPass([l], vel, objects, overlap) == ([], objects)
    ensures !OffScreen(l.Moved(vel), HEIGHT) ==>
              PlayerPass([l], vel, objects, overlap).1 == StrikePass(l.Moved(vel), objects, overlap).0
    ensures !OffScreen(l.Moved(vel), HEIGHT) ==>
              PlayerPass([l], vel, objects, overlap).0
              == (if StrikePass(l.Moved(vel), objects, overlap).1 then [] else [l.Moved(vel)])
  {
    assert [l][1..] == [];
  }

  // ---------------------------------------------------------------------
  // The asteroid pass of the game loop

  /** The asteroids of the snapshot `s` that are kept by the asteroid pass:
      each moves down by one; one that then collides with the player or has
      its bottom edge below the screen is removed. */
  function Kept(s: seq<Asteroid>, player: Body, overlap: Overlap): seq<Asteroid>
    decreases |s|
  {
    if s == [] then []
    else
      var a := s[|s| - 1].Moved(ASTEROID_VEL);
      var r := Kept(s[..|s| - 1], player, overlap);
      if Collide(overlap, a.body, player) || a.PastBottom() then r else r + [a]
  }

  /** How many asteroids of the snapshot hit the player once moved. */
  function Hits(s: seq<Asteroid>, player: Body, overlap: Overlap): nat
    decreases |s|
  {
    if s == [] then 0
    else
      var a := s[|s| - 1].Moved(ASTEROID_VEL);
      Hits(s[..|s| - 1], player, overlap) + if Collide(overlap, a.body, player) then 1 else 0
  }

  /** How many asteroids of the snapshot miss the player and leave through
      the bottom once moved. */
  function Exits(s: seq<Asteroid>, player: Body, overlap: Overlap): nat
    decreases |s|
  {
    if s == [] then 0
    else
      var a := s[|s| - 1].Moved(ASTEROID_VEL);
      Exits(s[..|s| - 1], player, overlap)
        + if !Collide(overlap, a.body, player) && a.PastBottom() then 1 else 0
  }

  /** Every asteroid of the snapshot is accounted for exactly once: kept,
      destroyed on the player (10 health each), or lost through the bottom
      (one life each).  What is kept has moved down by one, misses the
      player and is not past the bottom. */
  lemma {:induction false} AsteroidPassAccounting(s: seq<Asteroid>, player: Body, overlap: Overlap)
    ensures |Kept(s, player, overlap)| + Hits(s, player, overlap) + Exits(s, player, overlap) == |s|
    ensures forall a :: a in Kept(s, player, overlap) ==>
              !Collide(overlap, a.body, player) && !a.PastBottom()
              && exists b :: b in s && a == b.Moved(ASTEROID_VEL)
    decreases |s|
  {
    if s != [] {
      var init := s[..|s| - 1];
      AsteroidPassAccounting(init, player, overlap);
      assert forall b :: b in init ==> b in s;
      assert s[|s| - 1] in s;
    }
  }

  /** Conversely, every asteroid of the snapshot that misses the player and
      is not past the bottom once moved is kept. */
  lemma {:induction false} AsteroidPassKeeps(s: seq<Asteroid>, player: Body, overlap: Overlap)
    ensures forall b :: b in s && !Collide(overlap, b.Moved(ASTEROID_VEL).body, player) && !b.Moved(ASTEROID_VEL).PastBottom()
                        ==> b.Moved(ASTEROID_VEL) in Kept(s, player, overlap)
    decreases |s|
  {
    if s != [] {
      var init := s[..|s| - 1];
      AsteroidPassKeeps(init, player, overlap);
      assert s == init + [s[|s| - 1]];
      assert forall b :: b in s ==> b in init || b == s[|s| - 1];
    }
  }

  /** Extending the snapshot prefix by one asteroid extends the pass by
      that asteroid's outcome. */
  lemma PassStep(s: seq<Asteroid>, k: nat, player: Body, overlap: Overlap)
    requires k < |s|
    ensures var a := s[k].Moved(ASTEROID_VEL);
            && Kept(s[..k + 1], player, overlap)
               == Kept(s[..k], player, overlap)
                  + (if Collide(overlap, a.body, player) || a.PastBottom() then [] else [a])
            && Hits(s[..k + 1], player, overlap)
               == Hits(s[..k], player, overlap) + (if Collide(overlap, a.body, player) then 1 else 0)
            && Exits(s[..k + 1], player, overlap)
               == Exits(s[..k], player, overlap)
                  + (if !Collide(overlap, a.body, player) && a.PastBottom() then 1 else 0)
  {
    assert s[..k + 1][..k] == s[..k];
  }

  /** Mid-pass, the asteroid the snapshot visits next sits at position
      `i` of the live list, right after the ones kept so far. */
  lemma AsteroidPassAt(snapshot: seq<Asteroid>, k: nat, player: Body, overlap: Overlap,
                       live: seq<Asteroid>, i: nat)
    requires k < |snapshot|
    requires live == Kept(snapshot[..k], player, overlap) + snapshot[k..]
    requires i == |Kept(snapshot[..k], player, overlap)|
    ensures i < |live| && live[i] == snapshot[k]
    ensures live[..i] == Kept(snapshot[..k], player, overlap) && live[i + 1..] == snapshot[k + 1..]
  {
    var rest := snapshot[k + 1..];
    assert snapshot[k..] == [snapshot[k]] + rest;
    Advance(Kept(snapshot[..k], player, overlap), snapshot[k], rest);
    Around(Kept(snapshot[..k], player, overlap), snapshot[k], rest);
  }

  /** One asteroid of the pass over the snapshot: the live list after the
      step on position `i` is the next prefix's pass followed by the rest
      of the snapshot. */
  lemma AsteroidPassAdvance(snapshot: seq<Asteroid>, k: nat, player: Body, overlap: Overlap,
                            pre: seq<Asteroid>, post: seq<Asteroid>, i: nat, kept: bool)
    requires k < |snapshot|
    requires pre == Kept(snapshot[..k], player, overlap) + snapshot[k..]
    requires i == |Kept(snapshot[..k], player, overlap)|
    requires kept == !(Collide(overlap, snapshot[k].Moved(ASTEROID_VEL).body, player)
                       || snapshot[k].Moved(ASTEROID_VEL).PastBottom())
    requires i < |pre|
    requires post == pre[..i] + (if kept then [snapshot[k].Moved(ASTEROID_VEL)] else []) + pre[i + 1..]
    ensures post == Kept(snapshot[..k + 1], player, overlap) + snapshot[k + 1..]
    ensures |Kept(snapshot[..k + 1], player, overlap)| == if kept then i + 1 else i
  {
    AsteroidPassAt(snapshot, k, player, overlap, pre, i);
    PassStep(snapshot, k, player, overlap);
  }

  /** Moving keeps an asteroid idle, so the whole kept list stays idle. */
  lemma {:induction false} KeptIdle(s: seq<Asteroid>, player: Body, overlap: Overlap)
    requires forall a :: a in s ==> Idle(a)
    ensures forall a :: a in Kept(s, player, overlap) ==> Idle(a)
    decreases |s|
  {
    if s != [] {
      var init := s[..|s| - 1];
      assert forall b :: b in init ==> b in s;
      assert s[|s| - 1] in s;
      KeptIdle(init, player, overlap);
    }
  }

  // ---------------------------------------------------------------------
  // The player

  /** `Player`: position, health, cooldown counter and fired lasers. */
  class Player {
    var x: int
    var y: int
    var health: int
    var coolDown: int
    var lasers: seq<Laser>
    const maxHealth: int

    constructor (x0: int, y0: int, health0: int)
      ensures x == x0 && y == y0 && health == health0 && maxHealth == health0
      ensures coolDown == 0 && lasers == []
    {
      x, y, health, maxHealth := x0, y0, health0, health0;
      coolDown, lasers := 0, [];
    }

    function Sprite(): Body
      reads this`x, this`y
    {
      Body(x, y, SHIP_WIDTH, SHIP_HEIGHT, ShipMask)
    }

    /** `cooldown()`: a counter at COOLDOWN or above resets to 0, a counter
        above 0 counts up, 0 stays. */
    method Cooldown()
      modifies this`coolDown
      ensures coolDown == NextCooldown(old(coolDown))
    {
      if coolDown >= COOLDOWN {
        coolDown := 0;
      } else if coolDown > 0 {
        coolDown := coolDown + 1;
      }
    }

    /** `shoot()`: only with the counter at 0, one laser is added at
        (x + 8, y) and the counter starts at 1. */
    method Shoot()
      modifies this`coolDown, this`lasers
      ensures old(coolDown) == 0 ==> lasers == old(lasers) + [Laser(x + LASER_OFFSET, y)] && coolDown == 1
      ensures old(coolDown) != 0 ==> lasers == old(lasers) && coolDown == old(coolDown)
    {
      if coolDown == 0 {
        var laser := Laser(x + LASER_OFFSET, y);
        lasers := lasers + [laser];
        coolDown := 1;
      }
    }

    /** `Player.move_lasers(vel, objects)`: the cooldown step, then each
        laser moves; one off screen is removed; otherwise every asteroid it
        collides with is removed from `objects` and the laser is removed
        once.  Returns what is left of `objects`. */
    method MoveLasers(vel: int, objects: seq<Asteroid>, overlap: Overlap) returns (remaining: seq<Asteroid>)
      modifies this`coolDown, this`lasers
      ensures coolDown == NextCooldown(old(coolDown))
      ensures (lasers, remaining) == PlayerPass(old(lasers), vel, objects, overlap)
    {
      Cooldown();
      remaining := objects;
      var k := 0;
      ghost var out: seq<Laser> := [];
      ghost var rest := lasers;
      while k < |lasers|
        invariant coolDown == NextCooldown(old(coolDown))
        invariant lasers == out + rest
        invariant k == |out| || (k == |out| + 1 && rest == [])
        invariant PlayerPass(old(lasers), vel, objects, overlap).0 == out + PlayerPass(rest, vel, remaining, overlap).0
        invariant PlayerPass(old(lasers), vel, objects, overlap).1 == PlayerPass(rest, vel, remaining, overlap).1
        decreases |lasers| - k
      {
        ghost var before, pre := remaining, lasers;
        var removed;
        remaining, removed := StepLaser(k, vel, remaining, overlap);
        PlayerPassAdvance(pre, lasers, out, rest, k, vel, before, remaining, removed, overlap);
        out, rest := NextOut(out, rest, removed, vel), NextRest(rest, removed);
        k := k + 1;
      }
    }

    /** One laser of `move_lasers`, the one at position `k`: it moves, and
        it is removed when off screen; otherwise it strikes `objects`. */
    method StepLaser(k: nat, vel: int, objects: seq<Asteroid>, overlap: Overlap)
      returns (remaining: seq<Asteroid>, removed: bool)
      requires k < |lasers|
      modifies this`lasers
      ensures OffScreen(old(lasers[k]).Moved(vel), HEIGHT) ==> remaining == objects && removed
      ensures !OffScreen(old(lasers[k]).Moved(vel), HEIGHT) ==>
                (remaining, removed) == StrikePass(old(lasers[k]).Moved(vel), objects, overlap)
      ensures removed ==> lasers == old(lasers[..k] + lasers[k + 1..])
      ensures !removed ==> lasers == old(lasers[k := lasers[k].Moved(vel)])
    {
      var laser := lasers[k].Moved(vel);
      lasers := lasers[k := laser];
      if OffScreen(laser, HEIGHT) {
        lasers := lasers[..k] + lasers[k + 1..];
        remaining, removed := objects, true;
      } else {
        remaining, removed := StrikeAsteroids(laser, k, objects, overlap);
      }
    }

    /** The inner loop of `move_lasers` for the laser at position `k`: every
        asteroid it collides with is removed from `objects`, the one after a
        removed asteroid is passed over, and the laser itself is removed from
        the list on its first strike (`if laser in self.lasers`). */
    method StrikeAsteroids(laser: Laser, k: nat, objects: seq<Asteroid>, overlap: Overlap)
      returns (remaining: seq<Asteroid>, removed: bool)
      requires k < |lasers| && lasers[k] == laser
      modifies this`lasers
      ensures (remaining, removed) == StrikePass(laser, objects, overlap)
      ensures lasers == if removed then old(lasers[..k] + lasers[k + 1..]) else old(lasers)
    {
      remaining, removed := objects, false;
      ghost var shots := lasers;
      ghost var dropped := lasers[..k] + lasers[k + 1..];
      var j := 0;
      ghost var outA: seq<Asteroid> := [];
      ghost var restA := remaining;
      while j < |remaining|
        invariant remaining == outA + restA
        invariant j == |outA| || (j == |outA| + 1 && restA == [])
        invariant StrikePass(laser, objects, overlap).0 == outA + StrikePass(laser, restA, overlap).0
        invariant StrikePass(laser, objects, overlap).1 == (removed || StrikePass(laser, restA, overlap).1)
        invariant removed ==> lasers == dropped
        invariant !removed ==> lasers == shots
        decreases |remaining| - j
      {
        Advance(outA, restA[0], restA[1..]);
        assert [restA[0]] + restA[1..] == restA;
        StrikeUnfold(laser, restA, overlap);
        if Collide(overlap, laser.Sprite(), remaining[j].body) {
          RemoveAt(outA, restA[0], restA[1..]);
          remaining := remaining[..j] + remaining[j + 1..];
          if !removed {
            lasers := lasers[..k] + lasers[k + 1..];
            removed := true;
          }
          if |restA| == 1 {
            restA := [];
          } else {
            Advance(outA, restA[1], StrikePass(laser, restA[2..], overlap).0);
            Advance(outA, restA[1], restA[2..]);
            assert [restA[1]] + restA[2..] == restA[1..];
            outA, restA := outA + [restA[1]], restA[2..];
          }
        } else {
          Advance(outA, restA[0], StrikePass(laser, restA[1..], overlap).0);
          outA, restA := outA + [restA[0]], restA[1..];
        }
        j := j + 1;
      }
    }
  }

  // ---------------------------------------------------------------------
  // The game loop

  /** The state `main` keeps across frames. */
  class Game {
    const player: Player
    /** The graphics library's mask overlap test. */
    const overlap: Overlap
    var run: bool
    var level: int
    var lives: int
    var waveLength: int
    var lost: bool
    var lostCount: int
    var asteroids: seq<Asteroid>
    /** The QUIT event ended the process (`quit()`). */
    var exited: bool

    /** What every frame keeps: the ship strictly inside the screen, its
        counter in [0, COOLDOWN], and every asteroid idle. */
    ghost predicate Valid()
      reads this, player
    {
      && Inside(player.x, player.y, SHIP_WIDTH, SHIP_HEIGHT)
      && 0 <= player.coolDown <= COOLDOWN
      && forall a :: a in asteroids ==> Idle(a)
    }

    /** The start of `main`: the ship at (300, 575) with 100 health. */
    constructor (overlap: Overlap)
      ensures Valid() && fresh(player)
      ensures this.overlap == overlap
      ensures run && !exited && !lost && lostCount == 0
      ensures level == START_LEVEL && lives == START_LIVES && waveLength == START_WAVE_LENGTH
      ensures asteroids == []
      ensures player.x == START_X && player.y == START_Y && player.health == START_HEALTH
      ensures player.coolDown == 0 && player.lasers == [] && player.maxHealth == START_HEALTH
    {
      player := new Player(START_X, START_Y, START_HEALTH);
      this.overlap := overlap;
      run, exited, lost, lostCount := true, false, false, 0;
      level, lives, waveLength := START_LEVEL, START_LIVES, START_WAVE_LENGTH;
      asteroids := [];
    }

    /** The wave manager: with no asteroid left, the level goes up by one,
        the wave length by three, and that many asteroids are appended. */
    method SpawnWave(spawns: seq<Spawn>)
      requires asteroids == []
      requires |spawns| == waveLength + 3
      modifies this`level, this`waveLength, this`asteroids
      ensures level == old(level) + 1 && waveLength == old(waveLength) + 3
      ensures |asteroids| == waveLength && asteroids == Spawned(spawns)
    {
      level := level + 1;
      waveLength := waveLength + 3;
      for i := 0 to waveLength
        invariant level == old(level) + 1 && waveLength == old(waveLength) + 3
        invariant |asteroids| == i
        invariant forall j :: 0 <= j < i ==> asteroids[j] == FromSpawn(spawns[j])
      {
        asteroids := asteroids + [FromSpawn(spawns[i])];
      }
    }

    /** The movement keys of one frame. */
    method MovePlayer(keys: Keys)
      modifies player`x, player`y
      ensures Pos(player.x, player.y) == Steered(old(Pos(player.x, player.y)), SHIP_WIDTH, SHIP_HEIGHT, keys)
    {
      if keys.left && player.x - PLAYER_VEL > 0 {
        player.x := player.x - PLAYER_VEL;
      }
      if keys.right && player.x + PLAYER_VEL + SHIP_WIDTH < WIDTH {
        player.x := player.x + PLAYER_VEL;
      }
      if keys.up && player.y - PLAYER_VEL > 0 {
        player.y := player.y - PLAYER_VEL;
      }
      if keys.down && player.y + PLAYER_VEL + SHIP_HEIGHT < HEIGHT {
        player.y := player.y + PLAYER_VEL;
      }
    }

    /** The asteroid pass over a copy of the list: each asteroid moves down,
        runs its (empty) laser update against the player, then is removed
        with 10 damage to the player if it collides with the ship, or with
        one life lost if its bottom edge is below the screen. */
    method AsteroidPass()
      requires forall a :: a in asteroids ==> Idle(a)
      modifies this`lives, this`asteroids, player`health
      ensures asteroids == Kept(old(asteroids), player.Sprite(), overlap)
      ensures player.health == old(player.health) - DAMAGE * Hits(old(asteroids), player.Sprite(), overlap)
      ensures lives == old(lives) - Exits(old(asteroids), player.Sprite(), overlap)
    {
      var snapshot := asteroids;
      var ship := player.Sprite();
      var i := 0;
      for k := 0 to |snapshot|
        invariant ship == player.Sprite()
        invariant asteroids == Kept(snapshot[..k], ship, overlap) + snapshot[k..]
        invariant i == |Kept(snapshot[..k], ship, overlap)|
        invariant player.health == old(player.health) - DAMAGE * Hits(snapshot[..k], ship, overlap)
        invariant lives == old(lives) - Exits(snapshot[..k], ship, overlap)
      {
        ghost var pre := asteroids;
        AsteroidPassAt(snapshot, k, ship, overlap, pre, i);
        assert snapshot[k] in snapshot;
        var kept := AsteroidStep(i);
        PassStep(snapshot, k, ship, overlap);
        AsteroidPassAdvance(snapshot, k, ship, overlap, pre, asteroids, i, kept);
        if kept {
          i := i + 1;
        }
      }
      assert snapshot[..|snapshot|] == snapshot;
    }

    /** The body of the asteroid pass for the asteroid at position `i` of
        the live list: it moves down, runs its laser update against the
        player, then is removed on a collision with the ship (10 damage) or
        once past the bottom (one life). */
    method AsteroidStep(i: nat) returns (kept: bool)
      requires i < |asteroids| && Idle(asteroids[i])
      modifies this`lives, this`asteroids, player`health
      ensures var a := old(asteroids[i]).Moved(ASTEROID_VEL);
              var hit := Collide(overlap, a.body, player.Sprite());
              && kept == !(hit || a.PastBottom())
              && asteroids == old(asteroids[..i]) + (if kept then [a] else []) + old(asteroids[i + 1..])
              && player.health == old(player.health) - (if hit then DAMAGE else 0)
              && lives == old(lives) - (if !hit && a.PastBottom() then 1 else 0)
    {
      var asteroid := asteroids[i].Moved(ASTEROID_VEL);
      asteroids := asteroids[i := asteroid];
      IdleAsteroidLasers(asteroid, LASER_VEL, player.Sprite(), overlap);
      var after, health := ObjectsMoveLasers(asteroid, LASER_VEL, player.Sprite(), player.health, overlap);
      assert after == asteroid && health == player.health;
      asteroids := asteroids[i := after];
      player.health := health;
      kept := false;
      if Collide(overlap, after.body, player.Sprite()) {
        player.health := player.health - DAMAGE;
        asteroids := asteroids[..i] + asteroids[i + 1..];
      } else if after.PastBottom() {
        lives := lives - 1;
        asteroids := asteroids[..i] + asteroids[i + 1..];
      } else {
        kept := true;
      }
    }

    /** One iteration of the `while run` loop of `main`.  A lost frame is
        skipped until the loss counter passes 3 * FPS; the frame that clears
        `run` still runs to its end. */
    method Tick(keys: Keys, quit: bool, spawns: seq<Spawn>)
      requires Valid() && run && !exited
      requires AllInRange(spawns) && |spawns| == waveLength + 3
      modifies this, player
      ensures Valid()
      ensures var loss := CheckLoss(old(lost), old(lostCount), old(lives), old(player.health));
              && lost == loss.lost && lostCount == loss.lostCount
              && (loss.frame == Freeze ==>
                    && run && !exited && unchanged(player)
                    && level == old(level) && waveLength == old(waveLength)
                    && lives == old(lives) && asteroids == old(asteroids))
              && (loss.frame != Freeze ==>
                    && exited == quit
                    && run == (loss.frame == Play && !quit)
                    && (old(asteroids) == [] ==> level == old(level) + 1 && waveLength == old(waveLength) + 3)
                    && (old(asteroids) != [] ==> level == old(level) && waveLength == old(waveLength))
                    && (quit ==> unchanged(player) && lives == old(lives)
                                 && asteroids == NextWave(old(asteroids), spawns))
                    && (!quit ==> Acted(keys, old(player.x), old(player.y), old(player.coolDown),
                                        old(player.lasers), old(player.health), old(lives),
                                        NextWave(old(asteroids), spawns))))
      ensures lives <= old(lives) && player.health <= old(player.health)
    {
      if lives <= 0 || player.health <= 0 {
        lost := true;
        lostCount := lostCount + 1;
      }
      if lost {
        if lostCount > FPS * 3 {
          run := false;
        } else {
          return;
        }
      }
      Update(keys, quit, spawns);
    }

    /** The part of a frame after the loss check: wave spawn, the QUIT
        event, movement, firing, the asteroid pass and the player's lasers. */
    method Update(keys: Keys, quit: bool, spawns: seq<Spawn>)
      requires Valid() && !exited
      requires AllInRange(spawns) && |spawns| == waveLength + 3
      modifies this`run, this`exited, this`level, this`waveLength, this`asteroids, this`lives, player
      ensures Valid()
      ensures exited == quit && run == (old(run) && !quit)
      ensures old(asteroids) == [] ==> level == old(level) + 1 && waveLength == old(waveLength) + 3
      ensures old(asteroids) != [] ==> level == old(level) && waveLength == old(waveLength)
      ensures quit ==> unchanged(player) && lives == old(lives) && asteroids == NextWave(old(asteroids), spawns)
      ensures !quit ==> Acted(keys, old(player.x), old(player.y), old(player.coolDown), old(player.lasers),
                              old(player.health), old(lives), NextWave(old(asteroids), spawns))
      ensures lives <= old(lives) && player.health <= old(player.health)
    {
      if |asteroids| == 0 {
        SpawnWave(spawns);
        FreshWave(spawns, asteroids);
      }
      if quit {
        // `quit()` ends the process on the spot
        run := false;
        exited := true;
        return;
      }
      Act(keys);
    }

    /** The state after movement, firing, the asteroid pass and the
        player's lasers, from a ship at (x, y) with counter `coolDown`,
        lasers `lasers` and health `health`, `lives` lives and the asteroid
        list `wave`: the ship moves by the keys; a shot is added at the new
        position when the fire key is held and the counter is 0; the
        asteroid pass runs against the moved ship; then the player's lasers,
        after one cooldown step, strike what the pass kept. */
    ghost predicate Acted(keys: Keys, x: int, y: int, coolDown: int, lasers: seq<Laser>, health: int,
                          lives: int, wave: seq<Asteroid>)
      reads this, player
    {
      var pos := Steered(Pos(x, y), SHIP_WIDTH, SHIP_HEIGHT, keys);
      var ship := Body(pos.x, pos.y, SHIP_WIDTH, SHIP_HEIGHT, ShipMask);
      var fired := keys.fire && coolDown == 0;
      var shots := if fired then lasers + [Laser(pos.x + LASER_OFFSET, pos.y)] else lasers;
      && player.x == pos.x && player.y == pos.y
      && player.coolDown == NextCooldown(if fired then 1 else coolDown)
      && player.health == health - DAMAGE * Hits(wave, ship, overlap)
      && this.lives == lives - Exits(wave, ship, overlap)
      && (player.lasers, asteroids) == PlayerPass(shots, -LASER_VEL, Kept(wave, ship, overlap), overlap)
    }

    /** Movement, firing, the asteroid pass and the player's lasers. */
    method Act(keys: Keys)
      requires Valid()
      modifies this`asteroids, this`lives, player
      ensures Valid()
      ensures Acted(keys, old(player.x), old(player.y), old(player.coolDown), old(player.lasers),
                    old(player.health), old(lives), old(asteroids))
      ensures lives <= old(lives) && player.health <= old(player.health)
    {
      MovePlayer(keys);
      if keys.fire {
        player.Shoot();
      }
      ghost var wave := asteroids;
      AsteroidPass();
      KeptIdle(wave, player.Sprite(), overlap);
      CooldownInRange(player.coolDown);
      PlayerPassFromList(player.lasers, -LASER_VEL, asteroids, overlap);
      var remaining := player.MoveLasers(-LASER_VEL, asteroids, overlap);
      asteroids := remaining;
    }
  }
}
