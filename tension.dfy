/** The keyboard handler: the Up and Down arrows raise and lower the bundling
    tension of the link splines by 0.05 within [0, 1]. Tension is kept in
    hundredths, so 0.7 is 70 and a step is 5. */
module Tension {

  const Initial: int := 70
  const Stride: int := 5
  const Ceiling: int := 100

  const KeyLeft: int := 37
  const KeyUp: int := 38
  const KeyRight: int := 39
  const KeyDown: int := 40

  /** The tension after one keydown with code `key`. */
  function Next(t: int, key: int): (r: int)
    ensures 0 <= t <= Ceiling ==> 0 <= r <= Ceiling
    ensures 0 <= t <= Ceiling && key == KeyDown ==> (Stride <= t ==> r == t - Stride) && (t < Stride ==> r == 0)
    ensures 0 <= t <= Ceiling && key == KeyUp ==> (t + Stride <= Ceiling ==> r == t + Stride) && (Ceiling < t + Stride ==> r == Ceiling)
    ensures key != KeyUp && key != KeyDown ==> r == t
  {
    if key == KeyDown then
      if t - Stride < 0 then 0 else t - Stride
    else if key == KeyUp then
      if t + Stride > Ceiling then Ceiling else t + Stride
    else t
  }

  /** The tension after a run of keydowns, oldest first. */
  function Replay(t: int, keys: seq<int>): int
    decreases |keys|
  {
    if keys == [] then t else Replay(Next(t, keys[0]), keys[1..])
  }

  /** However many keys are pressed, the tension stays within [0, 1]. */
  lemma {:induction false} ReplayStaysInRange(t: int, keys: seq<int>)
    requires 0 <= t <= Ceiling
    ensures 0 <= Replay(t, keys) <= Ceiling
    decreases |keys|
  {
    if keys != [] {
      ReplayStaysInRange(Next(t, keys[0]), keys[1..]);
    }
  }

  /** The Down arrow undoes the Up arrow, unless the Up arrow hit the ceiling. */
  lemma DownUndoesUp(t: int)
    requires 0 <= t <= Ceiling - Stride
    ensures Next(Next(t, KeyUp), KeyDown) == t
  {
  }

  /** The Up arrow undoes the Down arrow, unless the Down arrow hit the floor. */
  lemma UpUndoesDown(t: int)
    requires Stride <= t <= Ceiling
    ensures Next(Next(t, KeyDown), KeyUp) == t
  {
  }

  /** The bounds are fixed points of the key that pushes against them. */
  lemma ClampedAtBounds()
    ensures Next(Ceiling, KeyUp) == Ceiling
    ensures Next(0, KeyDown) == 0
  {
  }

  /** Fourteen presses of the Down arrow bring the initial 0.7 to 0, and a
      fifteenth leaves it there. */
  lemma DownFromInitial()
    ensures Replay(Initial, seq(14, _ => KeyDown)) == 0
    ensures Replay(Initial, seq(15, _ => KeyDown)) == 0
  {
    var downs := seq(15, _ => KeyDown);
    assert downs[1..] == seq(14, _ => KeyDown);
    ReplayDowns(Initial, 14);
    ReplayDowns(Initial, 15);
  }

  lemma {:induction false} ReplayDowns(t: int, n: nat)
    requires 0 <= t
    ensures Replay(t, seq(n, _ => KeyDown)) == if t - Stride * n < 0 then 0 else t - Stride * n
    decreases n
  {
    if n > 0 {
      var downs := seq(n, _ => KeyDown);
      assert downs[1..] == seq(n - 1, _ => KeyDown);
      ReplayDowns(Next(t, KeyDown), n - 1);
    }
  }

  /** The `tension` variable of the render, and the tension last handed to
      the radial line generator. */
  class TensionControl {
    var tension: int
    var lineTension: int

    ghost predicate Valid()
      reads this
    {
      0 <= tension <= Ceiling
    }

    constructor ()
      ensures Valid() && tension == Initial && lineTension == Initial
    {
      tension := Initial;
      lineTension := Initial;
    }

    /** update: the arrow keys have their default action suppressed; Up and
        Down step the tension and hand it to the line generator (which then
        redraws every link); every other key changes nothing. */
    method Update(keyCode: int) returns (preventDefault: bool)
      requires Valid()
      modifies this
      ensures Valid()
      ensures tension == Next(old(tension), keyCode)
      ensures preventDefault <==> keyCode in {KeyLeft, KeyUp, KeyRight, KeyDown}
      ensures lineTension == if keyCode == KeyUp || keyCode == KeyDown then tension else old(lineTension)
    {
      preventDefault := false;
      if keyCode == KeyLeft || keyCode == KeyRight {
        preventDefault := true;
      }
      if keyCode == KeyUp || keyCode == KeyDown {
        preventDefault := true;
        if keyCode == KeyDown {
          tension := tension - Stride;
          if tension < 0 {
            tension := 0;
          }
        }
        if keyCode == KeyUp {
          tension := tension + Stride;
          if tension > Ceiling {
            tension := Ceiling;
          }
        }
        lineTension := tension;
      }
    }
  }
}
