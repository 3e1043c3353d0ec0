/**
  Backtrackable integer cells of the trailing environment (IStateInt).

  A cell owns a Java `int` value and the index of the world in which it was
  last written (its time stamp). Writing through `Set` saves the former
  (value, stamp) pair on the environment's int trail when the cell was not yet
  written in the current world; `_set` installs a value and a stamp without
  trailing, which is how the trail restores a cell on backtrack.
 */
module Trailing {

  /** Java `int`: 32-bit two's complement. */
  newtype int32 = x: int | -0x8000_0000 <= x < 0x8000_0000

  /** Java `int` addition: the exact sum wrapped into 32 bits. */
  function Wrap32(v: int): (r: int32)
    ensures (r as int - v) % 0x1_0000_0000 == 0
    ensures -0x8000_0000 <= v < 0x8000_0000 ==> r as int == v
  {
    var m := (v + 0x8000_0000) % 0x1_0000_0000;
    assert v + 0x8000_0000 == (v + 0x8000_0000) / 0x1_0000_0000 * 0x1_0000_0000 + m;
    (m - 0x8000_0000) as int32
  }

  /** One saved state on the int trail: the cell and its former value and stamp. */
  datatype IntSave = IntSave(cell: StateInt, oldValue: int32, oldStamp: int)

  /** The part of a trailing environment the cells use: the current world index and the int trail. */
  class EnvironmentTrailing {
    var worldIndex: int
    var intTrail: seq<IntSave>

    constructor ()
      ensures worldIndex == 0 && intTrail == []
    {
      worldIndex := 0;
      intTrail := [];
    }
  }

  class StateInt {
    const environment: EnvironmentTrailing
    var currentValue: int32
    var timeStamp: int

    /** A new cell holds `i`, stamped with the world it was created in. */
    constructor (env: EnvironmentTrailing, i: int32)
      ensures environment == env
      ensures currentValue == i && timeStamp == env.worldIndex
    {
      environment := env;
      currentValue := i;
      timeStamp := env.worldIndex;
    }

    /** The current value; reading has no effect. */
    method Get() returns (r: int32)
      ensures r == currentValue
    {
      r := currentValue;
    }

    /**
      The trailing write: the former (value, stamp) goes on the int trail when the
      cell has not been written in the current world yet; afterwards the cell holds
      `y` stamped with the current world.
     */
    method Set(y: int32)
      modifies this, environment
      ensures currentValue == y && timeStamp == environment.worldIndex
      ensures environment.worldIndex == old(environment.worldIndex)
      ensures environment.intTrail == old(environment.intTrail) +
        (if old(timeStamp) != old(environment.worldIndex)
         then [IntSave(this, old(currentValue), old(timeStamp))] else [])
    {
      if timeStamp != environment.worldIndex {
        environment.intTrail := environment.intTrail + [IntSave(this, currentValue, timeStamp)];
        timeStamp := environment.worldIndex;
      }
      currentValue := y;
    }

    /** Adds `delta` with Java `int` wrap-around, writes the sum through `Set` and returns it. */
    method Add(delta: int32) returns (res: int32)
      modifies this, environment
      ensures res == Wrap32(old(currentValue) as int + delta as int)
      ensures currentValue == res && timeStamp == environment.worldIndex
      ensures environment.worldIndex == old(environment.worldIndex)
      ensures environment.intTrail == old(environment.intTrail) +
        (if old(timeStamp) != old(environment.worldIndex)
         then [IntSave(this, old(currentValue), old(timeStamp))] else [])
    {
      res := Wrap32(currentValue as int + delta as int);
      Set(res);
    }

    /** Installs value `y` and stamp `wstamp` without touching the trail. */
    method RawSet(y: int32, wstamp: int)
      modifies this
      ensures currentValue == y && timeStamp == wstamp
    {
      currentValue := y;
      timeStamp := wstamp;
    }

    /** A copy of the cell's content is its current value; the cell is not changed. */
    method DeepCopy() returns (r: int32)
      ensures r == currentValue
    {
      r := currentValue;
    }

    method GetTimeStamp() returns (r: int)
      ensures r == timeStamp
    {
      r := timeStamp;
    }

    /** Replaces the stamp only; the value is kept. */
    method OverrideTimeStamp(aTimeStamp: int)
      modifies this
      ensures timeStamp == aTimeStamp && currentValue == old(currentValue)
    {
      timeStamp := aTimeStamp;
    }
  }

  /** Wrap-around is exact modulo 2^32: adding `delta` and then `-delta` gives the value back. */
  lemma {:induction false} AddThenSubtract(v: int32, delta: int32)
    ensures Wrap32(Wrap32(v as int + delta as int) as int - delta as int) == v
  {
    var s := Wrap32(v as int + delta as int);
    var r := Wrap32(s as int - delta as int);
    var M := 0x1_0000_0000;
    assert (s as int - (v as int + delta as int)) % M == 0;
    assert (r as int - (s as int - delta as int)) % M == 0;
    var k1 := (s as int - (v as int + delta as int)) / M;
    var k2 := (r as int - (s as int - delta as int)) / M;
    assert s as int - (v as int + delta as int) == k1 * M;
    assert r as int - (s as int - delta as int) == k2 * M;
    assert r as int - v as int == (k1 + k2) * M;
    assert -M < r as int - v as int < M;
  }
}
