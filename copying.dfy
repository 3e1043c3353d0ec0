/**
  Backtrackable object cells of the copying environment (RcObject).

  In the copying environment a cell is not trailed: the environment keeps a list
  of every object cell and copies their contents when a world is saved. A cell
  registers itself in that list when it is created; writing it stamps it with the
  current world.
 */
module Copying {

  /** The kind tag a recomputable element reports. */
  datatype ElementType = Bool | Int | Vector | IntInterval | Long | Double | Object

  /** The part of a copying environment the object cells use. */
  class EnvironmentCopying {
    var worldIndex: int
    /** Every object cell created in this environment, in creation order. */
    var objectCopy: seq<RcObject>

    constructor ()
      ensures worldIndex == 0 && objectCopy == []
    {
      worldIndex := 0;
      objectCopy := [];
    }
  }

  class RcObject {
    const environment: EnvironmentCopying
    var timeStamp: int
    var currentObject: object?

    /** Stores `obj`, appends the new cell once to the environment's list and stamps it with the current world. */
    constructor (env: EnvironmentCopying, obj: object?)
      modifies env
      ensures environment == env && currentObject == obj
      ensures env.objectCopy == old(env.objectCopy) + [this]
      ensures timeStamp == env.worldIndex && env.worldIndex == old(env.worldIndex)
    {
      environment := env;
      currentObject := obj;
      new;
      env.objectCopy := env.objectCopy + [this];
      timeStamp := env.worldIndex;
    }

    method Get() returns (r: object?)
      ensures r == currentObject
    {
      r := currentObject;
    }

    /** The new value, stamped with the current world. */
    method Set(y: object?)
      modifies this
      ensures currentObject == y && timeStamp == environment.worldIndex
    {
      currentObject := y;
      timeStamp := environment.worldIndex;
    }

    /** Installs `y` and `wstamp` exactly, whatever the current world is. */
    method RawSet(y: object?, wstamp: int)
      modifies this
      ensures currentObject == y && timeStamp == wstamp
    {
      currentObject := y;
      timeStamp := wstamp;
    }

    /** The copy is the reference held, not a copy of the object it refers to. */
    method DeepCopy() returns (r: object?)
      ensures r == currentObject
    {
      r := currentObject;
    }

    method GetType() returns (t: ElementType)
      ensures t == Object
    {
      t := Object;
    }

    method GetTimeStamp() returns (r: int)
      ensures r == timeStamp
    {
      r := timeStamp;
    }
  }
}
