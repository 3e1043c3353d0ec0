/**
  The binary propagator for X + Y != C (PropNotEqualXY_C).

  A variable's domain is the strictly increasing sequence of its values: its
  lower and upper bounds are the first and the last element, and it is
  instantiated when one value is left. An enumerated domain can lose any value;
  a bounded domain has no holes and can only lose one of its two bounds, so
  removing an inner value leaves it unchanged. Removing the last value is a
  contradiction, which aborts propagation and leaves the domain as it was.
 */
module NotEqual {

  // ---------------------------------------------------------------------------
  // Domains

  predicate Increasing(d: seq<int>)
  {
    forall i, j :: 0 <= i < j < |d| ==> d[i] < d[j]
  }

  /** A well-formed domain: non-empty and listed in increasing order. */
  predicate IsDomain(d: seq<int>)
  {
    |d| > 0 && Increasing(d)
  }

  /** A domain with no holes. */
  predicate IsInterval(d: seq<int>)
  {
    forall a, b, v :: a in d && b in d && a <= v <= b ==> v in d
  }

  function Min(d: seq<int>): (m: int)
    requires IsDomain(d)
    ensures m in d && forall v :: v in d ==> m <= v
  {
    d[0]
  }

  function Max(d: seq<int>): (m: int)
    requires IsDomain(d)
    ensures m in d && forall v :: v in d ==> v <= m
  {
    d[|d| - 1]
  }

  /** A domain whose bounds meet holds exactly one value. */
  lemma BoundsMeet(d: seq<int>)
    requires IsDomain(d) && Min(d) == Max(d)
    ensures |d| == 1
  {
  }

  /** `d` without the value `v`. */
  function Without(d: seq<int>, v: int): (r: seq<int>)
    ensures forall u :: u in r <==> u in d && u != v
    ensures v !in d ==> r == d
  {
    if d == [] then []
    else
      var rest := Without(d[1..], v);
      assert d == [d[0]] + d[1..];
      (if d[0] == v then [] else [d[0]]) + rest
  }

  /** The tail of an increasing sequence is increasing and lies above its head. */
  lemma TailIncreasing(d: seq<int>)
    requires Increasing(d) && d != []
    ensures Increasing(d[1..])
    ensures forall u :: u in d[1..] ==> d[0] < u
  {
    forall u | u in d[1..] ensures d[0] < u {
      var k :| 0 <= k < |d[1..]| && d[1..][k] == u;
      assert u == d[k + 1];
    }
  }

  /** A value below every element of an increasing sequence can be put in front of it. */
  lemma ConsIncreasing(x: int, s: seq<int>)
    requires Increasing(s) && forall u :: u in s ==> x < u
    ensures Increasing([x] + s)
  {
    var r := [x] + s;
    forall i, j | 0 <= i < j < |r| ensures r[i] < r[j] {
      assert r[j] == s[j - 1] && s[j - 1] in s;
      if i > 0 {
        assert r[i] == s[i - 1];
      }
    }
  }

  /** Removing a value from an increasing sequence keeps it increasing and drops exactly one element when present. */
  lemma {:induction false} WithoutIncreasing(d: seq<int>, v: int)
    requires Increasing(d)
    ensures Increasing(Without(d, v))
    ensures v in d ==> |Without(d, v)| == |d| - 1
  {
    if d != [] {
      TailIncreasing(d);
      WithoutIncreasing(d[1..], v);
      assert d == [d[0]] + d[1..];
      var rest := Without(d[1..], v);
      if d[0] != v {
        ConsIncreasing(d[0], rest);
      } else {
        assert Without(d[1..], v) == d[1..];
      }
    }
  }

  /** The outcome of removing one value from a domain. */
  datatype Removal = Removal(dom: seq<int>, changed: bool, failed: bool)

  /** Removing `v`: an enumerated domain loses `v`, a bounded one only when `v` is a bound; removing the last value fails. */
  function RemoveFrom(d: seq<int>, enumerated: bool, v: int): (r: Removal)
    requires IsDomain(d)
    ensures IsDomain(r.dom)
    ensures r.failed <==> d == [v]
    ensures r.failed ==> r.dom == d && !r.changed
    ensures r.changed <==> (!r.failed && v in d && v !in r.dom)
    ensures r.dom == d || forall u :: u in r.dom <==> u in d && u != v
    ensures enumerated && !r.failed ==> v !in r.dom
    ensures !enumerated && (v == Min(d) || v == Max(d)) && |d| > 1 ==> v !in r.dom
    ensures !enumerated && IsInterval(d) ==> IsInterval(r.dom)
  {
    if v !in d then Removal(d, false, false)
    else if d == [v] then Removal(d, false, true)
    else if enumerated || v == Min(d) || v == Max(d) then
      WithoutIncreasing(d, v);
      Removal(Without(d, v), true, false)
    else Removal(d, false, false)
  }

  /** An integer variable as the propagator sees it. */
  class IntVar {
    var dom: seq<int>
    /** Whether the domain is enumerated (any value can be removed) or bounded (no holes). */
    const enumerated: bool

    ghost predicate Valid()
      reads this
    {
      IsDomain(dom) && (!enumerated ==> IsInterval(dom))
    }

    function IsInstantiated(): bool
      reads this
    {
      |dom| == 1
    }

    function GetLB(): int
      reads this
      requires IsDomain(dom)
    {
      Min(dom)
    }

    function GetUB(): int
      reads this
      requires IsDomain(dom)
    {
      Max(dom)
    }

    /** The value of an instantiated variable. */
    function GetValue(): int
      reads this
      requires IsDomain(dom)
    {
      Min(dom)
    }

    function Contains(v: int): bool
      reads this
    {
      v in dom
    }

    /** `changed` tells whether `v` was removed; `ok` is false on a contradiction, which leaves the domain unchanged. */
    method RemoveValue(v: int) returns (changed: bool, ok: bool)
      requires Valid()
      modifies this
      ensures var r := RemoveFrom(old(dom), enumerated, v);
              dom == r.dom && changed == r.changed && ok == !r.failed
      ensures Valid()
    {
      var r := RemoveFrom(dom, enumerated, v);
      dom, changed, ok := r.dom, r.changed, !r.failed;
    }
  }

  // ---------------------------------------------------------------------------
  // The propagator

  /** The events that can wake a propagator up on an integer variable. */
  datatype IntEventType = Instantiate | IncLow | DecUpp

  /** Three-valued entailment. */
  datatype ESat = TRUE | FALSE | UNDEFINED

  /** The result of one propagation: the new domains, whether the propagator went passive, and whether it failed. */
  datatype Outcome = Outcome(dx: seq<int>, dy: seq<int>, passive: bool, failed: bool)

  /** What one call to `propagate` does to the domains `dx` of X and `dy` of Y. */
  function Propagation(dx: seq<int>, ex: bool, dy: seq<int>, ey: bool, c: int): Outcome
    requires IsDomain(dx) && IsDomain(dy)
  {
    if |dx| == 1 then
      var v := c - Min(dx);
      var r := RemoveFrom(dy, ey, v);
      Outcome(dx, r.dom, !r.failed && (r.changed || v !in r.dom), r.failed)
    else if |dy| == 1 then
      var v := c - Min(dy);
      var r := RemoveFrom(dx, ex, v);
      Outcome(r.dom, dy, !r.failed && (r.changed || v !in r.dom), r.failed)
    else
      Outcome(dx, dy, Min(dx) + Min(dy) > c || Max(dx) + Max(dy) < c, false)
  }

  class PropNotEqualXYC {
    const x: IntVar
    const y: IntVar
    const cste: int
    var passive: bool

    constructor (x: IntVar, y: IntVar, c: int)
      ensures this.x == x && this.y == y && cste == c && !passive
    {
      this.x := x;
      this.y := y;
      cste := c;
      passive := false;
    }

    /** The variable at position `vIdx` of the propagator's scope. */
    function Var(vIdx: nat): IntVar
      requires vIdx < 2
    {
      if vIdx == 0 then x else y
    }

    /** An enumerated variable wakes the propagator on instantiation only; a bounded one also on bound changes. */
    function GetPropagationConditions(vIdx: nat): (r: set<IntEventType>)
      requires vIdx < 2
      ensures Instantiate in r
      ensures IncLow in r <==> !Var(vIdx).enumerated
      ensures DecUpp in r <==> !Var(vIdx).enumerated
    {
      if Var(vIdx).enumerated then {Instantiate} else {Instantiate, IncLow, DecUpp}
    }

    method Propagate(evtmask: int) returns (ok: bool)
      requires x.Valid() && y.Valid()
      modifies this, x, y
      ensures var r := Propagation(old(x.dom), x.enumerated, old(y.dom), y.enumerated, cste);
              && x.dom == r.dx && y.dom == r.dy
              && ok == !r.failed && passive == (old(passive) || r.passive)
      ensures x.Valid() && y.Valid()
    {
      if x.IsInstantiated() {
        ok := RemoveValV1();
      } else if y.IsInstantiated() {
        ok := RemoveValV0();
      } else {
        if x.GetLB() + y.GetLB() > cste || x.GetUB() + y.GetUB() < cste {
          passive := true;
        }
        ok := true;
      }
    }

    /** The fine-grained entry point behaves as a full propagation. */
    method PropagateOnEvent(varIdx: int, mask: int) returns (ok: bool)
      requires x.Valid() && y.Valid()
      modifies this, x, y
      ensures var r := Propagation(old(x.dom), x.enumerated, old(y.dom), y.enumerated, cste);
              && x.dom == r.dx && y.dom == r.dy
              && ok == !r.failed && passive == (old(passive) || r.passive)
      ensures x.Valid() && y.Valid()
    {
      ok := Propagate(0);
    }

    /** Y is instantiated and X is not: removes `cste - y` from X. */
    method RemoveValV0() returns (ok: bool)
      requires x.Valid() && y.Valid() && !x.IsInstantiated() && y.IsInstantiated()
      modifies this, x
      ensures var r := Propagation(old(x.dom), x.enumerated, old(y.dom), y.enumerated, cste);
              && x.dom == r.dx && y.dom == r.dy
              && ok == !r.failed && passive == (old(passive) || r.passive)
      ensures x.Valid() && y.Valid()
    {
      var changed;
      changed, ok := x.RemoveValue(cste - y.GetValue());
      if ok && (changed || !x.Contains(cste - y.GetValue())) {
        passive := true;
      }
    }

    /** X is instantiated: removes `cste - x` from Y. */
    method RemoveValV1() returns (ok: bool)
      requires x.Valid() && y.Valid() && x.IsInstantiated()
      modifies this, y
      ensures var r := Propagation(old(x.dom), x.enumerated, old(y.dom), y.enumerated, cste);
              && x.dom == r.dx && y.dom == r.dy
              && ok == !r.failed && passive == (old(passive) || r.passive)
      ensures x.Valid() && y.Valid()
    {
      var changed;
      changed, ok := y.RemoveValue(cste - x.GetValue());
      if ok && (changed || !y.Contains(cste - x.GetValue())) {
        passive := true;
      }
    }

    /** TRUE when the bounds already exclude `cste`, FALSE when both variables are instantiated to a sum of `cste`. */
    function IsEntailed(): (r: ESat)
      reads x, y
      requires IsDomain(x.dom) && IsDomain(y.dom)
      ensures r == TRUE <==> Max(x.dom) + Max(y.dom) < cste || Min(x.dom) + Min(y.dom) > cste
      ensures r == TRUE ==> forall a, b :: a in x.dom && b in y.dom ==> a + b != cste
      ensures r == FALSE <==> forall a, b :: a in x.dom && b in y.dom ==> a + b == cste
    {
      var lx, ux, ly, uy := x.GetLB(), x.GetUB(), y.GetLB(), y.GetUB();
      assert (forall a, b :: a in x.dom && b in y.dom ==> a + b == cste) ==>
               |x.dom| == 1 && |y.dom| == 1 by {
        if forall a, b :: a in x.dom && b in y.dom ==> a + b == cste {
          assert lx + ly == cste && ux + ly == cste && lx + uy == cste;
          BoundsMeet(x.dom);
          BoundsMeet(y.dom);
        }
      }
      if ux + uy < cste || ly + lx > cste then TRUE
      else if x.IsInstantiated() && y.IsInstantiated() && x.GetValue() + y.GetValue() == cste then FALSE
      else UNDEFINED
    }
  }

  // ---------------------------------------------------------------------------
  // Properties of propagation

  /** Propagation only removes values, keeps every value that has a support, and fails only when no pair has a support. */
  lemma PropagationSound(dx: seq<int>, ex: bool, dy: seq<int>, ey: bool, c: int)
    requires IsDomain(dx) && IsDomain(dy)
    ensures var r := Propagation(dx, ex, dy, ey, c);
            && IsDomain(r.dx) && IsDomain(r.dy)
            && (forall a :: a in r.dx ==> a in dx) && (forall b :: b in r.dy ==> b in dy)
            && (forall a, b :: a in dx && b in dy && a + b != c ==> a in r.dx && b in r.dy)
            && (r.failed ==> forall a, b :: a in dx && b in dy ==> a + b == c)
  {
  }

  /** A passive propagator is entailed: no pair of values left sums to `c`. */
  lemma PassiveIsEntailed(dx: seq<int>, ex: bool, dy: seq<int>, ey: bool, c: int)
    requires IsDomain(dx) && IsDomain(dy)
    ensures var r := Propagation(dx, ex, dy, ey, c);
            r.passive ==> forall a, b :: a in r.dx && b in r.dy ==> a + b != c
  {
  }

  /** Once X is instantiated, an enumerated Y always makes the propagator passive or fail. */
  lemma EnumeratedIsFiltered(dx: seq<int>, ex: bool, dy: seq<int>, c: int)
    requires IsDomain(dx) && IsDomain(dy) && |dx| == 1
    ensures var r := Propagation(dx, ex, dy, true, c);
            r.failed || r.passive
  {
  }

  /** Without an instantiated variable, propagation changes no domain and never fails. */
  lemma NoFilteringWithoutInstantiation(dx: seq<int>, ex: bool, dy: seq<int>, ey: bool, c: int)
    requires IsDomain(dx) && IsDomain(dy) && |dx| != 1 && |dy| != 1
    ensures var r := Propagation(dx, ex, dy, ey, c);
            r.dx == dx && r.dy == dy && !r.failed
  {
  }

  /** Propagation keeps bounded domains without holes. */
  lemma PropagationKeepsIntervals(dx: seq<int>, ex: bool, dy: seq<int>, ey: bool, c: int)
    requires IsDomain(dx) && IsDomain(dy)
    requires (!ex ==> IsInterval(dx)) && (!ey ==> IsInterval(dy))
    ensures var r := Propagation(dx, ex, dy, ey, c);
            (!ex ==> IsInterval(r.dx)) && (!ey ==> IsInterval(r.dy))
  {
  }

  /** Removing the same value a second time after a removal that did not fail changes nothing and does not fail. */
  lemma RemoveAgain(d: seq<int>, enumerated: bool, v: int)
    requires IsDomain(d) && !RemoveFrom(d, enumerated, v).failed
    ensures var r := RemoveFrom(d, enumerated, v);
            var r2 := RemoveFrom(r.dom, enumerated, v);
            r2.dom == r.dom && !r2.failed
  {
    var r := RemoveFrom(d, enumerated, v);
    if v in r.dom {
      assert r.dom == d;
    }
  }

  /** The sums of two domains without holes reach every value between the sum of the lower bounds and the sum of the upper bounds. */
  lemma IntervalSums(dx: seq<int>, dy: seq<int>, c: int)
    requires IsDomain(dx) && IsDomain(dy) && IsInterval(dx) && IsInterval(dy)
    ensures Min(dx) + Min(dy) <= c <= Max(dx) + Max(dy) ==>
            exists a, b :: a in dx && b in dy && a + b == c
  {
    var lx, ux, ly, uy := Min(dx), Max(dx), Min(dy), Max(dy);
    if lx + ly <= c <= ux + uy {
      var a := if lx < c - uy then c - uy else lx;
      assert a in dx;
      assert c - a in dy;
    }
  }

  /** On two bounded domains the TRUE answer is complete: it is given whenever no pair sums to `cste`. */
  lemma EntailedOnIntervals(p: PropNotEqualXYC)
    requires IsDomain(p.x.dom) && IsDomain(p.y.dom)
    requires IsInterval(p.x.dom) && IsInterval(p.y.dom)
    requires forall a, b :: a in p.x.dom && b in p.y.dom ==> a + b != p.cste
    ensures p.IsEntailed() == TRUE
  {
    IntervalSums(p.x.dom, p.y.dom, p.cste);
  }
}
