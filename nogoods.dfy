/**
  Nogood recording from restarts (NogoodFromRestarts).

  Just before a restart, the decisions of the current branch are collected from
  the last one back to the root, then processed from the root down. A decision
  that still has an alternative left contributes its refuting literal to a
  prefix; a decision that has none left makes the solver learn the clause
  "prefix, then its own refuting literal". Only the assignment operators `=` and
  `!=` on integer variables are supported: any other decision aborts the
  extraction.
 */
module Nogoods {

  /** The operators a branching decision on an integer variable can use. */
  datatype DecisionOperator = IntEq | IntNeq | IntSplit | IntReverseSplit

  /** A decision of the current branch; any decision that is not an integer decision is `OtherDecision`. */
  datatype Decision =
    | IntDecision(variable: nat, value: int, op: DecisionOperator, hasNext: bool)
    | OtherDecision

  /** A literal of the nogood store: `variable = value` when positive, `variable != value` otherwise. */
  datatype Lit = Lit(variable: nat, value: int, positive: bool)

  /** The literal `variable = value`. */
  function Literal(variable: nat, value: int): Lit
  {
    Lit(variable, value, true)
  }

  function Negated(l: Lit): Lit
  {
    l.(positive := !l.positive)
  }

  /** The decisions the extraction can turn into literals. */
  predicate Supported(d: Decision)
  {
    d.IntDecision? && (d.op == IntEq || d.op == IntNeq)
  }

  /** A decision that still has an alternative left. */
  predicate Open(d: Decision)
  {
    d.IntDecision? && d.hasNext
  }

  /** The literal that refutes decision `d`. */
  function LitOf(d: Decision): Lit
    requires Supported(d)
  {
    if d.op == IntEq then Negated(Literal(d.variable, d.value)) else Literal(d.variable, d.value)
  }

  // ---------------------------------------------------------------------------
  // Meaning of decisions and literals under a complete assignment

  predicate DecisionHolds(d: Decision, a: nat -> int)
    requires Supported(d)
  {
    if d.op == IntEq then a(d.variable) == d.value else a(d.variable) != d.value
  }

  predicate LitHolds(l: Lit, a: nat -> int)
  {
    (a(l.variable) == l.value) == l.positive
  }

  /** A clause holds when one of its literals does. */
  predicate ClauseHolds(clause: seq<Lit>, a: nat -> int)
  {
    exists k :: 0 <= k < |clause| && LitHolds(clause[k], a)
  }

  /** The literal of a decision holds exactly when the decision does not. */
  lemma LitOfRefutes(d: Decision, a: nat -> int)
    requires Supported(d)
    ensures LitHolds(LitOf(d), a) <==> !DecisionHolds(d, a)
  {
  }

  // ---------------------------------------------------------------------------
  // Specification of the extraction on a root-to-leaf path

  /** The state of the extraction: clauses learnt so far, the literal prefix, decisions consumed, and whether it aborted. */
  datatype Extraction = Extraction(learnt: seq<seq<Lit>>, prefix: seq<Lit>, processed: nat, failed: bool)

  /** Processing one more decision. */
  function Step(e: Extraction, d: Decision): Extraction
  {
    if !Supported(d) then e.(processed := e.processed + 1, failed := true)
    else if Open(d) then e.(prefix := e.prefix + [LitOf(d)], processed := e.processed + 1)
    else e.(learnt := e.learnt + [e.prefix + [LitOf(d)]], processed := e.processed + 1)
  }

  /** The extraction on `path`, given root first; it stops at the first unsupported decision. */
  function Extract(path: seq<Decision>): (e: Extraction)
    ensures |e.prefix| <= e.processed <= |path|
    ensures !e.failed ==> e.processed == |path|
    ensures e.failed ==> 1 <= e.processed && !Supported(path[e.processed - 1])
  {
    if path == [] then Extraction([], [], 0, false)
    else
      var e := Extract(path[..|path| - 1]);
      if e.failed then e else Step(e, path[|path| - 1])
  }

  /** The literals of the decisions of `path` that still have an alternative, in path order. */
  function OpenLits(path: seq<Decision>): seq<Lit>
    requires forall i :: 0 <= i < |path| ==> Supported(path[i])
  {
    if path == [] then []
    else
      var last := path[|path| - 1];
      OpenLits(path[..|path| - 1]) + (if Open(last) then [LitOf(last)] else [])
  }

  /** The clause learnt from the exhausted decision `path[j]`: the open literals above it, then its own. */
  function ClauseAt(path: seq<Decision>, j: nat): seq<Lit>
    requires j < |path|
    requires forall i :: 0 <= i <= j ==> Supported(path[i])
  {
    OpenLits(path[..j]) + [LitOf(path[j])]
  }

  /** The extraction as the queue performs it: `queue` lists the branch leaf first and is polled from its back. */
  function Drain(queue: seq<Decision>): (e: Extraction)
    ensures |e.prefix| <= e.processed <= |queue|
    ensures !e.failed ==> e.processed == |queue|
  {
    if queue == [] then Extraction([], [], 0, false)
    else
      var e := Drain(queue[1..]);
      if e.failed then e else Step(e, queue[0])
  }

  function Reversed<T>(s: seq<T>): (r: seq<T>)
    ensures |r| == |s|
    ensures forall i :: 0 <= i < |s| ==> r[i] == s[|s| - 1 - i]
  {
    if s == [] then [] else Reversed(s[1..]) + [s[0]]
  }

  // ---------------------------------------------------------------------------
  // The nogood store and the monitor

  /** The part of the nogood propagator the extraction uses: its list of learnt clauses. */
  class PropNogoods {
    var learnt: seq<seq<Lit>>

    constructor ()
      ensures learnt == []
    {
      learnt := [];
    }

    method AddLearnt(clause: seq<Lit>)
      modifies this
      ensures learnt == old(learnt) + [clause]
    {
      learnt := learnt + [clause];
    }
  }

  class NogoodFromRestarts {
    /** The decision queue; its last element is polled first. */
    var decisions: seq<Decision>
    const png: PropNogoods

    constructor (png: PropNogoods)
      ensures this.png == png && decisions == []
    {
      this.png := png;
      decisions := [];
    }

    /** Before a restart, the nogoods of the current branch are extracted. */
    method BeforeRestart(lastBranch: seq<Decision>, nodeCount: nat) returns (ok: bool)
      requires |decisions| + |lastBranch| <= nodeCount
      modifies this, png
      ensures var q := old(decisions) + lastBranch;
              var e := Extract(Reversed(q));
              && png.learnt == old(png.learnt) + e.learnt
              && ok == !e.failed
              && decisions == q[..|q| - e.processed]
    {
      ok := ExtractNogoodFromPath(lastBranch, nodeCount);
    }

    /** After a restart nothing happens. */
    method AfterRestart()
      ensures unchanged(this, png)
    {
    }

    /** Appends the decisions of the branch, from the last one back to the root, to the queue. */
    method EnqueueBranch(lastBranch: seq<Decision>)
      modifies this
      ensures decisions == old(decisions) + lastBranch
    {
      var k := 0;
      while k < |lastBranch|
        invariant 0 <= k <= |lastBranch|
        invariant decisions == old(decisions) + lastBranch[..k]
      {
        decisions := decisions + [lastBranch[k]];
        k := k + 1;
      }
      assert lastBranch[..k] == lastBranch;
    }

    /**
      Polls the last decision of the queue and processes it: an open decision adds
      its literal to the buffer, an exhausted one makes `png` learn the buffered
      prefix followed by its literal, and an unsupported one aborts (`ok` false).
     */
    method ProcessLast(lits: array<Lit>, i: nat, ghost e: Extraction, ghost learnt0: seq<seq<Lit>>)
      returns (i': nat, ok: bool)
      requires decisions != [] && !e.failed
      requires i == |e.prefix| && i < lits.Length && lits[..i] == e.prefix
      requires png.learnt == learnt0 + e.learnt
      modifies this, png, lits
      ensures decisions == old(decisions)[..|old(decisions)| - 1]
      ensures var next := Step(e, old(decisions)[|old(decisions)| - 1]);
              && ok == !next.failed
              && png.learnt == learnt0 + next.learnt
              && (ok ==> i' == |next.prefix| && lits[..i'] == next.prefix)
    {
      var decision := decisions[|decisions| - 1];
      decisions := decisions[..|decisions| - 1];
      var lit: Lit;
      if decision.IntDecision? && decision.op == IntEq {
        lit := Negated(Literal(decision.variable, decision.value));
      } else if decision.IntDecision? && decision.op == IntNeq {
        lit := Literal(decision.variable, decision.value);
      } else {
        return i, false;
      }
      assert lit == LitOf(decision);
      i', ok := i, true;
      if decision.hasNext {
        lits[i] := lit;
        assert lits[..i + 1] == e.prefix + [lit];
        i' := i + 1;
      } else if i == 0 {
        png.AddLearnt([lit]);
        assert [lit] == e.prefix + [lit];
      } else {
        lits[i] := lit;
        assert lits[..i + 1] == e.prefix + [lit];
        png.AddLearnt(lits[..i + 1]);
        assert lits[..i] == e.prefix;
      }
    }

    /**
      `lastBranch` lists the decisions of the current branch from the last one back
      to the root; `nodeCount` is the size of the literal buffer. `ok` is false when
      an unsupported decision aborted the extraction, which leaves the decisions not
      yet polled in the queue.
     */
    method ExtractNogoodFromPath(lastBranch: seq<Decision>, nodeCount: nat) returns (ok: bool)
      requires |decisions| + |lastBranch| <= nodeCount
      modifies this, png
      ensures var q := old(decisions) + lastBranch;
              var e := Extract(Reversed(q));
              && png.learnt == old(png.learnt) + e.learnt
              && ok == !e.failed
              && decisions == q[..|q| - e.processed]
    {
      EnqueueBranch(lastBranch);
      ghost var q := decisions;
      var lits := new Lit[nodeCount](_ => Literal(0, 0));
      ok := DrainQueue(lits);
      DrainIsExtract(q);
    }

    /**
      The second loop of the extraction: polls the queue from its back until it is
      empty or an unsupported decision aborts, filling `lits` with the open prefix.
     */
    method DrainQueue(lits: array<Lit>) returns (ok: bool)
      requires |decisions| <= lits.Length
      modifies this, png, lits
      ensures var e := Drain(old(decisions));
              && png.learnt == old(png.learnt) + e.learnt
              && ok == !e.failed
              && decisions == old(decisions)[..|old(decisions)| - e.processed]
    {
      ghost var learnt0 := png.learnt;
      ghost var q := decisions;
      var i := 0;
      ghost var e := Drain([]);
      while decisions != []
        invariant |decisions| <= |q| && decisions == q[..|decisions|]
        invariant e == Drain(q[|decisions|..])
        invariant !e.failed && i == |e.prefix| && i <= |q| - |decisions|
        invariant lits[..i] == e.prefix && png.learnt == learnt0 + e.learnt
        decreases |decisions|
      {
        ghost var k := |decisions| - 1;
        assert q[k..][1..] == q[k + 1..];
        ghost var next := Step(e, q[k]);
        assert Drain(q[k..]) == next;
        var more;
        i, more := ProcessLast(lits, i, e, learnt0);
        e := next;
        if !more {
          DrainFailureSticks(q, k);
          return false;
        }
      }
      assert q[0..] == q;
      ok := true;
    }
  }

  // ---------------------------------------------------------------------------
  // Properties of the extraction

  /** Polling the queue from its back processes the branch root first. */
  lemma {:induction false} DrainIsExtract(queue: seq<Decision>)
    ensures Drain(queue) == Extract(Reversed(queue))
  {
    if queue != [] {
      DrainIsExtract(queue[1..]);
      var r := Reversed(queue);
      assert r[..|r| - 1] == Reversed(queue[1..]);
    }
  }

  /** Once polling has aborted on a suffix of the queue, the decisions left in the queue change nothing. */
  lemma {:induction false} DrainFailureSticks(queue: seq<Decision>, k: nat)
    requires k <= |queue| && Drain(queue[k..]).failed
    ensures Drain(queue) == Drain(queue[k..])
  {
    if k > 0 {
      assert queue[k - 1..][1..] == queue[k..];
      DrainFailureSticks(queue, k - 1);
    }
  }

  /** Once the extraction has aborted on a prefix of the path, the rest of the path changes nothing. */
  lemma {:induction false} FailureSticks(path: seq<Decision>, k: nat)
    requires k <= |path| && Extract(path[..k]).failed
    ensures Extract(path) == Extract(path[..k])
    decreases |path| - k
  {
    if k < |path| {
      assert path[..k + 1][..k] == path[..k];
      FailureSticks(path, k + 1);
    } else {
      assert path[..k] == path;
    }
  }

  /** The extraction aborts exactly when the path holds an unsupported decision, and then at the first one. */
  lemma {:induction false} FailsAtFirstUnsupported(path: seq<Decision>)
    ensures Extract(path).failed <==> exists j :: 0 <= j < |path| && !Supported(path[j])
    ensures forall j :: 0 <= j < Extract(path).processed - 1 ==> Supported(path[j])
  {
    if path != [] {
      var init := path[..|path| - 1];
      FailsAtFirstUnsupported(init);
      assert forall j :: 0 <= j < |init| ==> init[j] == path[j];
    }
  }

  /** Without an abort, the prefix holds the refuting literals of exactly the decisions that still had an alternative. */
  lemma {:induction false} PrefixIsOpenLits(path: seq<Decision>)
    requires forall i :: 0 <= i < |path| ==> Supported(path[i])
    ensures Extract(path).prefix == OpenLits(path)
  {
    if path != [] {
      PrefixIsOpenLits(path[..|path| - 1]);
    }
  }

  /**
    Without an abort, the learnt clauses are exactly the clauses "open literals
    above an exhausted decision, then that decision's literal".
   */
  lemma {:induction false} LearntClauses(path: seq<Decision>, clause: seq<Lit>)
    requires forall i :: 0 <= i < |path| ==> Supported(path[i])
    ensures clause in Extract(path).learnt <==>
            exists j :: 0 <= j < |path| && !Open(path[j]) && clause == ClauseAt(path, j)
  {
    if path != [] {
      var n := |path| - 1;
      var init := path[..n];
      LearntClauses(init, clause);
      LearntStep(path);
      if clause in Extract(path).learnt && clause in Extract(init).learnt {
        var j :| 0 <= j < |init| && !Open(init[j]) && clause == ClauseAt(init, j);
        ClauseAtPrefix(path, n, j);
      }
      if exists j :: 0 <= j < |path| && !Open(path[j]) && clause == ClauseAt(path, j) {
        var j :| 0 <= j < |path| && !Open(path[j]) && clause == ClauseAt(path, j);
        if j < n {
          ClauseAtPrefix(path, n, j);
        }
      }
    }
  }

  /** Extending the path by one decision adds its clause exactly when it is exhausted. */
  lemma LearntStep(path: seq<Decision>)
    requires path != [] && forall i :: 0 <= i < |path| ==> Supported(path[i])
    ensures var n := |path| - 1;
            Extract(path).learnt ==
              Extract(path[..n]).learnt + (if Open(path[n]) then [] else [ClauseAt(path, n)])
  {
    PrefixIsOpenLits(path[..|path| - 1]);
  }

  /** The clause of an earlier decision does not depend on the decisions after it. */
  lemma ClauseAtPrefix(path: seq<Decision>, n: nat, j: nat)
    requires j < n <= |path| && forall i :: 0 <= i < |path| ==> Supported(path[i])
    ensures ClauseAt(path[..n], j) == ClauseAt(path, j)
  {
    assert path[..n][..j] == path[..j];
  }

  /** A literal is an open literal of `path` exactly when it refutes a decision of `path` that still had an alternative. */
  lemma {:induction false} OpenLitsMembers(path: seq<Decision>, l: Lit)
    requires forall i :: 0 <= i < |path| ==> Supported(path[i])
    ensures l in OpenLits(path) <==> exists i :: 0 <= i < |path| && Open(path[i]) && l == LitOf(path[i])
  {
    if path != [] {
      var n := |path| - 1;
      var init := path[..n];
      OpenLitsMembers(init, l);
      assert forall i :: 0 <= i < n ==> init[i] == path[i];
    }
  }

  /**
    A learnt clause is a nogood: an assignment violates it exactly when it satisfies
    the exhausted decision and every decision above it that still had an alternative.
   */
  lemma ClauseForbidsBranch(path: seq<Decision>, j: nat, a: nat -> int)
    requires j < |path|
    requires forall i :: 0 <= i <= j ==> Supported(path[i])
    ensures !ClauseHolds(ClauseAt(path, j), a) <==>
            (forall i :: 0 <= i < j && Open(path[i]) ==> DecisionHolds(path[i], a)) && DecisionHolds(path[j], a)
  {
    var clause := ClauseAt(path, j);
    var open := OpenLits(path[..j]);
    assert clause[|open|] == LitOf(path[j]);
    LitOfRefutes(path[j], a);
    forall i | 0 <= i < j && Open(path[i])
      ensures LitOf(path[i]) in open
    {
      OpenLitsMembers(path[..j], LitOf(path[i]));
      assert path[..j][i] == path[i];
    }
    if !ClauseHolds(clause, a) {
      forall i | 0 <= i < j && Open(path[i])
        ensures DecisionHolds(path[i], a)
      {
        var k :| 0 <= k < |open| && open[k] == LitOf(path[i]);
        assert clause[k] == open[k];
        LitOfRefutes(path[i], a);
      }
    } else {
      var k :| 0 <= k < |clause| && LitHolds(clause[k], a);
      if k < |open| {
        assert clause[k] == open[k] && open[k] in open;
        OpenLitsMembers(path[..j], open[k]);
        var i :| 0 <= i < j && Open(path[..j][i]) && open[k] == LitOf(path[..j][i]);
        assert path[..j][i] == path[i];
        LitOfRefutes(path[i], a);
      }
    }
  }
}
