/** The analysis of a generated C wrapper: which member of its command buffer it writes,
    how, and by how much it increments `index_input`
    (crates/stm32wb-catalog-extract/src/commands.rs). */
module Wrapper {
  import opened Options

  // ----- the wrapper's code

  /** The number a length is a multiple of: a constant, or what some expression holds. */
  datatype Count =
    | Constant(n: int)
    | Parameter(name: string)
    | Local(variable: string)
    | Dereferenced(pointer: string)
    | MemberCount(base: string, member: string)

  datatype Length = Length(count: Count, unit: int)

  function Fixed(bytes: int): Length {
    Length(Constant(bytes), 1)
  }

  datatype Target = Target(view: string, member: string)

  /** An assignment of a parameter or another expression, or a copy of a length, if its
      length expression is recognized. */
  datatype Write = Assigned(parameter: Option<string>) | Copied(length: Option<Length>)

  datatype Node =
    | Writing(target: Target, write: Write)
    | Increment(length: Option<Length>)
    | Other

  /** A variable viewing the command buffer as the `index`th part of the parameters. */
  datatype View = View(index: nat, variable: string, record: string)

  // ----- writes and increments

  datatype Step = Step(target: Target, write: Write, increment: Option<Length>)

  predicate IsView(views: seq<View>, variable: string) {
    exists i | 0 <= i < |views| :: views[i].variable == variable
  }

  predicate Matters(views: seq<View>, node: Node) {
    node.Increment? || (node.Writing? && IsView(views, node.target.view))
  }

  /** The writes to view members, and the increments. */
  function Relevant(views: seq<View>, nodes: seq<Node>): seq<Node> {
    if nodes == [] then [] else
    var last := |nodes| - 1;
    var before := Relevant(views, nodes[..last]);
    if Matters(views, nodes[last]) then before + [nodes[last]] else before
  }

  /** Alternating writes and increments, as steps. */
  function StepsOf(nodes: seq<Node>): (steps: Option<seq<Step>>)
    ensures steps.Some? ==> |nodes| == 2 * |steps.value|
    ensures steps.Some? ==> forall k | 0 <= k < |steps.value| :: StepAt(nodes, k, steps.value[k])
  {
    if nodes == [] then Some([])
    else if |nodes| == 1 then None
    else
      var n := |nodes|;
      var before := StepsOf(nodes[..n - 2]);
      if before.Some? && nodes[n - 2].Writing? && nodes[n - 1].Increment?
      then
        var steps := before.value + [Step(nodes[n - 2].target, nodes[n - 2].write, nodes[n - 1].length)];
        assert forall k | 0 <= k < |before.value| :: StepAt(nodes[..n - 2], k, before.value[k]);
        Some(steps)
      else None
  }

  /** Nodes are steps exactly if they are even in number and alternate: a write, its increment. */
  lemma {:induction false} StepsAlternate(nodes: seq<Node>)
    ensures StepsOf(nodes).Some? <==>
            |nodes| % 2 == 0 && forall k | 0 <= k < |nodes| :: if k % 2 == 0 then nodes[k].Writing? else nodes[k].Increment?
  {
    var n := |nodes|;
    if n >= 2 {
      StepsAlternate(nodes[..n - 2]);
      assert forall k | 0 <= k < n - 2 :: nodes[..n - 2][k] == nodes[k];
      assert n % 2 == (n - 2) % 2;
    }
  }

  predicate StepAt(nodes: seq<Node>, k: nat, step: Step)
    requires 2 * k + 1 < |nodes|
  {
    nodes[2 * k] == Writing(step.target, step.write) && nodes[2 * k + 1] == Increment(step.increment)
  }

  predicate DistinctTargets(steps: seq<Step>) {
    forall i, j | 0 <= i < j < |steps| :: steps[i].target != steps[j].target
  }

  /** Every write to a view member is followed by one increment, and no member is written
      twice. */
  ghost predicate Paired(views: seq<View>, nodes: seq<Node>) {
    var steps := StepsOf(Relevant(views, nodes));
    steps.Some? && DistinctTargets(steps.value)
  }

  ghost function Steps(views: seq<View>, nodes: seq<Node>): seq<Step>
    requires Paired(views, nodes)
  {
    StepsOf(Relevant(views, nodes)).value
  }

  lemma {:induction false} RelevantPrefix(views: seq<View>, nodes: seq<Node>, i: nat)
    requires i <= |nodes|
    ensures Relevant(views, nodes[..i]) <= Relevant(views, nodes)
    decreases |nodes| - i
  {
    if i < |nodes| {
      RelevantPrefix(views, nodes, i + 1);
      assert nodes[..i + 1][..i] == nodes[..i];
    } else {
      assert nodes[..i] == nodes;
    }
  }

  lemma {:induction false} AlternatesAt(views: seq<View>, nodes: seq<Node>, k: nat)
    requires Paired(views, nodes) && 2 * k < |Relevant(views, nodes)|
    ensures var all := Relevant(views, nodes);
            2 * k + 1 < |all| && all[2 * k].Writing? && all[2 * k + 1].Increment?
  {
    assert StepAt(Relevant(views, nodes), k, Steps(views, nodes)[k]);
  }

  /** What the first `i` nodes show is kept by the rest. */
  lemma {:induction false} MismatchStays(views: seq<View>, nodes: seq<Node>, i: nat, steps: seq<Step>)
    requires i <= |nodes|
    requires var seen := Relevant(views, nodes[..i]);
             && 2 * |steps| < |seen| && StepsOf(seen[..2 * |steps|]) == Some(steps)
             && (seen[2 * |steps|].Increment? || (|seen| == 2 * |steps| + 2 && !seen[2 * |steps| + 1].Increment?))
    ensures !Paired(views, nodes)
  {
    RelevantPrefix(views, nodes, i);
    if Paired(views, nodes) {
      AlternatesAt(views, nodes, |steps|);
    }
  }

  lemma {:induction false} BareIncrement(views: seq<View>, nodes: seq<Node>, i: nat, steps: seq<Step>)
    requires i < |nodes| && nodes[i].Increment? && Seen(Relevant(views, nodes[..i]), steps, None)
    ensures !Paired(views, nodes)
  {
    var seen := Relevant(views, nodes[..i]);
    SeenMore(views, nodes, i);
    assert (seen + [nodes[i]])[..2 * |steps|] == seen;
    MismatchStays(views, nodes, i + 1, steps);
  }

  lemma {:induction false} DoubleWrite(views: seq<View>, nodes: seq<Node>, i: nat, steps: seq<Step>,
                                       pending: Option<(Target, Write)>)
    requires i < |nodes| && nodes[i].Writing? && Matters(views, nodes[i]) && pending.Some?
    requires Seen(Relevant(views, nodes[..i]), steps, pending)
    ensures !Paired(views, nodes)
  {
    var seen := Relevant(views, nodes[..i]);
    SeenMore(views, nodes, i);
    assert (seen + [nodes[i]])[..2 * |steps|] == seen[..2 * |steps|];
    MismatchStays(views, nodes, i + 1, steps);
  }

  lemma {:induction false} RepeatStays(views: seq<View>, nodes: seq<Node>, i: nat, steps: seq<Step>)
    requires i <= |nodes|
    requires var seen := Relevant(views, nodes[..i]);
             StepsOf(seen) == Some(steps) && !DistinctTargets(steps)
    ensures !Paired(views, nodes)
  {
    RelevantPrefix(views, nodes, i);
    var all := StepsOf(Relevant(views, nodes));
    if all.Some? {
      forall k | 0 <= k < |steps| ensures all.value[k] == steps[k] {
        assert StepAt(Relevant(views, nodes), k, all.value[k]);
        assert StepAt(Relevant(views, nodes[..i]), k, steps[k]);
      }
    }
  }

  lemma {:induction false} OddStays(views: seq<View>, nodes: seq<Node>)
    requires |Relevant(views, nodes)| % 2 == 1
    ensures !Paired(views, nodes)
  {
  }

  /** The writes found: by target, and in order. */
  ghost predicate Scanned(writes: map<Target, Step>, order: seq<Target>, steps: seq<Step>) {
    && DistinctTargets(steps)
    && order == TargetsOf(steps)
    && (forall k | 0 <= k < |steps| :: steps[k].target in writes && writes[steps[k].target] == steps[k])
    && (forall target | target in writes :: WrittenIn(steps, target))
  }

  predicate WrittenIn(steps: seq<Step>, target: Target) {
    exists k | 0 <= k < |steps| :: steps[k].target == target
  }

  function TargetsOf(steps: seq<Step>): (targets: seq<Target>)
    ensures |targets| == |steps|
    ensures forall k | 0 <= k < |steps| :: targets[k] == steps[k].target
  {
    seq(|steps|, k requires 0 <= k < |steps| => steps[k].target)
  }

  lemma {:induction false} ScannedOneMore(writes: map<Target, Step>, order: seq<Target>, steps: seq<Step>, step: Step)
    requires Scanned(writes, order, steps)
    ensures step.target !in writes ==> Scanned(writes[step.target := step], order + [step.target], steps + [step])
    ensures step.target in writes ==> !DistinctTargets(steps + [step])
  {
    var more := steps + [step];
    if step.target in writes {
      var k :| 0 <= k < |steps| && steps[k].target == step.target;
      assert more[k].target == more[|steps|].target;
    } else {
      forall target | target in writes[step.target := step] ensures WrittenIn(more, target) {
        if target in writes {
          var k :| 0 <= k < |steps| && steps[k].target == target;
          assert more[k].target == target;
        } else {
          assert more[|steps|].target == target;
        }
      }
    }
  }

  /** What the loop has seen: complete steps, and at most one write waiting for its increment. */
  ghost predicate Seen(seen: seq<Node>, steps: seq<Step>, pending: Option<(Target, Write)>) {
    match pending
    case None => StepsOf(seen) == Some(steps)
    case Some(write) =>
      |seen| == 2 * |steps| + 1 && StepsOf(seen[..2 * |steps|]) == Some(steps) && seen[2 * |steps|] == Writing(write.0, write.1)
  }

  lemma {:induction false} SeenMore(views: seq<View>, nodes: seq<Node>, i: nat)
    requires i < |nodes|
    ensures Relevant(views, nodes[..i + 1]) ==
            if Matters(views, nodes[i]) then Relevant(views, nodes[..i]) + [nodes[i]] else Relevant(views, nodes[..i])
  {
    assert nodes[..i + 1][..i] == nodes[..i];
  }

  lemma {:induction false} SeenIncrement(seen: seq<Node>, steps: seq<Step>, write: (Target, Write),
                                         length: Option<Length>)
    requires Seen(seen, steps, Some(write))
    ensures StepsOf(seen + [Increment(length)]) == Some(steps + [Step(write.0, write.1, length)])
  {
    var more := seen + [Increment(length)];
    assert more[..|more| - 2] == seen[..2 * |steps|];
  }

  lemma {:induction false} SeenWrite(seen: seq<Node>, steps: seq<Step>, target: Target, write: Write)
    requires Seen(seen, steps, None)
    ensures Seen(seen + [Writing(target, write)], steps, Some((target, write)))
  {
    assert (seen + [Writing(target, write)])[..2 * |steps|] == seen;
  }

  lemma {:induction false} SeenComplete(seen: seq<Node>, steps: seq<Step>)
    requires StepsOf(seen) == Some(steps)
    ensures Seen(seen, steps, None)
  {
  }

  lemma {:induction false} SeenAll(views: seq<View>, nodes: seq<Node>, steps: seq<Step>,
                                   pending: Option<(Target, Write)>)
    requires Seen(Relevant(views, nodes), steps, pending)
    ensures pending.Some? ==> !Paired(views, nodes)
    ensures pending.None? && DistinctTargets(steps) ==> Paired(views, nodes) && Steps(views, nodes) == steps
  {
    if pending.Some? {
      OddStays(views, nodes);
    }
  }

  /** The first loop: pair every write to a view member with the increment after it. */
  method Scan(views: seq<View>, nodes: seq<Node>) returns (ok: bool, writes: map<Target, Step>, order: seq<Target>)
    ensures ok <==> Paired(views, nodes)
    ensures ok ==> Scanned(writes, order, Steps(views, nodes))
  {
    writes, order := map[], [];
    var pending: Option<(Target, Write)> := None;
    ghost var steps: seq<Step> := [];
    for i := 0 to |nodes|
      invariant Seen(Relevant(views, nodes[..i]), steps, pending)
      invariant Scanned(writes, order, steps)
    {
      hide Scanned, Relevant, StepsOf, IsView, Seen, Paired, DistinctTargets;
      ghost var seen := Relevant(views, nodes[..i]);
      SeenMore(views, nodes, i);
      match nodes[i] {
        case Increment(length) =>
          if pending.None? {
            BareIncrement(views, nodes, i, steps);
            return false, writes, order;
          }
          var (target, write) := pending.value;
          var step := Step(target, write, length);
          SeenIncrement(seen, steps, pending.value, length);
          SeenComplete(seen + [nodes[i]], steps + [step]);
          ScannedOneMore(writes, order, steps, step);
          if target in writes {
            RepeatStays(views, nodes, i + 1, steps + [step]);
            return false, writes, order;
          }
          writes, order, pending := writes[target := step], order + [target], None;
          steps := steps + [step];
        case Writing(target, write) =>
          if IsView(views, target.view) {
            if pending.Some? {
              DoubleWrite(views, nodes, i, steps, pending);
              return false, writes, order;
            }
            SeenWrite(seen, steps, target, write);
            pending := Some((target, write));
          }
        case Other =>
      }
    }
    assert nodes[..|nodes|] == nodes;
    SeenAll(views, nodes, steps, pending);
    ok := pending.None?;
  }
}
