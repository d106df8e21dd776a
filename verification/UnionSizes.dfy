/** The widths a wrapper's `size` variable takes, read off a conditional expression or a
    `switch`, against what that code does when it runs
    (crates/stm32wb-catalog-extract/src/commands.rs). */
module UnionSizes {
  import opened Options
  import opened Layout
  import opened Plan

  /** Where a local `size` comes from. A `switch` is on a parameter or something else. */
  datatype SizeCode = Initialized(expression: SizeExpression) | Switched(condition: Option<string>, body: seq<Statement>)

  /** `width`, or `(parameter == tag) ? chosen : otherwise`. */
  datatype SizeExpression =
    | Width(width: int)
    | Conditional(parameter: string, tag: int, chosen: int, otherwise: SizeExpression)

  /** A statement of a `switch`, under the labels before it. */
  datatype Statement = Statement(labels: seq<Label>, action: Action)

  datatype Label = Case(tag: int) | Default

  /** `Assign` assigns a constant to the size; `Other` neither assigns it nor leaves. */
  datatype Action = Assign(width: int) | Break | Return | Other

  /** What the analysis reads: the parameter selecting, and the alternatives. */
  datatype UnionSize = UnionSize(selector: string, variants: seq<Variant>)

  function Given(args: map<string, int>, name: string): int {
    if name in args then args[name] else 0
  }

  /** The width a selector value chooses; 0 if it chooses none. */
  function ChosenWidth(variants: seq<Variant>, tag: int): nat {
    if 0 <= tag < 0x1_0000_0000_0000_0000 && WidthFor(variants, tag).Some? then WidthFor(variants, tag).value else 0
  }

  /** Tags are evaluated as signed 64-bit integers. */
  predicate IsTag(n: int) {
    0 <= n < 0x8000_0000_0000_0000
  }

  predicate IsWidth(n: int) {
    0 <= n < 0x1_0000
  }

  // ----- a conditional initializer

  /** The value of the expression in a call. */
  function Evaluate(expression: SizeExpression, args: map<string, int>): int {
    match expression
    case Width(width) => width
    case Conditional(parameter, tag, chosen, otherwise) =>
      if Given(args, parameter) == tag then chosen else Evaluate(otherwise, args)
  }

  /** The parameter selecting, none for a constant, and the alternatives in order. */
  function Variants(expression: SizeExpression): Option<(Option<string>, seq<Variant>)> {
    match expression
    case Width(width) =>
      if IsWidth(width) then Some((None, [Variant(None, width)])) else None
    case Conditional(parameter, tag, chosen, otherwise) =>
      if !IsTag(tag) || !IsWidth(chosen) then None else
      var rest := Variants(otherwise);
      if rest.None? || (rest.value.0.Some? && rest.value.0.value != parameter) then None
      else Some((Some(parameter), [Variant(Some(tag), chosen)] + rest.value.1))
  }

  /** The alternatives give every selector value the width the expression evaluates to, also
      where an equality is repeated: the first one counts in both. */
  lemma {:induction false} VariantsEvaluate(expression: SizeExpression, args: map<string, int>, n: u64)
    requires Variants(expression).Some?
    requires Variants(expression).value.0.Some? ==> n == Given(args, Variants(expression).value.0.value)
    ensures IsWidth(Evaluate(expression, args))
    ensures WidthFor(Variants(expression).value.1, n) == Some(Evaluate(expression, args))
    ensures WidthListed(Variants(expression).value.1, Some(n)).Some? || WidthListed(Variants(expression).value.1, None).Some?
  {
    var variants := Variants(expression).value.1;
    match expression {
      case Width(width) =>
      case Conditional(parameter, tag, chosen, otherwise) =>
        VariantsEvaluate(otherwise, args, n);
        assert variants[1..] == Variants(otherwise).value.1;
    }
  }

  // ----- a switch, as the analysis reads it

  /** A case assigns the size directly under its one label; the default may return instead. */
  predicate Understood(statement: Statement) {
    statement.labels == [] ||
    (|statement.labels| == 1 &&
     match statement.labels[0]
     case Case(tag) => IsTag(tag) && statement.action.Assign? && IsWidth(statement.action.width)
     case Default => statement.action.Return? || (statement.action.Assign? && IsWidth(statement.action.width)))
  }

  function AlternativeOf(statement: Statement): seq<Variant>
    requires Understood(statement)
  {
    if statement.labels == [] || !statement.action.Assign? then [] else
    [Variant(if statement.labels[0].Case? then Some(statement.labels[0].tag) else None, statement.action.width)]
  }

  /** The alternatives of the first `k` statements. */
  function Alternatives(body: seq<Statement>, k: nat): seq<Variant>
    requires k <= |body| && forall i | 0 <= i < k :: Understood(body[i])
  {
    if k == 0 then [] else Alternatives(body, k - 1) + AlternativeOf(body[k - 1])
  }

  function SwitchVariants(body: seq<Statement>): Option<seq<Variant>> {
    if (forall i | 0 <= i < |body| :: Understood(body[i])) && Alternatives(body, |body|) != []
    then Some(Alternatives(body, |body|))
    else None
  }

  lemma {:induction false} OneAlternative(body: seq<Statement>, k: nat)
    requires 0 < k <= |body| && forall i | 0 <= i < k :: Understood(body[i])
    ensures Alternatives(body, k) != [] <==>
            Alternatives(body, k - 1) != [] || (body[k - 1].labels != [] && body[k - 1].action.Assign?)
  {
    assert Understood(body[k - 1]);
    assert AlternativeOf(body[k - 1]) != [] <==> body[k - 1].labels != [] && body[k - 1].action.Assign?;
  }

  lemma {:induction false} SomeAlternative(body: seq<Statement>, k: nat)
    requires k <= |body| && forall i | 0 <= i < k :: Understood(body[i])
    ensures Alternatives(body, k) != [] <==> exists i | 0 <= i < k :: body[i].labels != [] && body[i].action.Assign?
  {
    hide Understood, AlternativeOf;
    if k > 0 {
      hide Alternatives;
      OneAlternative(body, k);
      SomeAlternative(body, k - 1);
    }
  }

  /** The loop over the labels of a switch. */
  method ReadSwitch(body: seq<Statement>) returns (result: Option<seq<Variant>>)
    ensures result == SwitchVariants(body)
    ensures result.Some? <==>
              && (forall i | 0 <= i < |body| && body[i].labels != [] ::
                    && |body[i].labels| == 1
                    && (body[i].labels[0].Case? ==> 0 <= body[i].labels[0].tag < 0x8000_0000_0000_0000 && body[i].action.Assign?)
                    && (body[i].action.Assign? ==> 0 <= body[i].action.width <= 65535)
                    && (body[i].action.Assign? || body[i].action.Return?))
              && exists i | 0 <= i < |body| :: body[i].labels != [] && body[i].action.Assign?
  {
    var variants: seq<Variant> := [];
    for k := 0 to |body|
      invariant forall i | 0 <= i < k :: Understood(body[i])
      invariant variants == Alternatives(body, k)
    {
      if body[k].labels != [] {
        if |body[k].labels| > 1 {
          return None;
        }
        match body[k].labels[0] {
          case Case(tag) =>
            if !IsTag(tag) || !body[k].action.Assign? || !IsWidth(body[k].action.width) {
              return None;
            }
            variants := variants + [Variant(Some(tag), body[k].action.width)];
          case Default =>
            if !body[k].action.Return? {
              if !body[k].action.Assign? || !IsWidth(body[k].action.width) {
                return None;
              }
              variants := variants + [Variant(None, body[k].action.width)];
            }
        }
      }
    }
    SomeAlternative(body, |body|);
    result := if variants == [] then None else Some(variants);
  }

  // ----- a switch, as it runs

  /** The first statement under a label. */
  function Labelled(body: seq<Statement>, wanted: Label, k: nat): (at: Option<nat>)
    requires k <= |body|
    ensures at.Some? ==> at.value < k && wanted in body[at.value].labels
    ensures at.Some? ==> forall i | 0 <= i < at.value :: wanted !in body[i].labels
    ensures at.None? ==> forall i | 0 <= i < k :: wanted !in body[i].labels
  {
    if k == 0 then None else
    var before := Labelled(body, wanted, k - 1);
    if before.Some? then before else if wanted in body[k - 1].labels then Some(k - 1) else None
  }

  /** Where a value enters: at its case, or else at the default. */
  function Entry(body: seq<Statement>, n: int): Option<nat> {
    var at := Labelled(body, Case(n), |body|);
    if at.Some? then at else Labelled(body, Default, |body|)
  }

  /** The size after the switch; none if no statement assigned it or the wrapper returned. */
  datatype Outcome = Has(width: int) | Returned | Unassigned

  /** Running on from a statement: cases run into the next one unless they break. */
  function RunOn(body: seq<Statement>, p: nat, size: Outcome): Outcome
    requires p <= |body|
    decreases |body| - p
  {
    if p == |body| then size else
    match body[p].action
    case Assign(width) => RunOn(body, p + 1, Has(width))
    case Break => size
    case Return => Returned
    case Other => RunOn(body, p + 1, size)
  }

  function OutcomeOf(body: seq<Statement>, n: int): Outcome {
    match Entry(body, n)
    case None => Unassigned
    case Some(p) => RunOn(body, p, Unassigned)
  }

  // ----- falling through

  /** Entering at `p`, nothing leaves the switch before `q`. */
  predicate Reaches(body: seq<Statement>, p: nat, q: nat) {
    p <= q < |body| && forall r | p <= r < q :: !body[r].action.Break? && !body[r].action.Return?
  }

  /** The last assignment reached from `p` is at `q`. */
  predicate LastAssigns(body: seq<Statement>, p: nat, q: nat) {
    && Reaches(body, p, q) && body[q].action.Assign?
    && forall r | q < r < |body| && Reaches(body, p, r) :: !body[r].action.Assign?
  }

  ghost predicate ReachesReturn(body: seq<Statement>, p: nat) {
    exists q: nat :: Reaches(body, p, q) && body[q].action.Return?
  }

  /** From the assignment at `p`, a return or a different last assignment is reached. */
  ghost predicate FallsThrough(body: seq<Statement>, p: nat) {
    ReachesReturn(body, p) ||
    exists q: nat :: LastAssigns(body, p, q) && body[q].action != body[p].action
  }

  predicate Leaves(action: Action) {
    action.Break? || action.Return?
  }

  lemma {:induction false} ReachesOn(body: seq<Statement>, p: nat, q: nat)
    requires p < q < |body|
    ensures Reaches(body, p, q) <==> !Leaves(body[p].action) && Reaches(body, p + 1, q)
  {
  }

  /** The last assignment reached from `p`. */
  function LastFrom(body: seq<Statement>, p: nat): (last: Option<nat>)
    requires p <= |body|
    ensures last.Some? ==> p <= last.value && LastAssigns(body, p, last.value)
    ensures last.None? ==> forall q: nat | Reaches(body, p, q) :: !body[q].action.Assign?
    decreases |body| - p
  {
    if p == |body| || Leaves(body[p].action) then None else
    assert forall q: nat | p < q < |body| :: Reaches(body, p, q) <==> Reaches(body, p + 1, q);
    var rest := LastFrom(body, p + 1);
    if rest.Some? then rest else if body[p].action.Assign? then Some(p) else None
  }

  lemma {:induction false} OneLast(body: seq<Statement>, p: nat, q: nat)
    requires p <= |body| && LastAssigns(body, p, q)
    ensures LastFrom(body, p) == Some(q)
  {
    var last := LastFrom(body, p);
    hide LastFrom;
    assert Reaches(body, p, q);
    assert LastAssigns(body, p, last.value);
  }

  lemma {:induction false} ReturnsOn(body: seq<Statement>, p: nat)
    requires p < |body|
    ensures ReachesReturn(body, p) <==>
            body[p].action.Return? || (!Leaves(body[p].action) && ReachesReturn(body, p + 1))
  {
    if ReachesReturn(body, p) {
      var q: nat :| Reaches(body, p, q) && body[q].action.Return?;
      if q > p {
        ReachesOn(body, p, q);
      }
    }
    if body[p].action.Return? {
      assert Reaches(body, p, p);
    } else if !Leaves(body[p].action) && ReachesReturn(body, p + 1) {
      var q: nat :| Reaches(body, p + 1, q) && body[q].action.Return?;
      ReachesOn(body, p, q);
    }
  }

  /** Running on ends with the last assignment reached, unless it returns. */
  lemma {:induction false} RunsOnTo(body: seq<Statement>, p: nat, size: Outcome)
    requires p <= |body|
    ensures RunOn(body, p, size) ==
            if ReachesReturn(body, p) then Returned
            else match LastFrom(body, p) case Some(q) => Has(body[q].action.width) case None => size
    decreases |body| - p
  {
    hide ReachesReturn, LastAssigns, Reaches;
    if p < |body| {
      ReturnsOn(body, p);
      match body[p].action {
        case Assign(width) => RunsOnTo(body, p + 1, Has(width));
        case Other => RunsOnTo(body, p + 1, size);
        case _ =>
      }
    } else {
      NoReturnAtEnd(body);
    }
  }

  lemma {:induction false} NoReturnAtEnd(body: seq<Statement>)
    ensures !ReachesReturn(body, |body|)
  {
  }

  /** A case's size is the one it assigns exactly if it does not fall through. */
  lemma {:induction false} KeepsSize(body: seq<Statement>, p: nat)
    requires p < |body| && body[p].action.Assign?
    ensures RunOn(body, p, Unassigned) == Has(body[p].action.width) <==> !FallsThrough(body, p)
  {
    RunsOnTo(body, p, Unassigned);
    assert Reaches(body, p, p);
    var last := LastFrom(body, p).value;
    hide ReachesReturn, LastFrom, RunOn;
    assert LastAssigns(body, p, last);
    hide LastAssigns, Reaches;
    forall q: nat | LastAssigns(body, p, q) ensures q == last {
      OneLast(body, p, q);
    }
    assert body[last].action.Assign? by {
      LastIsAssignment(body, p, last);
    }
  }

  lemma {:induction false} LastIsAssignment(body: seq<Statement>, p: nat, q: nat)
    requires LastAssigns(body, p, q)
    ensures q < |body| && body[q].action.Assign?
  {
  }

  // ----- the alternatives against the run

  lemma {:induction false} ListedIn(a: seq<Variant>, b: seq<Variant>, tag: Option<u64>)
    ensures WidthListed(a + b, tag) ==
            if WidthListed(a, tag).Some? then WidthListed(a, tag) else WidthListed(b, tag)
  {
    if a == [] {
      assert a + b == b;
    } else {
      assert (a + b)[1..] == a[1..] + b;
      ListedIn(a[1..], b, tag);
    }
  }

  /** C gives a switch at most one default. */
  predicate OneDefault(body: seq<Statement>) {
    forall i, j | 0 <= i < j < |body| && Default in body[i].labels :: Default !in body[j].labels
  }

  /** The width assigned at an entry. */
  function WidthAt(body: seq<Statement>, at: Option<nat>): Option<int> {
    if at.Some? && at.value < |body| && body[at.value].action.Assign? then Some(body[at.value].action.width) else None
  }

  function TagOf(wanted: Label): Option<int> {
    match wanted
    case Case(tag) => Some(tag)
    case Default => None
  }

  /** The width a statement assigns under a label. */
  function WidthUnder(statement: Statement, wanted: Label): Option<int> {
    if wanted in statement.labels && statement.action.Assign? then Some(statement.action.width) else None
  }

  lemma {:induction false} AlternativeListed(statement: Statement, wanted: Label, tag: Option<u64>)
    requires Understood(statement) && TagOf(wanted) == tag
    ensures WidthListed(AlternativeOf(statement), tag) == WidthUnder(statement, wanted)
  {
    if statement.labels != [] {
      assert statement.labels == [statement.labels[0]];
    }
  }

  predicate AllUnderstood(body: seq<Statement>) {
    forall i | 0 <= i < |body| :: Understood(body[i])
  }

  lemma {:induction false} OneMoreListed(body: seq<Statement>, wanted: Label, tag: Option<u64>, k: nat)
    requires 0 < k <= |body| && AllUnderstood(body) && TagOf(wanted) == tag
    ensures WidthListed(Alternatives(body, k), tag) ==
            if WidthListed(Alternatives(body, k - 1), tag).Some? then WidthListed(Alternatives(body, k - 1), tag)
            else WidthUnder(body[k - 1], wanted)
  {
    ListedIn(Alternatives(body, k - 1), AlternativeOf(body[k - 1]), tag);
    AlternativeListed(body[k - 1], wanted, tag);
    hide WidthListed, WidthUnder, AlternativeOf, Understood;
  }

  /** The width assigned where a label is. */
  function WidthLabelled(body: seq<Statement>, wanted: Label, k: nat): Option<int>
    requires k <= |body|
  {
    WidthAt(body, Labelled(body, wanted, k))
  }

  /** Only the first statement under a label counts: a second case assigns after one that
      does, and there is no second default. */
  lemma {:induction false} OneMoreLabelled(body: seq<Statement>, wanted: Label, k: nat)
    requires 0 < k <= |body| && AllUnderstood(body) && OneDefault(body)
    ensures WidthLabelled(body, wanted, k) ==
            if WidthLabelled(body, wanted, k - 1).Some? then WidthLabelled(body, wanted, k - 1)
            else WidthUnder(body[k - 1], wanted)
  {
    var before := Labelled(body, wanted, k - 1);
    if before.Some? {
      assert Understood(body[before.value]);
      if wanted == Default {
        assert Default in body[before.value].labels && Default !in body[k - 1].labels;
      }
    }
  }

  /** The alternatives hold what the statements under their labels assign. */
  lemma {:induction false} LabelListed(body: seq<Statement>, wanted: Label, tag: Option<u64>, k: nat)
    requires k <= |body| && TagOf(wanted) == tag && OneDefault(body) && AllUnderstood(body)
    ensures WidthListed(Alternatives(body, k), tag) == WidthLabelled(body, wanted, k)
  {
    hide *;
    if k > 0 {
      LabelListed(body, wanted, tag, k - 1);
      OneMoreListed(body, wanted, tag, k);
      OneMoreLabelled(body, wanted, k);
    } else {
      NothingListed(body, wanted, tag);
    }
  }

  lemma {:induction false} NothingListed(body: seq<Statement>, wanted: Label, tag: Option<u64>)
    ensures WidthListed(Alternatives(body, 0), tag) == None == WidthLabelled(body, wanted, 0)
  {
  }

  /** A size is assigned under every case. */
  lemma {:induction false} CaseAssigns(body: seq<Statement>, wanted: Label)
    requires wanted.Case? && AllUnderstood(body)
    ensures Labelled(body, wanted, |body|).Some? ==> WidthLabelled(body, wanted, |body|).Some?
  {
    var at := Labelled(body, wanted, |body|);
    hide Labelled;
    assert at.Some? ==> Understood(body[at.value]);
  }

  /** For every selector value: the alternative read is the size the switch gives exactly if
      the case entered does not fall through; without an alternative there is no size. */
  lemma {:induction false} SwitchEvaluates(body: seq<Statement>, n: u64)
    requires SwitchVariants(body).Some? && OneDefault(body)
    ensures match WidthFor(SwitchVariants(body).value, n)
            case None => !OutcomeOf(body, n).Has?
            case Some(width) =>
              && Entry(body, n).Some?
              && (OutcomeOf(body, n) == Has(width) <==> !FallsThrough(body, Entry(body, n).value))
  {
    LabelListed(body, Case(n), Some(n), |body|);
    CaseAssigns(body, Case(n));
    LabelListed(body, Default, None, |body|);
    var entry := Entry(body, n);
    hide Alternatives, WidthListed, Labelled, FallsThrough;
    if entry.Some? {
      if body[entry.value].action.Assign? {
        KeepsSize(body, entry.value);
      } else {
        assert Default in body[entry.value].labels && Understood(body[entry.value]);
        DefaultReturns(body[entry.value]);
      }
    }
  }

  lemma {:induction false} DefaultReturns(statement: Statement)
    requires Understood(statement) && Default in statement.labels && !statement.action.Assign?
    ensures statement.action.Return?
  {
  }

  // ----- the code of a size

  /** What the analysis reads off the code of a `size`. */
  function UnionVariants(code: SizeCode): Option<UnionSize> {
    match code
    case Initialized(expression) =>
      var read := Variants(expression);
      if read.Some? && read.value.0.Some? then Some(UnionSize(read.value.0.value, read.value.1)) else None
    case Switched(condition, body) =>
      var read := SwitchVariants(body);
      if condition.Some? && read.Some? then Some(UnionSize(condition.value, read.value)) else None
  }

  method FindVariants(code: SizeCode) returns (result: Option<UnionSize>)
    ensures result == UnionVariants(code)
  {
    match code {
      case Initialized(expression) =>
        var read := Variants(expression);
        result := if read.Some? && read.value.0.Some? then Some(UnionSize(read.value.0.value, read.value.1)) else None;
      case Switched(condition, body) =>
        var read := ReadSwitch(body);
        result := if condition.Some? && read.Some? then Some(UnionSize(condition.value, read.value)) else None;
    }
  }

  /** The size after the code ran; 0 if it gave none. */
  function SizeIn(code: SizeCode, args: map<string, int>): int {
    match code
    case Initialized(expression) => Evaluate(expression, args)
    case Switched(condition, body) =>
      if condition.None? then 0 else
      match OutcomeOf(body, Given(args, condition.value))
      case Has(width) => width
      case _ => 0
  }

  /** A switch has at most one default, and no value enters a case that falls through. */
  ghost predicate Straight(code: SizeCode) {
    code.Switched? ==>
      && OneDefault(code.body)
      && forall p | 0 <= p < |code.body| && code.body[p].labels != [] && code.body[p].action.Assign? ::
           !FallsThrough(code.body, p)
  }

  /** The size is the alternative the selecting argument chooses. */
  lemma {:induction false} SizeIsChosen(code: SizeCode, args: map<string, int>)
    requires UnionVariants(code).Some? && Straight(code)
    requires 0 <= Given(args, UnionVariants(code).value.selector) < 0x1_0000_0000_0000_0000
    ensures SizeIn(code, args) == ChosenWidth(UnionVariants(code).value.variants, Given(args, UnionVariants(code).value.selector))
  {
    var n := Given(args, UnionVariants(code).value.selector);
    hide FallsThrough, OneDefault, WidthFor, Variants, SwitchVariants, OutcomeOf;
    match code {
      case Initialized(expression) =>
        VariantsEvaluate(expression, args, n);
      case Switched(condition, body) =>
        SwitchEvaluates(body, n);
        EntersLabelled(body, n);
    }
  }

  lemma {:induction false} EntersLabelled(body: seq<Statement>, n: u64)
    requires SwitchVariants(body).Some? && OneDefault(body)
    ensures Entry(body, n).Some? ==> Entry(body, n).value < |body| && body[Entry(body, n).value].labels != []
    ensures WidthFor(SwitchVariants(body).value, n).Some? ==>
              Entry(body, n).Some? && body[Entry(body, n).value].action.Assign?
  {
    LabelListed(body, Case(n), Some(n), |body|);
    CaseAssigns(body, Case(n));
    LabelListed(body, Default, None, |body|);
    hide Alternatives, WidthListed, Labelled, Understood;
  }

  // ----- a case that falls through

  const FALLING: seq<Statement> := [
    Statement([Case(1)], Assign(1)), Statement([Case(2)], Assign(2)), Statement([], Break)]

  /** The switch is accepted; for 1 it gives 2, where the alternative read has width 1. */
  lemma {:induction false} FallThroughIgnored()
    ensures SwitchVariants(FALLING) == Some([Variant(Some(1), 1), Variant(Some(2), 2)])
    ensures WidthFor(SwitchVariants(FALLING).value, 1) == Some(1) && OutcomeOf(FALLING, 1) == Has(2)
  {
    assert Alternatives(FALLING, 1) == [Variant(Some(1), 1)];
    assert Alternatives(FALLING, 2) == [Variant(Some(1), 1), Variant(Some(2), 2)];
    assert Alternatives(FALLING, 3) == [Variant(Some(1), 1), Variant(Some(2), 2)];
    assert Labelled(FALLING, Case(1), 1) == Some(0);
    assert Labelled(FALLING, Case(1), 3) == Some(0);
    assert RunOn(FALLING, 1, Has(1)) == Has(2);
  }
}
