/** A wrapper the analysis accepts, with a union its widest alternative fills. It counts more
    bytes than its layout encodes to: the union is copied in units of two bytes, which the
    analysis ignores. */
module WrapperExample {
  import opened Options
  import opened Bytes
  import opened Layout
  import opened CStructures
  import opened UnionSizes
  import opened Wrapper
  import opened WrapperLayout
  import opened WrapperRun

  const SELECTOR := Target("cp", "S")
  const DATA := Target("cp", "Data")
  const CHOSEN := Length(Local("size"), 2)

  const VIEWS: seq<View> := [View(0, "cp", "Parameters")]
  const NODES: seq<Node> := [
    Writing(SELECTOR, Assigned(Some("selector"))), Increment(Some(Wrapper.Fixed(1))),
    Writing(DATA, Copied(Some(CHOSEN))), Increment(Some(CHOSEN))]
  const RECORDS: Records := map[
    "Parameters" := CRecord(false, 3, true, [CField("S", CScalar(U8)), CField("Data", CRecordType("U"))]),
    "U" := CRecord(true, 2, true, [])]
  const ALTERNATIVES: seq<Variant> := [Variant(Some(1), 1), Variant(Some(2), 2)]
  const BODY: seq<Statement> := [
    Statement([Case(1)], Assign(1)), Statement([], Break), Statement([Case(2)], Assign(2)), Statement([], Break)]
  const SIZES: Sizes := map["size" := Switched(Some("selector"), BODY)]
  const STEPS: seq<Step> := [
    Step(SELECTOR, Assigned(Some("selector")), Some(Wrapper.Fixed(1))), Step(DATA, Copied(Some(CHOSEN)), Some(CHOSEN))]
  const FIELDS: seq<Field> := [Field("S", ScalarField(U8)), Field("Data", UnionField("S", ALTERNATIVES))]

  lemma {:induction false} ExampleAcyclic()
    ensures AcyclicRecords(RECORDS)
  {
    var rank: map<string, nat> := map["Parameters" := 1, "U" := 0];
    assert |"Parameters"| != |"U"|;
    forall name, k | name in RECORDS && 0 <= k < |RECORDS[name].fields| ensures HeldLower(RECORDS, rank, name, k) {
    }
    assert RecordRanks(RECORDS, rank);
  }

  lemma {:induction false} ExampleRelevant()
    ensures Relevant(VIEWS, NODES) == NODES
  {
    assert VIEWS[0].variable == "cp";
    assert IsView(VIEWS, "cp");
    assert NODES[..3][..2] == NODES[..2] && NODES[..2][..1] == NODES[..1] && NODES[..1][..0] == [];
    assert Relevant(VIEWS, NODES[..1]) == NODES[..1];
    assert Relevant(VIEWS, NODES[..2]) == NODES[..2];
    assert Relevant(VIEWS, NODES[..3]) == NODES[..3];
  }

  lemma {:induction false} ExamplePaired()
    ensures Paired(VIEWS, NODES) && Steps(VIEWS, NODES) == STEPS
  {
    ExampleRelevant();
    assert |"S"| != |"Data"|;
    assert NODES[..2][..0] == [];
    assert [] + [STEPS[0]] == STEPS[..1] && STEPS[..1] + [STEPS[1]] == STEPS;
    assert StepsOf(NODES[..2]) == Some(STEPS[..1]);
    assert StepsOf(NODES) == Some(STEPS);
  }

  lemma {:induction false} ExampleMembers()
    ensures PartsDeclared(RECORDS, VIEWS)
    ensures MembersOf(RECORDS, VIEWS) == [Member("cp", CField("S", CScalar(U8))), Member("cp", CField("Data", CRecordType("U")))]
  {
    assert PartDeclared(RECORDS, VIEWS[0]);
    assert VIEWS[..0] == [];
    assert MembersOf(RECORDS, VIEWS) == PartMembers(RECORDS, VIEWS[0]);
  }

  lemma {:induction false} ExampleSize(args: map<string, int>)
    ensures UnionVariants(SIZES["size"]) == Some(UnionSize("selector", ALTERNATIVES))
    ensures Given(args, "selector") == 1 ==> SizeIn(SIZES["size"], args) == 1
  {
    assert Alternatives(BODY, 1) == ALTERNATIVES[..1];
    assert Alternatives(BODY, 2) == ALTERNATIVES[..1];
    assert Alternatives(BODY, 3) == ALTERNATIVES;
    assert Alternatives(BODY, 4) == ALTERNATIVES;
    assert Labelled(BODY, Case(1), 1) == Some(0);
    assert Labelled(BODY, Case(1), 2) == Some(0);
    assert Labelled(BODY, Case(1), 3) == Some(0);
    assert Labelled(BODY, Case(1), 4) == Some(0);
    assert RunOn(BODY, 1, Has(1)) == Has(1);
  }

  lemma {:induction false} ExampleAccepted()
    ensures AcyclicRecords(RECORDS) && Accepted(VIEWS, NODES, RECORDS, SIZES)
    ensures Analyzed(VIEWS, NODES, RECORDS, SIZES).value.fields == FIELDS
  {
    ExampleAcyclic();
    ExamplePaired();
    ExampleMembers();
    ExampleSize(map[]);
    var members := MembersOf(RECORDS, VIEWS);
    hide Relevant, StepsOf, Paired, AcyclicRecords, UnionVariants;
    assert |"S"| != |"Data"| && |"U"| != |"Parameters"|;
    assert FindStep(STEPS, SELECTOR) == Some(STEPS[0]);
    assert STEPS[1..][0] == STEPS[1];
    assert FindStep(STEPS, DATA) == Some(STEPS[1]);
    assert AnalysisOf(members, 0, STEPS, RECORDS, SIZES) == Some(NothingYet());
    var first := Analysis([FIELDS[0]], map["selector" := "S"], [], []);
    assert Adding(NothingYet(), "S", STEPS[0].write, Typed(ScalarField(U8), None, false)) == first;
    assert AnalysisOf(members, 1, STEPS, RECORDS, SIZES) == Some(first);
    assert !Wider(ALTERNATIVES, 2);
    assert UnionTypeOf(2, CHOSEN, first.stored, SIZES) == Some(Typed(UnionField("S", ALTERNATIVES), None, false));
    assert AnalysisOf(members, 2, STEPS, RECORDS, SIZES).value.fields == FIELDS;
  }

  lemma {:induction false} ExampleCounts(env: Env)
    requires env.args == map["selector" := 1]
    ensures Run(VIEWS, NODES, env, SIZES).index == 3
    ensures Acyclic(map[]) && EncodedSize(map[], FIELDS, 2, Known(MembersOf(RECORDS, VIEWS), STEPS, 2, env)) == 2
  {
    ExampleRelevant();
    ExamplePaired();
    ExampleMembers();
    ExampleSize(env.args);
    var members := MembersOf(RECORDS, VIEWS);
    RunSteps(VIEWS, NODES, env, SIZES) by {
      RunRelevant(VIEWS, NODES, env, SIZES);
    }
    hide Relevant, StepsOf, Paired, Run, MembersOf, UnionVariants, SizeIn;
    PowersOfTheScalars();
    HeldWhole(U8, 1);
    assert Added(STEPS[0].increment, env, SIZES) == 1;
    assert Plan.WidthFor(ALTERNATIVES, 1) == Some(1);
    assert Added(STEPS[1].increment, env, SIZES) == 2;
    assert TotalAdded(STEPS, 1, env, SIZES) == 1;
    assert Known(members, STEPS, 1, env) == map["S" := 1];
    var known := Known(members, STEPS, 2, env);
    assert known == map["S" := 1];
    assert Ranks(map[], map[]);
    assert MemberSize(map[], FIELDS[1].ty, known) == 1;
    assert EncodedSize(map[], FIELDS, 1, known) == 1;
  }

  /** The accepted wrapper counts 3 bytes for a layout of 2. */
  lemma {:induction false} UnionUnitIgnored(env: Env)
    requires env.args == map["selector" := 1]
    ensures AcyclicRecords(RECORDS) && Accepted(VIEWS, NODES, RECORDS, SIZES)
    ensures Paired(VIEWS, NODES) && PartsDeclared(RECORDS, VIEWS) && |MembersOf(RECORDS, VIEWS)| == |Steps(VIEWS, NODES)|
    ensures var members, steps := MembersOf(RECORDS, VIEWS), Steps(VIEWS, NODES);
            && Acyclic(map[])
            && var fields := Analyzed(VIEWS, NODES, RECORDS, SIZES).value.fields;
            && Run(VIEWS, NODES, env, SIZES).index
               == EncodedSize(map[], fields, |fields|, Known(members, steps, |members|, env)) + 1
  {
    ExampleAccepted();
    ExamplePaired();
    ExampleMembers();
    ExampleCounts(env);
    hide *;
  }
}
