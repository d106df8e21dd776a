/** Whether the recursion over a table of structures ends
    (crates/stm32wb-catalog/src/layout.rs). */
module Cycles {
  import opened Layout

  /** Every structure directly in `name`, other than itself, is undefined or in `done`. */
  predicate Ready(structs: Structs, name: string, done: set<string>)
    requires name in structs
  {
    forall k | 0 <= k < |structs[name]| :: HoldsDone(structs, name, structs[name][k].ty, done)
  }

  predicate HoldsDone(structs: Structs, name: string, ty: FieldType, done: set<string>) {
    ty == StructField(name) ||
    match ty.Structure()
    case Some(inner) => inner in structs ==> inner in done
    case None => true
  }

  /** The structures nested at most `rounds` deep. */
  function Settled(structs: Structs, rounds: nat): (names: set<string>)
    ensures names <= structs.Keys
  {
    if rounds == 0 then {} else
    var before := Settled(structs, rounds - 1);
    set name | name in structs && Ready(structs, name, before)
  }

  lemma {:induction false} SettledGrows(structs: Structs, rounds: nat)
    ensures Settled(structs, rounds) <= Settled(structs, rounds + 1)
  {
    if rounds > 0 {
      SettledGrows(structs, rounds - 1);
      forall name | name in Settled(structs, rounds) ensures name in Settled(structs, rounds + 1) {
        ReadyMore(structs, name, Settled(structs, rounds - 1), Settled(structs, rounds));
      }
    }
  }

  lemma {:induction false} ReadyMore(structs: Structs, name: string, fewer: set<string>, more: set<string>)
    requires name in structs && Ready(structs, name, fewer) && fewer <= more
    ensures Ready(structs, name, more)
  {
    forall k | 0 <= k < |structs[name]| ensures HoldsDone(structs, name, structs[name][k].ty, more) {
      assert HoldsDone(structs, name, structs[name][k].ty, fewer);
    }
  }

  // ----- settled structures are ranked

  /** The first round in which a structure is settled. */
  function Round(structs: Structs, name: string, rounds: nat): (round: nat)
    requires name in Settled(structs, rounds)
    ensures 0 < round <= rounds && name in Settled(structs, round) && name !in Settled(structs, round - 1)
  {
    if name in Settled(structs, rounds - 1) then Round(structs, name, rounds - 1) else rounds
  }

  lemma {:induction false} SettledBetween(structs: Structs, a: nat, b: nat)
    requires a <= b
    ensures Settled(structs, a) <= Settled(structs, b)
    decreases b
  {
    if a < b {
      SettledBetween(structs, a, b - 1);
      SettledGrows(structs, b - 1);
    }
  }

  lemma {:induction false} RoundAtMost(structs: Structs, name: string, rounds: nat, round: nat)
    requires name in Settled(structs, rounds) && name in Settled(structs, round)
    ensures Round(structs, name, rounds) <= round
  {
    hide *;
    var first := Round(structs, name, rounds) - 1;
    if round <= first {
      SettledBetween(structs, round, first);
    }
  }

  lemma {:induction false} SettledRanked(structs: Structs, rounds: nat)
    requires Settled(structs, rounds) == structs.Keys
    ensures Acyclic(structs)
  {
    var rank: map<string, nat> := map name | name in structs :: Round(structs, name, rounds);
    forall name, k | name in structs && 0 <= k < |structs[name]|
      ensures HoldsLower(structs, rank, name, structs[name][k].ty)
    {
      RankedField(structs, rounds, rank, name, k);
    }
    assert Ranks(structs, rank);
  }

  lemma {:induction false} RankedField(structs: Structs, rounds: nat, rank: map<string, nat>, name: string, k: nat)
    requires Settled(structs, rounds) == structs.Keys == rank.Keys
    requires forall name | name in structs :: rank[name] == Round(structs, name, rounds)
    requires name in structs && k < |structs[name]|
    ensures HoldsLower(structs, rank, name, structs[name][k].ty)
  {
    hide Settled, Ready, Round;
    var ty := structs[name][k].ty;
    ReadyInRound(structs, name, rounds, k);
    if ty != StructField(name) && ty.Structure().Some? && ty.Structure().value in structs {
      RoundAtMost(structs, ty.Structure().value, rounds, Round(structs, name, rounds) - 1);
    }
  }

  lemma {:induction false} ReadyInRound(structs: Structs, name: string, rounds: nat, k: nat)
    requires name in structs && name in Settled(structs, rounds) && k < |structs[name]|
    ensures HoldsDone(structs, name, structs[name][k].ty, Settled(structs, Round(structs, name, rounds) - 1))
  {
    var round := Round(structs, name, rounds);
    hide Round, HoldsDone;
    assert name in Settled(structs, round);
    assert Ready(structs, name, Settled(structs, round - 1));
  }

  // ----- ranked structures settle

  /** A structure of lowest rank among those not settled is settled next. */
  lemma {:induction false} LowestSettles(structs: Structs, rank: map<string, nat>, rounds: nat, name: string)
    requires Ranks(structs, rank) && name in structs
    requires structs.Keys <= rank.Keys
    requires forall other | other in structs && rank[other] < rank[name] :: other in Settled(structs, rounds)
    ensures name in Settled(structs, rounds + 1)
  {
    forall k | 0 <= k < |structs[name]| ensures HoldsDone(structs, name, structs[name][k].ty, Settled(structs, rounds)) {
      assert HoldsLower(structs, rank, name, structs[name][k].ty);
    }
  }

  lemma {:induction false} Lowest(names: set<string>, rank: map<string, nat>) returns (name: string)
    requires names != {} && names <= rank.Keys
    ensures name in names && forall other | other in names :: rank[name] <= rank[other]
  {
    var first :| first in names;
    name := first;
    var rest := names - {first};
    if rest != {} {
      var other := Lowest(rest, rank);
      name := if rank[other] < rank[first] then other else first;
    }
    assert names == rest + {first};
  }

  /** Every round settles another structure, until all are. */
  lemma {:induction false} AnotherSettles(structs: Structs, rank: map<string, nat>, rounds: nat)
    requires Ranks(structs, rank) && Settled(structs, rounds) != structs.Keys
    ensures |Settled(structs, rounds)| < |Settled(structs, rounds + 1)|
  {
    hide *;
    SettledGrows(structs, rounds);
    RankedKeys(structs, rank);
    var open := structs.Keys - Settled(structs, rounds);
    Remainder(structs.Keys, Settled(structs, rounds));
    var name := Lowest(open, rank);
    LowestSettles(structs, rank, rounds, name);
    Smaller(Settled(structs, rounds), Settled(structs, rounds + 1), name);
  }

  lemma {:induction false} AllSettle(structs: Structs, rank: map<string, nat>, rounds: nat)
    requires Ranks(structs, rank)
    ensures Settled(structs, rounds) == structs.Keys || |Settled(structs, rounds)| >= rounds
  {
    hide *;
    if rounds > 0 {
      AllSettle(structs, rank, rounds - 1);
      if Settled(structs, rounds - 1) == structs.Keys {
        SettledGrows(structs, rounds - 1);
      } else {
        AnotherSettles(structs, rank, rounds - 1);
      }
    }
  }

  lemma {:induction false} Remainder(all: set<string>, some: set<string>)
    requires some <= all
    ensures all - some == {} ==> all == some
  {
    if all - some == {} {
      forall name | name in all ensures name in some {
        assert name !in all - some;
      }
    }
  }

  lemma {:induction false} RankedKeys(structs: Structs, rank: map<string, nat>)
    requires Ranks(structs, rank)
    ensures structs.Keys <= rank.Keys
  {
  }

  lemma {:induction false} Smaller(a: set<string>, b: set<string>, name: string)
    requires a <= b && name in b && name !in a
    ensures |a| < |b|
  {
    Subset(a, b - {name});
  }

  lemma {:induction false} Subset(a: set<string>, b: set<string>)
    requires a <= b
    ensures |a| <= |b|
    ensures |a| == |b| ==> a == b
  {
    if x :| x in a {
      Subset(a - {x}, b - {x});
    }
  }

  /** Whether every structure settles in as many rounds as there are structures: the
      computable form of the recursion's ending. */
  predicate IsAcyclic(structs: Structs): (acyclic: bool)
    ensures acyclic <==> Acyclic(structs)
  {
    AcyclicSettles(structs);
    Settled(structs, |structs|) == structs.Keys
  }

  lemma {:induction false} AcyclicSettles(structs: Structs)
    ensures Settled(structs, |structs|) == structs.Keys <==> Acyclic(structs)
  {
    if Settled(structs, |structs|) == structs.Keys {
      SettledRanked(structs, |structs|);
    }
    if Acyclic(structs) {
      var rank := RankOf(structs);
      AllSettle(structs, rank, |structs|);
      Subset(Settled(structs, |structs|), structs.Keys);
    }
  }
}
