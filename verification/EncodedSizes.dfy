/** The encoded size of a layout is what the direct call reads of it. */
module EncodedSizes {
  import opened Bytes
  import opened Layout
  import opened DirectCall
  import opened WrapperRun

  /** A member read takes its encoded size, under the integers read before it. */
  lemma {:induction false} ReadTakesSize(structs: Structs, ty: FieldType, known: map<string, int>, rest: seq<byte>)
    requires Acyclic(structs) && ReadMember(structs, ty, known, rest).Some?
    ensures |rest| == |ReadMember(structs, ty, known, rest).value.rest| + MemberSize(structs, ty, known)
  {
    hide StructWidth, Split, Power;
  }

  /** The integers read for the members from the `k`th, after `known`. */
  function LearnedFrom(fields: seq<Field>, k: nat, known: map<string, int>, args: seq<Arg>): map<string, int>
    requires k <= |fields| && |args| == |fields| - k
    decreases |fields| - k
  {
    if k == |fields| then known else LearnedFrom(fields, k + 1, Learn(known, fields[k], args[0]), args[1..])
  }

  /** What is learned later is not what was known, as names are distinct. */
  lemma {:induction false} LearnedKeeps(structs: Structs, fields: seq<Field>, k: nat, known: map<string, int>,
                                        args: seq<Arg>, i: nat)
    requires Acyclic(structs) && ValidLayout(structs, fields)
    requires i < k <= |fields| && |args| == |fields| - k && fields[i].name in known
    ensures fields[i].name in LearnedFrom(fields, k, known, args)
    ensures LearnedFrom(fields, k, known, args)[fields[i].name] == known[fields[i].name]
    decreases |fields| - k
  {
    if k < |fields| {
      assert ValidMember(structs, fields, k);
      LearnedKeeps(structs, fields, k + 1, Learn(known, fields[k], args[0]), args[1..], i);
    }
  }

  /** A member's size depends on nothing else than the integer it refers to. */
  lemma {:induction false} SizeDependsOnReference(structs: Structs, ty: FieldType, a: map<string, int>,
      b: map<string, int>)
    requires Acyclic(structs)
    requires ty.Reference().Some? ==>
               ty.Reference().value in a && ty.Reference().value in b && a[ty.Reference().value] == b[ty.Reference().value]
    ensures MemberSize(structs, ty, a) == MemberSize(structs, ty, b)
  {
    hide StructWidth;
  }

  lemma {:induction false} ReferenceKnown(structs: Structs, fields: seq<Field>, k: nat, known: map<string, int>,
                                          rest: seq<byte>, args: seq<Arg>)
    requires Acyclic(structs) && ValidLayout(structs, fields) && k < |fields| && |args| == |fields| - k
    requires ReadMember(structs, fields[k].ty, known, rest).Some?
    ensures MemberSize(structs, fields[k].ty, known) == MemberSize(structs, fields[k].ty, LearnedFrom(fields, k, known, args))
  {
    var reference := fields[k].ty.Reference();
    if reference.Some? {
      assert ValidMember(structs, fields, k);
      var i :| 0 <= i < k && fields[i].name == reference.value;
      assert reference.value in known;
      LearnedKeeps(structs, fields, k, known, args, i);
    }
    SizeDependsOnReference(structs, fields[k].ty, known, LearnedFrom(fields, k, known, args));
  }

  /** The direct call reads exactly the encoded size of the layout under the integers it
      reads, from any buffer it accepts. */
  lemma {:induction false} ReadsEncodedSize(structs: Structs, fields: seq<Field>, k: nat, known: map<string, int>,
                                            rest: seq<byte>)
    requires Acyclic(structs) && ValidLayout(structs, fields) && k <= |fields|
    requires ReadFrom(structs, fields, k, known, rest).Some?
    ensures var read := ReadFrom(structs, fields, k, known, rest).value;
            var learned := LearnedFrom(fields, k, known, read.value);
            |rest| - |read.rest| == EncodedSize(structs, fields, |fields|, learned) - EncodedSize(structs, fields, k, learned)
    decreases |fields| - k
  {
    if k < |fields| {
      hide ReadMember, MemberSize, ValidLayout, Acyclic;
      var read := ReadFrom(structs, fields, k, known, rest).value;
      var first := ReadMember(structs, fields[k].ty, known, rest).value;
      var now := Learn(known, fields[k], first.value);
      ReadTakesSize(structs, fields[k].ty, known, rest);
      ReadsEncodedSize(structs, fields, k + 1, now, first.rest);
      assert read.value[1..] == ReadFrom(structs, fields, k + 1, now, first.rest).value.value;
      ReferenceKnown(structs, fields, k, known, rest, read.value);
    }
  }
}
