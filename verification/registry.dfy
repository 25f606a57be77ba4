/**
  The operator registry: opset name -> operator type -> versions, filled one
  parsed declaration `(opset, version, opType)` at a time.  The nested maps and
  version lists of the source are mutable objects; here the registry object
  holds them as values and writes each changed level back.
 */
module Registry {

  /** One `ONNX_OPERATOR_SET_SCHEMA_CLASS_NAME(opset, version, opType)` declaration. */
  datatype Declaration = Declaration(opset: string, version: nat, opType: string)

  type OpsetTable = map<string, map<string, seq<nat>>>

  /** The versions recorded for `(opset, opType)`; empty when there is no entry. */
  function Lookup(ops: OpsetTable, opset: string, opType: string): seq<nat> {
    if opset in ops && opType in ops[opset] then ops[opset][opType] else []
  }

  /** Every list present in the table holds at least one version. */
  ghost predicate NoEmptyLists(ops: OpsetTable) {
    forall opset, opType :: opset in ops && opType in ops[opset] ==> ops[opset][opType] != []
  }

  /** The table after one declaration: its version appended to its pair's list. */
  function Recorded(ops: OpsetTable, d: Declaration): OpsetTable {
    var types := if d.opset in ops then ops[d.opset] else map[];
    ops[d.opset := types[d.opType := Lookup(ops, d.opset, d.opType) + [d.version]]]
  }

  /** The table after a whole scan, declarations taken in order. */
  function RecordedAll(ops: OpsetTable, decls: seq<Declaration>): OpsetTable {
    if decls == [] then ops
    else Recorded(RecordedAll(ops, decls[..|decls| - 1]), decls[|decls| - 1])
  }

  /** The versions of the declarations for `(opset, opType)`, in declaration order. */
  function VersionsFor(decls: seq<Declaration>, opset: string, opType: string): seq<nat> {
    if decls == [] then []
    else
      var d := decls[|decls| - 1];
      VersionsFor(decls[..|decls| - 1], opset, opType)
        + (if d.opset == opset && d.opType == opType then [d.version] else [])
  }

  ghost predicate Declares(decls: seq<Declaration>, opset: string, opType: string) {
    exists i :: 0 <= i < |decls| && decls[i].opset == opset && decls[i].opType == opType
  }

  /** A declaration appends to its own list and leaves every other list alone. */
  lemma RecordedLookup(ops: OpsetTable, d: Declaration, opset: string, opType: string)
    ensures Lookup(Recorded(ops, d), opset, opType)
         == Lookup(ops, opset, opType) + (if d.opset == opset && d.opType == opType then [d.version] else [])
    ensures opset in Recorded(ops, d) <==> opset in ops || opset == d.opset
    ensures (opset in Recorded(ops, d) && opType in Recorded(ops, d)[opset])
        <==> (opset in ops && opType in ops[opset]) || (opset == d.opset && opType == d.opType)
  {
  }

  /**
    After a scan each list is the old list followed by the versions of the
    matching declarations in order, repeats included.
   */
  lemma {:induction false} RecordedAllLookup(ops: OpsetTable, decls: seq<Declaration>, opset: string, opType: string)
    ensures Lookup(RecordedAll(ops, decls), opset, opType) == Lookup(ops, opset, opType) + VersionsFor(decls, opset, opType)
  {
    if decls != [] {
      var init := decls[..|decls| - 1];
      RecordedAllLookup(ops, init, opset, opType);
      RecordedLookup(RecordedAll(ops, init), decls[|decls| - 1], opset, opType);
    }
  }

  /** A list exists after a scan exactly when it existed before or some declaration names its pair. */
  lemma {:induction false} RecordedAllPresence(ops: OpsetTable, decls: seq<Declaration>, opset: string, opType: string)
    ensures var r := RecordedAll(ops, decls);
      (opset in r && opType in r[opset]) <==> (opset in ops && opType in ops[opset]) || Declares(decls, opset, opType)
  {
    if decls != [] {
      var init := decls[..|decls| - 1];
      var d := decls[|decls| - 1];
      RecordedAllPresence(ops, init, opset, opType);
      RecordedLookup(RecordedAll(ops, init), d, opset, opType);
      if Declares(decls, opset, opType) && !Declares(init, opset, opType) {
        var i :| 0 <= i < |decls| && decls[i].opset == opset && decls[i].opType == opType;
        assert i == |decls| - 1;
      }
      if Declares(init, opset, opType) {
        var i :| 0 <= i < |init| && init[i].opset == opset && init[i].opType == opType;
        assert decls[i] == init[i];
      }
      if d.opset == opset && d.opType == opType {
        assert Declares(decls, opset, opType);
      }
    }
  }

  /** An opset is in the table exactly when it was before or some declaration names it. */
  lemma {:induction false} RecordedAllOpsets(ops: OpsetTable, decls: seq<Declaration>, opset: string)
    ensures opset in RecordedAll(ops, decls)
        <==> opset in ops || exists i :: 0 <= i < |decls| && decls[i].opset == opset
  {
    if decls != [] {
      var init := decls[..|decls| - 1];
      RecordedAllOpsets(ops, init, opset);
      if exists i :: 0 <= i < |init| && init[i].opset == opset {
        var i :| 0 <= i < |init| && init[i].opset == opset;
        assert decls[i] == init[i];
      }
    }
  }

  /** A scan never leaves an empty version list behind. */
  lemma {:induction false} RecordedAllNoEmptyLists(ops: OpsetTable, decls: seq<Declaration>)
    requires NoEmptyLists(ops)
    ensures NoEmptyLists(RecordedAll(ops, decls))
  {
    if decls != [] {
      var init := decls[..|decls| - 1];
      RecordedAllNoEmptyLists(ops, init);
      var before := RecordedAll(ops, init);
      var after := RecordedAll(ops, decls);
      forall opset, opType | opset in after && opType in after[opset]
        ensures after[opset][opType] != []
      {
        RecordedLookup(before, decls[|decls| - 1], opset, opType);
      }
    }
  }

  /**
    Scanning from an empty registry: each list present holds exactly the
    versions declared for its pair, one per declaration, so it is never empty.
   */
  lemma ScanContents(decls: seq<Declaration>, opset: string, opType: string)
    ensures var r := RecordedAll(map[], decls);
      (opset in r && opType in r[opset]) <==> Declares(decls, opset, opType)
    ensures var r := RecordedAll(map[], decls);
      opset in r && opType in r[opset] ==> r[opset][opType] == VersionsFor(decls, opset, opType) != []
  {
    RecordedAllLookup(map[], decls, opset, opType);
    RecordedAllPresence(map[], decls, opset, opType);
    RecordedAllNoEmptyLists(map[], decls);
  }

  /** The registry being filled: the source's module-level `ops` map. */
  class OperatorSets {
    var ops: OpsetTable

    ghost predicate Valid()
      reads this
    {
      NoEmptyLists(ops)
    }

    constructor ()
      ensures Valid() && ops == map[]
    {
      ops := map[];
    }

    /** Looks up (or creates) the opset's map and the type's list, then appends. */
    method Record(d: Declaration)
      requires Valid()
      modifies this
      ensures Valid()
      ensures ops == Recorded(old(ops), d)
    {
      ghost var types := if d.opset in ops then ops[d.opset] else map[];
      var currentSet: map<string, seq<nat>>;
      if d.opset in ops {
        currentSet := ops[d.opset];
      } else {
        currentSet := map[];
        ops := ops[d.opset := currentSet];
      }
      var currentOp: seq<nat>;
      if d.opType in currentSet {
        currentOp := currentSet[d.opType];
      } else {
        currentOp := [];
        currentSet := currentSet[d.opType := currentOp];
        ops := ops[d.opset := currentSet];
      }
      currentOp := currentOp + [d.version];
      ops := ops[d.opset := currentSet[d.opType := currentOp]];
      assert currentSet[d.opType := currentOp] == types[d.opType := currentOp];
      assert ops == old(ops)[d.opset := types[d.opType := currentOp]];
      forall opset, opType | opset in ops && opType in ops[opset]
        ensures ops[opset][opType] != []
      {
        RecordedLookup(old(ops), d, opset, opType);
      }
    }

    /** The scan over the parsed declarations, one `Record` per declaration. */
    method RecordAll(decls: seq<Declaration>)
      requires Valid()
      modifies this
      ensures Valid()
      ensures ops == RecordedAll(old(ops), decls)
    {
      for i := 0 to |decls|
        invariant Valid()
        invariant ops == RecordedAll(old(ops), decls[..i])
      {
        assert decls[..i + 1][..i] == decls[..i];
        Record(decls[i]);
      }
      assert decls[..|decls|] == decls;
    }
  }
}
