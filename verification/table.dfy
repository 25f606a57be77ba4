/**
  The support table: one row per operator type of the `Onnx` opset, in
  sorted type order, whose support column lists the descriptors of the
  type's supported ranges.
 */
module SupportTable {
  import opened Wrappers
  import opened Text
  import opened Registry
  import opened Versions
  import opened Support
  import opened Descriptors

  const OperatorsUrl: string := OnnxRepository + "/blob/main/docs/Operators.md"

  /** The descriptor of one range, with the support check's verdict. */
  ghost function Describe(accepts: (string, int) -> bool, opType: string, r: VersionRange): string {
    FormatDesc(opType, r.lo, r.hi, Supports(accepts, opType, r.lo, r.hi), r.last)
  }

  /** The descriptors of a type's ranges, one per sorted version, in order. */
  ghost function RangeDescriptors(accepts: (string, int) -> bool, opType: string, sorted: seq<nat>, versionMax: nat): (ds: seq<string>)
    ensures |ds| == |sorted|
  {
    var rs := Ranges(sorted, versionMax);
    seq(|rs|, i requires 0 <= i < |rs| => Describe(accepts, opType, rs[i]))
  }

  /** `filter(d => d.length > 0)`: the non-empty entries, order kept. */
  function NonEmpty(parts: seq<string>): (r: seq<string>)
    ensures forall i :: 0 <= i < |r| ==> r[i] != ""
    ensures forall p :: p in r <==> p in parts && p != ""
    ensures |r| <= |parts|
  {
    if parts == [] then []
    else (if parts[0] == "" then [] else [parts[0]]) + NonEmpty(parts[1..])
  }

  /** The filter distributes over concatenation, so it keeps order and repeats. */
  lemma {:induction false} NonEmptyConcat(a: seq<string>, b: seq<string>)
    ensures NonEmpty(a + b) == NonEmpty(a) + NonEmpty(b)
  {
    if a == [] {
      assert a + b == b;
    } else {
      assert (a + b)[1..] == a[1..] + b;
      NonEmptyConcat(a[1..], b);
    }
  }

  /** Entries that are all non-empty pass the filter unchanged. */
  lemma {:induction false} NonEmptyKeepsAll(parts: seq<string>)
    requires forall i :: 0 <= i < |parts| ==> parts[i] != ""
    ensures NonEmpty(parts) == parts
  {
    if parts != [] {
      NonEmptyKeepsAll(parts[1..]);
    }
  }

  /** The support column of a type: its non-empty descriptors joined by ", ". */
  ghost function Column(accepts: (string, int) -> bool, opType: string, versions: seq<nat>, versionMax: nat): string {
    Join(NonEmpty(RangeDescriptors(accepts, opType, Sort(versions), versionMax)), ", ")
  }

  /** The Markdown row written for a type (line ending left out). */
  function RowLine(opType: string, column: string): string {
    "| [" + opType + "](" + OperatorsUrl + "#" + opType + ") | " + column + " |"
  }

  /** Entry `i` of a type's descriptors formats range `i` with its support verdict. */
  lemma DescriptorAt(accepts: (string, int) -> bool, opType: string, sorted: seq<nat>, versionMax: nat, i: nat)
    requires i < |sorted|
    ensures var last := i == |sorted| - 1;
      var hi := if last then versionMax else sorted[i + 1] as int - 1;
      RangeDescriptors(accepts, opType, sorted, versionMax)[i]
        == FormatDesc(opType, sorted[i], hi, Supports(accepts, opType, sorted[i], hi), last)
  {
    var rs := Ranges(sorted, versionMax);
    var last := i == |sorted| - 1;
    var hi := if last then versionMax else sorted[i + 1] as int - 1;
    assert rs[i] == VersionRange(sorted[i], hi, last);
  }

  /** The descriptors of the first ranges, followed by that of the next one. */
  lemma DescriptorsExtend(accepts: (string, int) -> bool, opType: string, sorted: seq<nat>, versionMax: nat,
                          prefix: seq<string>, d: string)
    requires |prefix| < |sorted|
    requires prefix == RangeDescriptors(accepts, opType, sorted, versionMax)[..|prefix|]
    requires var i := |prefix|;
      var hi := if i == |sorted| - 1 then versionMax else sorted[i + 1] as int - 1;
      d == FormatDesc(opType, sorted[i], hi, Supports(accepts, opType, sorted[i], hi), i == |sorted| - 1)
    ensures prefix + [d] == RangeDescriptors(accepts, opType, sorted, versionMax)[..|prefix| + 1]
  {
    var ds := RangeDescriptors(accepts, opType, sorted, versionMax);
    var i := |prefix|;
    DescriptorAt(accepts, opType, sorted, versionMax, i);
    assert ds[..i + 1] == ds[..i] + [ds[i]];
  }

  /**
    The body of the per-type loop: sort the versions, check and format every
    range, then keep the non-empty descriptors and join them.
   */
  method SupportColumn(accepts: (string, int) -> bool, opType: string, versions: seq<nat>, versionMax: nat)
    returns (column: string)
    ensures column == Column(accepts, opType, versions, versionMax)
  {
    var sorted := Sort(versions);
    ghost var ds := RangeDescriptors(accepts, opType, sorted, versionMax);
    var webgl: seq<string> := [];
    for i := 0 to |sorted|
      invariant |webgl| == i && webgl == ds[..i]
    {
      var last := i == |sorted| - 1;
      var lo: nat := sorted[i];
      var hi: int := if last then versionMax else sorted[i + 1] as int - 1;
      var supported: bool;
      ghost var probed: seq<int>;
      supported, probed := CheckSupport(accepts, opType, lo, hi);
      assert supported == Supports(accepts, opType, lo, hi);
      var d := FormatDesc(opType, lo, hi, supported, last);
      DescriptorsExtend(accepts, opType, sorted, versionMax, webgl, d);
      webgl := webgl + [d];
    }
    assert webgl == ds;
    column := Join(NonEmpty(webgl), ", ");
  }

  /**
    Entry `i` of a type's descriptors is empty exactly when its range is not
    supported; otherwise it reads back as the label of range `i`: from the
    `i`-th sorted version up to just before the next, or open-ended for the last.
   */
  lemma DescriptorMeaning(accepts: (string, int) -> bool, opType: string, sorted: seq<nat>, versionMax: nat, i: nat)
    requires i < |sorted|
    ensures var ds := RangeDescriptors(accepts, opType, sorted, versionMax);
      var hi := if i == |sorted| - 1 then versionMax else sorted[i + 1] as int - 1;
      && (ds[i] == "" <==> !Supports(accepts, opType, sorted[i], hi))
      && (ds[i] != "" ==>
            ParseDesc(opType, ds[i])
              == Some(Label(sorted[i], if i == |sorted| - 1 then Unbounded else Bounded(hi))))
  {
    var rs := Ranges(sorted, versionMax);
    var hi := if i == |sorted| - 1 then versionMax else sorted[i + 1] as int - 1;
    assert rs[i] == VersionRange(sorted[i], hi, i == |sorted| - 1);
    FormatDescRoundTrip(opType, sorted[i], hi, i == |sorted| - 1);
  }

  /**
    A version declared twice leaves an empty range between its copies; the
    support check passes it vacuously, so it is still listed, as `v-(v-1)`.
   */
  lemma RepeatedVersionListed(accepts: (string, int) -> bool, opType: string, sorted: seq<nat>, versionMax: nat, i: nat)
    requires i + 1 < |sorted| && sorted[i] == sorted[i + 1]
    ensures RangeDescriptors(accepts, opType, sorted, versionMax)[i]
         == FormatDesc(opType, sorted[i], sorted[i] as int - 1, true, false) != ""
  {
    var rs := Ranges(sorted, versionMax);
    assert rs[i] == VersionRange(sorted[i], sorted[i + 1] as int - 1, false);
  }

  /** A column splits back into exactly the non-empty descriptors, in range order. */
  lemma ColumnEntries(accepts: (string, int) -> bool, opType: string, versions: seq<nat>, versionMax: nat)
    requires NoComma(opType)
    ensures SplitColumn(Column(accepts, opType, versions, versionMax))
         == NonEmpty(RangeDescriptors(accepts, opType, Sort(versions), versionMax))
  {
    var ds := RangeDescriptors(accepts, opType, Sort(versions), versionMax);
    var rs := Ranges(Sort(versions), versionMax);
    forall i | 0 <= i < |ds|
      ensures NoComma(ds[i])
    {
      FormatDescNoComma(opType, rs[i].lo, rs[i].hi, Supports(accepts, opType, rs[i].lo, rs[i].hi), rs[i].last);
    }
    var kept := NonEmpty(ds);
    forall i | 0 <= i < |kept|
      ensures kept[i] != [] && NoComma(kept[i])
    {
      assert kept[i] in ds;
    }
    JoinSplitRoundTrip(kept);
  }

  // ---------------------------------------------------------------------------
  // Type order.

  /** The least of a non-empty set of names in the default string order. */
  method Least(names: set<string>) returns (m: string)
    requires names != {}
    ensures m in names
    ensures forall n :: n in names && n != m ==> LexLess(m, n)
  {
    m :| m in names;
    var rest := names - {m};
    while rest != {}
      invariant m in names && m !in rest && rest <= names
      invariant forall n :: n in names && n !in rest && n != m ==> LexLess(m, n)
      decreases rest
    {
      var n :| n in rest;
      if LexLess(n, m) {
        forall x | x in names && x !in rest && x != m
          ensures LexLess(n, x)
        {
          LexLessTransitive(n, m, x);
        }
        m := n;
      } else {
        LexLessTotal(n, m);
      }
      rest := rest - {n};
    }
  }

  /**
    `Array.from(keys).sort()`: the names of a set in strictly ascending
    default string order, each exactly once.
   */
  method SortedTypes(names: set<string>) returns (types: seq<string>)
    ensures StrictlyAscending(types)
    ensures forall n :: n in types <==> n in names
  {
    types := [];
    var rest := names;
    while rest != {}
      invariant rest <= names
      invariant forall n :: n in names <==> n in types || n in rest
      invariant forall i, n :: 0 <= i < |types| && n in rest ==> LexLess(types[i], n)
      invariant StrictlyAscending(types)
      decreases rest
    {
      var m := Least(rest);
      types := types + [m];
      rest := rest - {m};
    }
  }

  // ---------------------------------------------------------------------------
  // The whole table.

  datatype Table = Table(opTypes: seq<string>, versionMax: nat, rows: seq<string>)

  /** The run stops at the assertion that `Onnx` is the one opset scanned. */
  datatype TableError = NotSingleOnnxOpset(opsets: set<string>)

  /**
    `t` is the table for the `Onnx` opset `onnx`: its types in sorted order,
    `VERSION_MAX` over all of them, and one row per type with its column.
   */
  ghost predicate Describes(t: Table, onnx: map<string, seq<nat>>, accepts: (string, int) -> bool) {
    && StrictlyAscending(t.opTypes)
    && (forall n :: n in t.opTypes <==> n in onnx)
    && IsVersionMax(onnx, t.versionMax)
    && |t.rows| == |t.opTypes|
    && forall i :: 0 <= i < |t.rows| ==>
         t.opTypes[i] in onnx
         && t.rows[i] == RowLine(t.opTypes[i], Column(accepts, t.opTypes[i], onnx[t.opTypes[i]], t.versionMax))
  }

  /** The table is determined by the registry and the rules alone. */
  lemma DescribesUnique(t1: Table, t2: Table, onnx: map<string, seq<nat>>, accepts: (string, int) -> bool)
    requires Describes(t1, onnx, accepts) && Describes(t2, onnx, accepts)
    ensures t1 == t2
  {
    StrictlyAscendingUnique(t1.opTypes, t2.opTypes);
    VersionMaxUnique(onnx, t1.versionMax, t2.versionMax);
  }

  /** The scan yields exactly the `Onnx` opset iff every declaration names it and there is one. */
  lemma OnlyOnnx(decls: seq<Declaration>)
    ensures RecordedAll(map[], decls).Keys == {"Onnx"}
        <==> decls != [] && forall i :: 0 <= i < |decls| ==> decls[i].opset == "Onnx"
  {
    var keys := RecordedAll(map[], decls).Keys;
    RecordedAllOpsets(map[], decls, "Onnx");
    if decls != [] && forall i :: 0 <= i < |decls| ==> decls[i].opset == "Onnx" {
      forall s | s in keys
        ensures s == "Onnx"
      {
        RecordedAllOpsets(map[], decls, s);
      }
      assert decls[0].opset == "Onnx";
    }
    if keys == {"Onnx"} {
      forall i | 0 <= i < |decls|
        ensures decls[i].opset == "Onnx"
      {
        RecordedAllOpsets(map[], decls, decls[i].opset);
      }
    }
  }

  /** The rows of the table, written type by type in the given order. */
  method WriteRows(accepts: (string, int) -> bool, onnxOpset: map<string, seq<nat>>, opTypes: seq<string>, versionMax: nat)
    returns (rows: seq<string>)
    requires forall i :: 0 <= i < |opTypes| ==> opTypes[i] in onnxOpset
    ensures |rows| == |opTypes|
    ensures forall i :: 0 <= i < |rows| ==>
      rows[i] == RowLine(opTypes[i], Column(accepts, opTypes[i], onnxOpset[opTypes[i]], versionMax))
  {
    rows := [];
    for i := 0 to |opTypes|
      invariant |rows| == i
      invariant forall j :: 0 <= j < i ==>
        rows[j] == RowLine(opTypes[j], Column(accepts, opTypes[j], onnxOpset[opTypes[j]], versionMax))
    {
      var column := SupportColumn(accepts, opTypes[i], onnxOpset[opTypes[i]], versionMax);
      rows := rows + [RowLine(opTypes[i], column)];
    }
  }

  /**
    The whole generator: scan the declarations into the registry, insist on
    the single `Onnx` opset, sort its types, fold `VERSION_MAX`, and write one
    row per type.
   */
  method GenerateTable(decls: seq<Declaration>, accepts: (string, int) -> bool)
    returns (result: Result<Table, TableError>)
    ensures result.Failure? <==> decls == [] || exists i :: 0 <= i < |decls| && decls[i].opset != "Onnx"
    ensures result.Success? ==> "Onnx" in RecordedAll(map[], decls)
    ensures result.Success? ==> Describes(result.value, RecordedAll(map[], decls)["Onnx"], accepts)
    ensures result.Success? ==> forall n :: n in result.value.opTypes <==> Declares(decls, "Onnx", n)
  {
    var registry := new OperatorSets();
    registry.RecordAll(decls);
    OnlyOnnx(decls);
    var opsets := registry.ops.Keys;
    if opsets != {"Onnx"} {
      return Failure(NotSingleOnnxOpset(opsets));
    }
    var onnxOpset := registry.ops["Onnx"];
    var opTypes := SortedTypes(onnxOpset.Keys);
    var versionMax := VersionMax(onnxOpset);
    var rows := WriteRows(accepts, onnxOpset, opTypes, versionMax);
    forall n
      ensures n in opTypes <==> Declares(decls, "Onnx", n)
    {
      ScanContents(decls, "Onnx", n);
    }
    return Success(Table(opTypes, versionMax, rows));
  }

  // ---------------------------------------------------------------------------
  // Worked cases.

  /** Rules that accept every version from 6 on. */
  function FromSix(opType: string, version: int): bool {
    version >= 6
  }

  /** Rules that accept nothing. */
  function NoVersion(opType: string, version: int): bool {
    false
  }

  /** Rules that accept versions 2 to 4 only. */
  function TwoToFour(opType: string, version: int): bool {
    2 <= version <= 4
  }

  /** Relu declared at 6 and 13, newest opset 14, accepted from 6 on: `6-12, 13+`. */
  lemma ReluExample()
    ensures RangeDescriptors(FromSix, "Relu", [6, 13], 14)
         == [FormatDesc("Relu", 6, 12, true, false), FormatDesc("Relu", 13, 14, true, true)]
    ensures VersionText(6, 12, false) == "6-12" && VersionText(13, 14, true) == "13+"
    ensures Column(FromSix, "Relu", [6, 13], 14)
         == FormatDesc("Relu", 6, 12, true, false) + ", " + FormatDesc("Relu", 13, 14, true, true)
  {
    ReluDescriptors();
    assert NatToString(12) == NatToString(1) + [DigitChar(2)];
    ReluColumn();
  }

  lemma ReluDescriptors()
    ensures RangeDescriptors(FromSix, "Relu", [6, 13], 14)
         == [FormatDesc("Relu", 6, 12, true, false), FormatDesc("Relu", 13, 14, true, true)]
  {
    var rs := Ranges([6, 13], 14);
    assert rs[0] == VersionRange(6, 12, false) && rs[1] == VersionRange(13, 14, true);
  }

  lemma ReluColumn()
    ensures Column(FromSix, "Relu", [6, 13], 14)
         == FormatDesc("Relu", 6, 12, true, false) + ", " + FormatDesc("Relu", 13, 14, true, true)
  {
    var d0, d1 := FormatDesc("Relu", 6, 12, true, false), FormatDesc("Relu", 13, 14, true, true);
    ReluDescriptors();
    ColumnOfAscending(FromSix, "Relu", [6, 13], 14);
    NonEmptyKeepsAll([d0, d1]);
    JoinTwo(d0, d1, ", ");
  }

  /** Foo declared at 1 only and accepted nowhere: its column is empty. */
  lemma FooExample()
    ensures NonEmpty(RangeDescriptors(NoVersion, "Foo", [1], 5)) == []
    ensures Column(NoVersion, "Foo", [1], 5) == ""
  {
    var rs := Ranges([1], 5);
    assert rs[0] == VersionRange(1, 5, true);
    assert !NoVersion("Foo", 1);
  }

  /**
    Bar declared at 2, 4 and 7, newest opset 7, accepted at 2 to 4: only
    `2-3` is listed; the last range `7` is unsupported and so left out too.
   */
  lemma BarExample()
    ensures RangeDescriptors(TwoToFour, "Bar", [2, 4, 7], 7) == [FormatDesc("Bar", 2, 3, true, false), "", ""]
    ensures VersionText(2, 3, false) == "2-3"
    ensures Column(TwoToFour, "Bar", [2, 4, 7], 7) == FormatDesc("Bar", 2, 3, true, false)
  {
    BarDescriptors();
    assert NatToString(2) == "2" && IntToString(3) == "3";
    BarColumn();
  }

  lemma BarDescriptors()
    ensures RangeDescriptors(TwoToFour, "Bar", [2, 4, 7], 7) == [FormatDesc("Bar", 2, 3, true, false), "", ""]
  {
    var rs := Ranges([2, 4, 7], 7);
    assert rs[0] == VersionRange(2, 3, false);
    assert rs[1] == VersionRange(4, 6, false);
    assert rs[2] == VersionRange(7, 7, true);
    assert !TwoToFour("Bar", 5);
    assert !TwoToFour("Bar", 7);
  }

  lemma BarColumn()
    ensures Column(TwoToFour, "Bar", [2, 4, 7], 7) == FormatDesc("Bar", 2, 3, true, false)
  {
    BarDescriptors();
    ColumnOfAscending(TwoToFour, "Bar", [2, 4, 7], 7);
    OnlyFirstKept(FormatDesc("Bar", 2, 3, true, false));
  }

  /** For versions already in order, the column joins their descriptors directly. */
  lemma ColumnOfAscending(accepts: (string, int) -> bool, opType: string, versions: seq<nat>, versionMax: nat)
    requires Ascending(versions)
    ensures Column(accepts, opType, versions, versionMax)
         == Join(NonEmpty(RangeDescriptors(accepts, opType, versions, versionMax)), ", ")
  {
    SortAscending(versions);
  }

  lemma OnlyFirstKept(d: string)
    requires d != ""
    ensures Join(NonEmpty([d, "", ""]), ", ") == d
  {
    NonEmptyConcat([d], ["", ""]);
    assert [d, "", ""] == [d] + ["", ""];
  }

  lemma JoinTwo(a: string, b: string, sep: string)
    ensures Join([a, b], sep) == a + sep + b
  {
    assert [a, b][1..] == [b];
  }
}
