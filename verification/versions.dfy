/**
  Version arithmetic of the report: the numeric sort of a type's versions, the
  cut of the sorted versions into contiguous ranges, and `VERSION_MAX`, the
  largest version recorded for any type.
 */
module Versions {

  predicate Ascending(s: seq<nat>) {
    forall i, j :: 0 <= i < j < |s| ==> s[i] <= s[j]
  }

  function Insert(x: nat, s: seq<nat>): (r: seq<nat>)
    requires Ascending(s)
    ensures Ascending(r)
    ensures multiset(r) == multiset(s) + multiset{x}
  {
    if s == [] || x <= s[0] then [x] + s
    else
      var rest := Insert(x, s[1..]);
      assert s == [s[0]] + s[1..];
      BoundedBelow(s[0], x, s[1..], rest);
      [s[0]] + rest
  }

  /** A lower bound of `s` and of `x` bounds any arrangement of them. */
  lemma BoundedBelow(b: nat, x: nat, s: seq<nat>, t: seq<nat>)
    requires b <= x && forall k :: 0 <= k < |s| ==> b <= s[k]
    requires multiset(t) == multiset(s) + multiset{x}
    ensures forall k :: 0 <= k < |t| ==> b <= t[k]
  {
    forall k | 0 <= k < |t|
      ensures b <= t[k]
    {
      assert t[k] in multiset(t);
      if t[k] != x {
        assert t[k] in multiset(s);
        assert t[k] in s;
      }
    }
  }

  /** `versions.sort((a, b) => a - b)`: ascending numeric order, same elements. */
  function Sort(vs: seq<nat>): (r: seq<nat>)
    ensures Ascending(r)
    ensures multiset(r) == multiset(vs)
  {
    if vs == [] then []
    else
      assert vs == [vs[0]] + vs[1..];
      Insert(vs[0], Sort(vs[1..]))
  }

  /** Versions already in ascending order come back unchanged. */
  lemma {:induction false} SortAscending(vs: seq<nat>)
    requires Ascending(vs)
    ensures Sort(vs) == vs
  {
    if vs != [] {
      AscendingTail(vs);
      SortAscending(vs[1..]);
      assert vs == [vs[0]] + vs[1..];
    }
  }

  /**
    One range of a type's support column: the versions `lo..hi`, both ends
    included, and whether it is the type's last range.
   */
  datatype VersionRange = VersionRange(lo: nat, hi: int, last: bool)

  /**
    The ranges cut from a type's sorted versions: each range starts at a
    declared version and ends just before the next one; the last one ends at
    `versionMax`.
   */
  function Ranges(vs: seq<nat>, versionMax: nat): (rs: seq<VersionRange>)
    ensures |rs| == |vs|
  {
    seq(|vs|, i requires 0 <= i < |vs| =>
      if i == |vs| - 1 then VersionRange(vs[i], versionMax, true)
      else VersionRange(vs[i], vs[i + 1] as int - 1, false))
  }

  /**
    `k + 1` versions give `k + 1` ranges: range `i` starts at version `i`, each
    range but the last ends one below the next version, where the next range
    starts, and the last one, alone flagged last, ends at `versionMax`.
   */
  lemma RangesShape(vs: seq<nat>, versionMax: nat)
    ensures |Ranges(vs, versionMax)| == |vs|
    ensures forall i :: 0 <= i < |vs| ==>
      Ranges(vs, versionMax)[i].lo == vs[i] && (Ranges(vs, versionMax)[i].last <==> i == |vs| - 1)
    ensures forall i, j :: 0 <= i && j == i + 1 < |vs| ==>
      && Ranges(vs, versionMax)[i].hi == vs[j] as int - 1
      && Ranges(vs, versionMax)[j].lo == Ranges(vs, versionMax)[i].hi + 1
    ensures |vs| > 0 ==> Ranges(vs, versionMax)[|vs| - 1].hi == versionMax
  {
  }

  predicate InRange(r: VersionRange, v: int) {
    r.lo <= v <= r.hi
  }

  /**
    The ranges of sorted versions tile `[vs[0], versionMax]`: every version in
    it lies in some range ...
   */
  lemma {:induction false} RangesCover(vs: seq<nat>, versionMax: nat, v: int)
    requires Ascending(vs) && |vs| > 0
    requires vs[0] <= v <= versionMax
    ensures exists i :: 0 <= i < |vs| && InRange(Ranges(vs, versionMax)[i], v)
  {
    if |vs| == 1 || v < vs[1] {
      assert InRange(Ranges(vs, versionMax)[0], v);
    } else {
      AscendingTail(vs);
      RangesCover(vs[1..], versionMax, v);
      var k :| 0 <= k < |vs| - 1 && InRange(Ranges(vs[1..], versionMax)[k], v);
      RangesShift(vs, versionMax, k);
    }
  }

  lemma AscendingTail(vs: seq<nat>)
    requires Ascending(vs) && |vs| > 0
    ensures Ascending(vs[1..]) && (|vs| > 1 ==> vs[1..][0] == vs[1])
  {
    var tail := vs[1..];
    forall a, b | 0 <= a < b < |tail|
      ensures tail[a] <= tail[b]
    {
      assert tail[a] == vs[a + 1] && tail[b] == vs[b + 1];
    }
  }

  /** Past the first, the ranges of `vs` are those of its tail. */
  lemma RangesShift(vs: seq<nat>, versionMax: nat, k: nat)
    requires k + 1 < |vs|
    ensures Ranges(vs, versionMax)[k + 1] == Ranges(vs[1..], versionMax)[k]
  {
    var rs, ts := Ranges(vs, versionMax), Ranges(vs[1..], versionMax);
    assert rs[k + 1].lo == vs[k + 1] == ts[k].lo;
    assert rs[k + 1].last == ts[k].last;
    if k + 2 < |vs| {
      assert rs[k + 1].hi == vs[k + 2] as int - 1 == ts[k].hi;
    }
  }

  /** ... and in no more than one. */
  lemma RangesDisjoint(vs: seq<nat>, versionMax: nat, v: int, i: nat, j: nat)
    requires Ascending(vs)
    requires i < j < |vs|
    ensures !(InRange(Ranges(vs, versionMax)[i], v) && InRange(Ranges(vs, versionMax)[j], v))
  {
    var rs := Ranges(vs, versionMax);
    assert rs[i].hi == vs[i + 1] as int - 1;
    assert vs[i + 1] <= vs[j] == rs[j].lo;
  }

  /** A repeated version yields an empty range between its two occurrences. */
  lemma RepeatedVersionEmptyRange(vs: seq<nat>, versionMax: nat, i: nat)
    requires i + 1 < |vs| && vs[i] == vs[i + 1]
    ensures Ranges(vs, versionMax)[i].lo > Ranges(vs, versionMax)[i].hi
  {
  }

  /** With `versionMax` at least every version, the last range is never empty. */
  lemma LastRangeNonEmpty(vs: seq<nat>, versionMax: nat)
    requires |vs| > 0
    requires forall k :: 0 <= k < |vs| ==> vs[k] <= versionMax
    ensures Ranges(vs, versionMax)[|vs| - 1].lo <= Ranges(vs, versionMax)[|vs| - 1].hi
  {
  }

  /** `m` is the largest version in the table, or 0 if it holds none. */
  ghost predicate IsVersionMax(table: map<string, seq<nat>>, m: nat) {
    && (forall t, i :: t in table && 0 <= i < |table[t]| ==> table[t][i] <= m)
    && (m == 0 || exists t, i :: t in table && 0 <= i < |table[t]| && table[t][i] == m)
  }

  /** There is one such maximum at most. */
  lemma VersionMaxUnique(table: map<string, seq<nat>>, m1: nat, m2: nat)
    requires IsVersionMax(table, m1) && IsVersionMax(table, m2)
    ensures m1 == m2
  {
  }

  /** The fold of `Math.max` over every version list, starting from 0. */
  method VersionMax(table: map<string, seq<nat>>) returns (versionMax: nat)
    ensures IsVersionMax(table, versionMax)
  {
    versionMax := 0;
    var pending := table.Keys;
    while pending != {}
      invariant pending <= table.Keys
      invariant forall t, i :: t in table && t !in pending && 0 <= i < |table[t]| ==> table[t][i] <= versionMax
      invariant versionMax == 0 || exists t, i :: t in table && 0 <= i < |table[t]| && table[t][i] == versionMax
      decreases pending
    {
      var t :| t in pending;
      var versions := table[t];
      for i := 0 to |versions|
        invariant forall k :: 0 <= k < i ==> versions[k] <= versionMax
        invariant forall t', k :: t' in table && t' !in pending && 0 <= k < |table[t']| ==> table[t'][k] <= versionMax
        invariant versionMax == 0 || exists t', k :: t' in table && 0 <= k < |table[t']| && table[t'][k] == versionMax
      {
        if versions[i] > versionMax {
          versionMax := versions[i];
        }
      }
      pending := pending - {t};
    }
  }
}
