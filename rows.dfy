/** Row placement (make_diagram.rb:77-90) and row normalisation
    (make_diagram.rb:101-103). Within one layer each job takes the first row
    not yet used in that layer, probing anchor+0, anchor-0, anchor+1,
    anchor-1, ... from an anchor row taken from its dependencies. */
module Rows {
  import opened Collections
  import opened Jobs

  function Abs(x: int): nat {
    if x < 0 then -x else x
  }

  /** The i-th row of the probe order around `anchor`: the source tries
      anchor + offset, then anchor - offset, for offset = 0, 1, 2, ... */
  function Probe(anchor: int, i: nat): int {
    if i % 2 == 0 then anchor + i / 2 else anchor - i / 2
  }

  /** The position of `row` in the probe order around `anchor` (its first
      position: at offset 0 both probes are the anchor itself). */
  function ProbeIndex(anchor: int, row: int): nat {
    if row >= anchor then 2 * (row - anchor) else 2 * (anchor - row) + 1
  }

  /** `row` is the first row of the probe order around `anchor` that is not
      in `used`: every row strictly closer to the anchor is used, and when the
      row lies below the anchor, its mirror image above is used too. */
  ghost predicate FirstFreeRow(anchor: int, used: set<int>, row: int) {
    && row !in used
    && (forall v :: anchor - Abs(row - anchor) < v < anchor + Abs(row - anchor) ==> v in used)
    && (row < anchor ==> anchor + Abs(row - anchor) in used)
  }

  /** FirstFreeRow is exactly "the first free row in the probe order". */
  lemma {:induction false} FirstFreeRowIsFirstInProbeOrder(anchor: int, used: set<int>, row: int)
    ensures Probe(anchor, ProbeIndex(anchor, row)) == row
    ensures FirstFreeRow(anchor, used, row) <==>
              row !in used && forall i :: 0 <= i < ProbeIndex(anchor, row) ==> Probe(anchor, i) in used
  {
    var n := ProbeIndex(anchor, row);
    var k := Abs(row - anchor);
    if FirstFreeRow(anchor, used, row) {
      forall i | 0 <= i < n ensures Probe(anchor, i) in used {
        if i / 2 < k {
          assert anchor - k < Probe(anchor, i) < anchor + k;
        } else {
          assert i == 2 * k && row < anchor;
        }
      }
    }
    if row !in used && forall i :: 0 <= i < n ==> Probe(anchor, i) in used {
      forall v | anchor - k < v < anchor + k ensures v in used {
        if v >= anchor {
          assert Probe(anchor, 2 * (v - anchor)) == v;
        } else {
          assert Probe(anchor, 2 * (anchor - v) + 1) == v;
        }
      }
      if row < anchor {
        assert Probe(anchor, 2 * k) == anchor + k;
      }
    }
  }

  /** At most one row is the first free one. */
  lemma FirstFreeRowUnique(anchor: int, used: set<int>, r1: int, r2: int)
    requires FirstFreeRow(anchor, used, r1) && FirstFreeRow(anchor, used, r2)
    ensures r1 == r2
  {
  }

  /** Shifting the anchor, the used rows and the row by the same amount keeps
      the row the first free one. */
  lemma FirstFreeRowShift(anchor: int, used: set<int>, row: int, c: int)
    requires FirstFreeRow(anchor, used, row)
    ensures FirstFreeRow(anchor + c, set v | v in used :: v + c, row + c)
  {
    var used' := set v | v in used :: v + c;
    var k := Abs(row - anchor);
    assert Abs(row + c - (anchor + c)) == k;
    forall v | anchor + c - k < v < anchor + c + k ensures v in used' {
      assert v - c in used;
    }
    if row < anchor {
      assert anchor + k in used;
    }
  }

  /** The row search of lines 80-88 as a function: probe anchor + offset,
      then anchor - offset, from `offset` on, for a row not in `used`. */
  function FreeRowFrom(anchor: int, used: seq<int>, offset: nat): (row: int)
    requires forall v :: anchor - offset < v < anchor + offset ==> v in used
    ensures FirstFreeRow(anchor, Elements(used), row)
    decreases |used| - offset
  {
    if anchor + offset !in used then anchor + offset
    else if anchor - offset !in used then anchor - offset
    else
      WindowBound(anchor, offset, Elements(used));
      ElementsBound(used);
      FreeRowFrom(anchor, used, offset + 1)
  }

  /** The row the search of lines 80-88 picks around `anchor`. */
  function FreeRow(anchor: int, used: seq<int>): (row: int)
    ensures FirstFreeRow(anchor, Elements(used), row)
  {
    FreeRowFrom(anchor, used, 0)
  }

  /** The row search of lines 80-88: probe outward from `anchor` until a row
      not in `usedRows` (the layer's `tops_used`) is found. */
  method FindRow(anchor: int, usedRows: seq<int>) returns (row: int)
    ensures row == FreeRow(anchor, usedRows)
    ensures row !in usedRows && FirstFreeRow(anchor, Elements(usedRows), row)
  {
    var offset: nat := 0;
    while true
      invariant forall v :: anchor - offset < v < anchor + offset ==> v in usedRows
      invariant FreeRowFrom(anchor, usedRows, offset) == FreeRow(anchor, usedRows)
      decreases |usedRows| - offset
    {
      if anchor + offset !in usedRows {
        return anchor + offset;
      }
      if anchor - offset !in usedRows {
        return anchor - offset;
      }
      WindowBound(anchor, offset, Elements(usedRows));
      ElementsBound(usedRows);
      offset := offset + 1;
    }
  }

  /** The anchor of line 82: the row of the LAST listed dependency that has a
      row, and 0 when none has. */
  function AnchorOf(deps: seq<JobId>, top: map<JobId, int>): int {
    if deps == [] then 0
    else if deps[|deps| - 1] in top then top[deps[|deps| - 1]]
    else AnchorOf(deps[..|deps| - 1], top)
  }

  /** AnchorOf is the row of the last dependency with a row, 0 if there is none. */
  lemma {:induction false} AnchorOfIsLastPlaced(deps: seq<JobId>, top: map<JobId, int>)
    ensures (forall k :: 0 <= k < |deps| ==> deps[k] !in top) ==> AnchorOf(deps, top) == 0
    ensures forall k :: (0 <= k < |deps| && deps[k] in top &&
                         (forall k' :: k < k' < |deps| ==> deps[k'] !in top)) ==> AnchorOf(deps, top) == top[deps[k]]
  {
    if deps != [] && deps[|deps| - 1] !in top {
      var init := deps[..|deps| - 1];
      AnchorOfIsLastPlaced(init, top);
      assert forall k :: 0 <= k < |init| ==> init[k] == deps[k];
    }
  }

  /** The anchor depends only on the rows of the dependencies. */
  lemma {:induction false} AnchorOfFrame(deps: seq<JobId>, top1: map<JobId, int>, top2: map<JobId, int>)
    requires forall d :: d in deps ==> (d in top1 <==> d in top2) && (d in top1 ==> top1[d] == top2[d])
    ensures AnchorOf(deps, top1) == AnchorOf(deps, top2)
  {
    if deps != [] {
      var init := deps[..|deps| - 1];
      assert forall d :: d in init ==> d in deps;
      AnchorOfFrame(init, top1, top2);
    }
  }

  /** Line 82: the loop over the dependencies overwrites the anchor with each
      dependency's row that is set. */
  method AnchorRow(deps: seq<JobId>, top: map<JobId, int>) returns (anchor: int)
    ensures anchor == AnchorOf(deps, top)
  {
    anchor := 0;
    var i := 0;
    while i < |deps|
      invariant i <= |deps|
      invariant anchor == AnchorOf(deps[..i], top)
    {
      assert deps[..i + 1][..i] == deps[..i];
      if deps[i] in top {
        anchor := top[deps[i]];
      }
      i := i + 1;
    }
    assert deps[..i] == deps;
  }

  /** When every dependency has a row, the anchor is the row of the last one. */
  lemma AnchorOfAllPlaced(deps: seq<JobId>, top: map<JobId, int>)
    requires forall d :: d in deps ==> d in top
    ensures AnchorOf(deps, top) == if deps == [] then 0 else top[deps[|deps| - 1]]
  {
  }

  /** `min_by` over the rows of the jobs (line 102). */
  function LowestRow(ids: seq<JobId>, top: map<JobId, int>): (m: int)
    requires ids != []
    requires forall j :: j in ids ==> j in top
    ensures forall j :: j in ids ==> m <= top[j]
    ensures exists j :: j in ids && top[j] == m
  {
    if |ids| == 1 then top[ids[0]]
    else
      var rest := LowestRow(ids[1..], top);
      assert forall j :: j in ids[1..] ==> j in ids;
      assert forall j :: j in ids ==> j == ids[0] || j in ids[1..];
      if top[ids[0]] <= rest then top[ids[0]] else rest
  }

  /** Line 103: when the lowest row is negative, every row is shifted by its
      absolute value. */
  method NormalizeRows(ids: seq<JobId>, top: map<JobId, int>) returns (top': map<JobId, int>)
    requires ids != [] && NoDuplicates(ids)
    requires forall j :: j in top <==> j in ids
    ensures top'.Keys == top.Keys
    ensures forall j :: j in top ==> top'[j] == top[j] + (if LowestRow(ids, top) < 0 then -LowestRow(ids, top) else 0)
    ensures forall j :: j in top' ==> top'[j] >= 0
    ensures LowestRow(ids, top) < 0 ==> exists j :: j in top' && top'[j] == 0
    ensures LowestRow(ids, top) >= 0 ==> top' == top
    ensures forall a, b :: a in top && b in top ==> top'[a] - top'[b] == top[a] - top[b]
  {
    var lowest := LowestRow(ids, top);
    if lowest < 0 {
      top' := ShiftRows(ids, top, Abs(lowest));
    } else {
      top' := top;
    }
  }

  /** The `each` loop of line 103: add `shift` to the row of every job. */
  method ShiftRows(ids: seq<JobId>, top: map<JobId, int>, shift: int) returns (top': map<JobId, int>)
    requires NoDuplicates(ids)
    requires forall j :: j in top <==> j in ids
    ensures top'.Keys == top.Keys
    ensures forall j :: j in top ==> top'[j] == top[j] + shift
  {
    top' := top;
    var i := 0;
    while i < |ids|
      invariant i <= |ids|
      invariant top'.Keys == top.Keys
      invariant forall j :: j in top && j in ids[..i] ==> top'[j] == top[j] + shift
      invariant forall j :: j in top && j !in ids[..i] ==> top'[j] == top[j]
    {
      assert ids[..i + 1] == ids[..i] + [ids[i]];
      assert ids[i] !in ids[..i];
      top' := top'[ids[i] := top'[ids[i]] + shift];
      i := i + 1;
    }
    assert ids[..i] == ids;
  }
}
