/**
 * The session object of the dendrite segmentation tool: the three managed ROI
 * collections, the children of every branch, the active ROI and the ROIs'
 * `active` flags, the active frame, the threshold with its mask, and the
 * shared trace cache. Methods follow the tool's setters and commands.
 */
module Segmentation {
  import opened Options
  import opened Selection
  import opened CyclicLists
  import opened SaveLayout

  /** A per-frame intensity trace, as held by the shared trace cache. */
  type Trace = seq<real>

  /** The binary mask, as the set of foreground pixels; it is computed outside the model. */
  type Mask = set<(nat, nat)>

  /** The exceptions the commands raise. */
  datatype Error =
    | NotManaged       // remove_roi: the ROI is in none of the collections
    | NotInList        // bicyclelist.remove: the ROI is not in the list
    | FrameOutOfRange  // active_frame: outside [0, frames)
    | NoBranch         // split_branch: neither a branch given nor one active
    | NoChildren       // split_branch: `children[0]` of a branch without children
    | NotAChild        // split: `children.index(segment)` finds no such child; join: assumed of `SegmentRoi.join`
    | NoNeighbour      // join: the requested neighbour does not exist (assumed of `SegmentRoi.join`)

  datatype Outcome = Done | Failed(error: Error)

  /** The three collections the tool pages through. */
  datatype Collection = BranchList | PolygonList | PixelList

  /** The view of the active ROI that belongs to a collection's kind. */
  function ActiveOf(c: Collection, a: Option<Roi>): (r: Option<Roi>)
    ensures r.Some? ==> r.value in Marked(a)
    ensures c.PolygonList? ==> r == ActivePolyroi(a)
    ensures c.PixelList? ==> r == ActivePixelroi(a)
    ensures c.BranchList? ==> r == ActiveBranch(a)
  {
    match c
    case BranchList => ActiveBranch(a)
    case PolygonList => ActivePolyroi(a)
    case PixelList => ActivePixelroi(a)
  }

  /** Whether every ROI of `s` has the kind a collection holds. */
  predicate OfKind(c: Collection, s: seq<Roi>)
  {
    forall r :: r in s ==> match c
      case BranchList => r.Branch?
      case PolygonList => r.Polygon?
      case PixelList => r.Pixel?
  }

  /** Whether every ROI of `cs` is a segment of branch `b`. */
  predicate SegmentsOf(cs: seq<Roi>, b: nat)
  {
    forall r :: r in cs ==> r.Segment? && r.parent == b
  }

  /**
   * The ROI `r` uses only numbers below `n`: its own and, for a segment, its
   * parent branch's.
   */
  predicate Issued(r: Roi, n: nat)
  {
    r.id < n && (r.Segment? ==> r.parent < n)
  }

  /** Every ROI of `s` is issued below `n`: the numbers from `n` on are unused. */
  predicate Below(s: seq<Roi>, n: nat)
  {
    forall r :: r in s ==> Issued(r, n)
  }

  /** The `count` new segments of branch `b` numbered from `start`. */
  function FreshSegments(start: nat, count: nat, b: nat): (r: seq<Roi>)
    ensures |r| == count && SegmentsOf(r, b) && Distinct(r)
    ensures forall x :: x in r ==> start <= x.id < start + count
    ensures count > 0 ==> r[0] == Segment(start, b)
  {
    var r := seq(count, k requires 0 <= k < count => Segment(start + k, b));
    assert forall i, j :: 0 <= i < j < |r| ==> r[i].id != r[j].id;
    r
  }

  /** `s` with the `count` elements from `at` on replaced by `ins`. */
  function Replace(s: seq<Roi>, at: nat, count: nat, ins: seq<Roi>): (r: seq<Roi>)
    requires at + count <= |s|
    ensures |r| == |s| - count + |ins|
    ensures forall k :: 0 <= k < at ==> r[k] == s[k]
    ensures forall k :: 0 <= k < |ins| ==> r[at + k] == ins[k]
    ensures forall k :: at + |ins| <= k < |r| ==> r[k] == s[k - |ins| + count]
    ensures forall x :: x in r ==> x in s || x in ins
    ensures forall b :: SegmentsOf(s, b) && SegmentsOf(ins, b) ==> SegmentsOf(r, b)
  {
    var r := s[..at] + ins + s[at + count..];
    assert forall x :: x in r ==> x in s || x in ins by {
      forall x | x in r ensures x in s || x in ins {
        var j :| 0 <= j < |r| && r[j] == x;
        if j < at {
          assert s[j] == x;
        } else if j >= at + |ins| {
          assert s[j - |ins| + count] == x;
        }
      }
    }
    r
  }

  /**
   * Splicing fresh ROIs into a duplicate-free sequence keeps it duplicate-free,
   * and the replaced elements are gone.
   */
  lemma ReplaceDistinct(s: seq<Roi>, at: nat, count: nat, ins: seq<Roi>)
    requires at + count <= |s| && Distinct(s) && Distinct(ins)
    requires forall x :: x in ins ==> x !in s
    ensures Distinct(Replace(s, at, count, ins))
    ensures forall k :: at <= k < at + count ==> s[k] !in Replace(s, at, count, ins)
  {
    var r := Replace(s, at, count, ins);
    forall i, j | 0 <= i < j < |r| ensures r[i] != r[j] {
      if i < at {
        assert r[i] == s[i] && s[i] in s;
        if j < at { assert r[j] == s[j]; }
        else if j < at + |ins| { assert r[j] == ins[j - at] && ins[j - at] in ins; }
        else { assert r[j] == s[j - |ins| + count]; }
      } else if i < at + |ins| {
        assert r[i] == ins[i - at] && ins[i - at] in ins;
        if j < at + |ins| { assert r[j] == ins[j - at]; }
        else { assert r[j] == s[j - |ins| + count] && s[j - |ins| + count] in s; }
      } else {
        assert r[i] == s[i - |ins| + count] && r[j] == s[j - |ins| + count];
      }
    }
    forall k | at <= k < at + count ensures s[k] !in r {
      forall i | 0 <= i < |r| ensures r[i] != s[k] {
        if i < at { assert r[i] == s[i]; }
        else if i < at + |ins| { assert r[i] == ins[i - at] && ins[i - at] in ins && s[k] in s; }
        else { assert r[i] == s[i - |ins| + count]; }
      }
    }
  }

  /** The number of skeleton branches with more than one point. */
  function LongBranches(points: seq<nat>): (n: nat)
    ensures n <= |points|
  {
    if points == [] then 0
    else LongBranches(points[..|points| - 1]) + (if points[|points| - 1] > 1 then 1 else 0)
  }

  /**
   * Only branches with more than one point are kept: all of them when every
   * branch has, none when none has, and at least one when one has.
   */
  lemma {:induction false} LongBranchesCount(points: seq<nat>)
    ensures (forall k :: 0 <= k < |points| ==> points[k] > 1) ==> LongBranches(points) == |points|
    ensures (forall k :: 0 <= k < |points| ==> points[k] <= 1) ==> LongBranches(points) == 0
    ensures (exists k :: 0 <= k < |points| && points[k] > 1) ==> LongBranches(points) > 0
  {
    if points != [] {
      var init := points[..|points| - 1];
      LongBranchesCount(init);
      assert forall k :: 0 <= k < |init| ==> init[k] == points[k];
      if exists k :: 0 <= k < |points| && points[k] > 1 {
        var k :| 0 <= k < |points| && points[k] > 1;
        if k < |init| {
          assert init[k] > 1;
        }
      }
    }
  }

  /** The branches `Branch(0)`, ..., `Branch(n - 1)`. */
  function Numbered(n: nat): (r: seq<Roi>)
    ensures |r| == n && forall k :: 0 <= k < n ==> r[k] == Branch(k)
  {
    seq(n, k requires 0 <= k < n => Branch(k))
  }

  /** The number of children of each branch of `bs`, in order. */
  function ChildCounts(bs: seq<Roi>, children: map<nat, seq<Roi>>): (r: seq<nat>)
    ensures |r| == |bs|
    ensures forall k :: 0 <= k < |bs| ==>
      r[k] == if bs[k].id in children then |children[bs[k].id]| else 0
  {
    if bs == [] then []
    else
      var b := bs[|bs| - 1];
      ChildCounts(bs[..|bs| - 1], children) + [if b.id in children then |children[b.id]| else 0]
  }

  /**
   * In the child map `cs`, the first `k` branches of `bs` have been split:
   * branch `j` has `pieces[j]` children, all numbered from `start` on.
   */
  ghost predicate SplitUpTo(cs: map<nat, seq<Roi>>, bs: seq<Roi>, pieces: seq<nat>, k: nat, start: nat)
  {
    && k <= |bs| && k <= |pieces|
    && (forall j :: 0 <= j < k ==> bs[j].id in cs && |cs[bs[j].id]| == pieces[j])
    && (forall j, x :: 0 <= j < k && bs[j].id in cs && x in cs[bs[j].id] ==> start <= x.id)
  }

  /** Splitting branch `k` into segments numbered from `n >= start` extends `SplitUpTo` by one. */
  lemma SplitUpToStep(cs: map<nat, seq<Roi>>, bs: seq<Roi>, pieces: seq<nat>, k: nat, start: nat, n: nat)
    requires SplitUpTo(cs, bs, pieces, k, start) && k < |bs| && k < |pieces| && start <= n
    requires forall j :: 0 <= j < k ==> bs[j].id != bs[k].id
    ensures SplitUpTo(cs[bs[k].id := FreshSegments(n, pieces[k], bs[k].id)], bs, pieces, k + 1, start)
  {
    var cs' := cs[bs[k].id := FreshSegments(n, pieces[k], bs[k].id)];
    forall j | 0 <= j < k + 1 ensures bs[j].id in cs' && |cs'[bs[j].id]| == pieces[j] {
      if j < k { assert cs'[bs[j].id] == cs[bs[j].id]; }
    }
    forall j, x: Roi | 0 <= j < k + 1 && bs[j].id in cs' && x in cs'[bs[j].id] ensures start <= x.id {
      if j < k { assert cs'[bs[j].id] == cs[bs[j].id]; }
    }
  }

  class SegmentationTool {
    /** The number of frames of the data (`data.shape[2]`). */
    const frames: nat
    const branches: CyclicList<Roi>
    const polyrois: CyclicList<Roi>
    const pixelrois: CyclicList<Roi>

    var activeRoi: Option<Roi>
    var flags: Flags
    /** `branch.children` of every branch, by branch number. */
    var children: map<nat, seq<Roi>>
    /** The number the next new ROI gets. */
    var nextId: nat
    var activeFrame: int
    var threshold: real
    var mask: Mask
    var traceCache: map<Roi, Trace>

    /**
     * The lists are distinct objects holding ROIs of their kind, no ROI twice,
     * and every ROI (listed, a child, a branch owning children, or the active
     * one) is numbered below `nextId`, so the ROI the next command creates is
     * new, inactive and childless; the flags follow the selection.
     */
    ghost predicate Valid()
      reads this, branches, polyrois, pixelrois
    {
      && branches != polyrois && branches != pixelrois && polyrois != pixelrois
      && branches.Valid() && polyrois.Valid() && pixelrois.Valid()
      && OfKind(BranchList, branches.items)
      && OfKind(PolygonList, polyrois.items)
      && OfKind(PixelList, pixelrois.items)
      && Distinct(branches.items) && Distinct(polyrois.items) && Distinct(pixelrois.items)
      && Below(branches.items, nextId) && Below(polyrois.items, nextId) && Below(pixelrois.items, nextId)
      && Consistent(flags, activeRoi)
      && (activeRoi.Some? ==> Issued(activeRoi.value, nextId))
      && (forall b :: b in children ==> b < nextId)
      && (forall b :: b in children ==> SegmentsOf(children[b], b) && Distinct(children[b]) && Below(children[b], nextId))
      && 0 <= activeFrame < frames
    }

    function ListOf(c: Collection): CyclicList<Roi>
    {
      match c
      case BranchList => branches
      case PolygonList => polyrois
      case PixelList => pixelrois
    }

    function ChildrenOf(b: nat): seq<Roi>
      reads this
    {
      if b in children then children[b] else []
    }

    /**
     * Builds the session: the frame is 0, the threshold and its mask are
     * stored, every skeleton branch with more than one point becomes a branch
     * ROI, and the first step through the branches selects one of them.
     */
    constructor (frames: nat, threshold: real, mask: Mask, skeleton: seq<nat>)
      requires frames > 0
      ensures Valid() && fresh(branches) && fresh(polyrois) && fresh(pixelrois)
      ensures this.frames == frames && activeFrame == 0
      ensures this.threshold == threshold && this.mask == mask && traceCache == map[]
      ensures branches.items == Numbered(LongBranches(skeleton))
      ensures polyrois.items == [] && pixelrois.items == [] && children == map[]
      ensures activeRoi == branches.Cur()
      ensures branches.items != [] ==> branches.cursor == Succ(0, |branches.items|)
      ensures branches.items != [] ==> activeRoi == Some(Branch(Succ(0, |branches.items|)))
    {
      this.frames := frames;
      branches := new CyclicList();
      polyrois := new CyclicList();
      pixelrois := new CyclicList();
      activeRoi := None;
      flags := map[];
      children := map[];
      nextId := 0;
      this.threshold := threshold;
      this.mask := mask;
      traceCache := map[];
      activeFrame := 0;
      new;
      LoadSkeleton(skeleton);
      assert branches.items == Numbered(LongBranches(skeleton)) && children == map[];
      Page(BranchList, true);
    }

    /** The constructor's loop over the skeleton: each branch with more than one point is added. */
    method LoadSkeleton(skeleton: seq<nat>)
      requires Valid() && branches.items == [] && nextId == 0
      modifies this`nextId, branches`items
      ensures Valid()
      ensures branches.items == Numbered(LongBranches(skeleton)) && nextId == LongBranches(skeleton)
    {
      var k := 0;
      while k < |skeleton|
        invariant 0 <= k <= |skeleton|
        invariant Valid()
        invariant branches.items == Numbered(nextId)
        invariant nextId == LongBranches(skeleton[..k])
      {
        assert skeleton[..k + 1][..k] == skeleton[..k];
        if skeleton[k] > 1 {
          AddBranchroi();
        }
        k := k + 1;
      }
      assert skeleton[..k] == skeleton;
    }

    /**
     * The `active_roi` setter. Assigning the active ROI again is a no-op;
     * otherwise the flags change as `Assign` says and `p` becomes active.
     */
    method SetActiveRoi(p: Option<Roi>)
      requires Valid()
      requires p.Some? ==> Issued(p.value, nextId)
      modifies this`activeRoi, this`flags
      ensures Valid()
      ensures activeRoi == p
      ensures flags == Assign(old(flags), old(activeRoi), p)
    {
      if activeRoi == p {
        return;
      }
      if activeRoi.Some? {
        flags := flags[activeRoi.value := false];
      }
      var segment := ActiveSegment(activeRoi);
      if segment.Some? && !SharesParent(segment.value, p) {
        flags := flags[ParentOf(segment.value) := false];
      }
      activeRoi := p;
      if p.Some? {
        flags := flags[p.value := true];
        segment := ActiveSegment(activeRoi);
        if segment.Some? {
          flags := flags[ParentOf(segment.value) := true];
        }
      }
      assert flags == Assign(old(flags), old(activeRoi), p);
    }

    /**
     * `next_branch`, `previous_branch`, `next_polyroi`, `previous_polyroi`,
     * `next_pixelroi` and `previous_pixelroi`: on a non-empty collection the
     * cursor steps forward or back and the item reached becomes active.
     */
    method Page(c: Collection, forward: bool)
      requires Valid()
      modifies this`activeRoi, this`flags, ListOf(c)`cursor
      ensures Valid()
      ensures old(ListOf(c).items) == [] ==>
        activeRoi == old(activeRoi) && flags == old(flags) && ListOf(c).cursor == old(ListOf(c).cursor)
      ensures old(ListOf(c).items) != [] ==>
        && ListOf(c).cursor == (if forward then Succ(old(ListOf(c).cursor), |ListOf(c).items|)
                                else Pred(old(ListOf(c).cursor), |ListOf(c).items|))
        && activeRoi == ListOf(c).Cur()
        && flags == Assign(old(flags), old(activeRoi), activeRoi)
    {
      var list := ListOf(c);
      if |list.items| > 0 {
        var r;
        if forward {
          r := list.Next();
        } else {
          r := list.Prev();
        }
        SetActiveRoi(Some(r));
      }
    }

    /**
     * `next_segment` and `previous_segment`: with an active branch, the ROI
     * that branch's own `next_segment`/`previous_segment` returns (given here,
     * as BranchRoi is not part of this model) becomes active; otherwise
     * nothing changes.
     */
    method StepSegment(neighbour: Option<Roi>)
      requires Valid()
      requires neighbour.Some? ==> Issued(neighbour.value, nextId)
      modifies this`activeRoi, this`flags
      ensures Valid()
      ensures ActiveBranch(old(activeRoi)).None? ==> activeRoi == old(activeRoi) && flags == old(flags)
      ensures ActiveBranch(old(activeRoi)).Some? ==>
        activeRoi == neighbour && flags == Assign(old(flags), old(activeRoi), neighbour)
    {
      if ActiveBranch(activeRoi).Some? {
        SetActiveRoi(neighbour);
      }
    }

    /** The `active_frame` setter: out of range it fails before any change. */
    method SetActiveFrame(f: int) returns (outcome: Outcome)
      requires Valid()
      modifies this`activeFrame
      ensures Valid()
      ensures !(0 <= f < frames) ==> outcome == Failed(FrameOutOfRange) && activeFrame == old(activeFrame)
      ensures 0 <= f < frames ==> outcome == Done && activeFrame == f
    {
      if !(0 <= f < frames) {
        return Failed(FrameOutOfRange);
      }
      activeFrame := f;
      outcome := Done;
    }

    /**
     * The `threshold` setter: `m` is the mask the watershed computes for `t`
     * outside the model; the threshold and mask are stored and every cached
     * trace is dropped.
     */
    method SetThreshold(t: real, m: Mask)
      requires Valid()
      modifies this`threshold, this`mask, this`traceCache
      ensures Valid()
      ensures threshold == t && mask == m && traceCache == map[]
    {
      threshold := t;
      mask := m;
      traceCache := map[];
    }

    /** `toggle_filter`: every cached trace is dropped, so post-processing is redone. */
    method ToggleFilter()
      requires Valid()
      modifies this`traceCache
      ensures Valid() && traceCache == map[]
    {
      traceCache := map[];
    }

    /** `add_branchroi`: a new branch is appended; the selection is untouched. */
    method AddBranchroi()
      requires Valid()
      modifies this`nextId, branches`items
      ensures Valid()
      ensures nextId == old(nextId) + 1
      ensures branches.items == old(branches.items) + [Branch(old(nextId))]
      ensures Branch(old(nextId)) !in old(branches.items)
      ensures ChildrenOf(old(nextId)) == [] && !IsActive(flags, Branch(old(nextId)))
    {
      AppendDistinct(branches.items, Branch(nextId));
      branches.Append(Branch(nextId));
      nextId := nextId + 1;
    }

    /** `add_polyroi`: a new polygon is appended and becomes active. */
    method AddPolyroi()
      requires Valid()
      modifies this`nextId, this`activeRoi, this`flags, polyrois`items
      ensures Valid()
      ensures nextId == old(nextId) + 1
      ensures polyrois.items == old(polyrois.items) + [Polygon(old(nextId))]
      ensures Polygon(old(nextId)) !in old(polyrois.items)
      ensures activeRoi == Some(Polygon(old(nextId))) && activeRoi != old(activeRoi)
      ensures flags == Assign(old(flags), old(activeRoi), activeRoi)
    {
      AppendDistinct(polyrois.items, Polygon(nextId));
      polyrois.Append(Polygon(nextId));
      nextId := nextId + 1;
      SetActiveRoi(Some(polyrois.items[|polyrois.items| - 1]));
    }

    /** `add_pixelroi`: a new pixel ROI is appended and becomes active. */
    method AddPixelroi()
      requires Valid()
      modifies this`nextId, this`activeRoi, this`flags, pixelrois`items
      ensures Valid()
      ensures nextId == old(nextId) + 1
      ensures pixelrois.items == old(pixelrois.items) + [Pixel(old(nextId))]
      ensures Pixel(old(nextId)) !in old(pixelrois.items)
      ensures activeRoi == Some(Pixel(old(nextId))) && activeRoi != old(activeRoi)
      ensures flags == Assign(old(flags), old(activeRoi), activeRoi)
    {
      AppendDistinct(pixelrois.items, Pixel(nextId));
      pixelrois.Append(Pixel(nextId));
      nextId := nextId + 1;
      SetActiveRoi(Some(pixelrois.items[|pixelrois.items| - 1]));
    }

    /** `roi.remove()`: the ROI's cached trace is dropped. */
    method Detach(r: Roi)
      requires Valid()
      modifies this`traceCache
      ensures Valid() && traceCache == old(traceCache) - {r}
    {
      traceCache := traceCache - {r};
    }

    /**
     * `remove_polyroi` and `remove_pixelroi`: the given ROI, or else the active
     * one of the collection's kind, is detached and removed from the
     * collection, and the collection's current item becomes active.
     */
    method RemoveRegion(c: Collection, p: Option<Roi>) returns (outcome: Outcome)
      requires Valid() && !c.BranchList?
      modifies this`traceCache, this`activeRoi, this`flags, ListOf(c)
      ensures Valid()
      ensures var q := if p.Some? then p else ActiveOf(c, old(activeRoi));
        && (q.None? ==>
              outcome == Done && traceCache == old(traceCache) && unchanged(ListOf(c))
              && activeRoi == old(activeRoi) && flags == old(flags))
        && (q.Some? ==> traceCache == old(traceCache) - {q.value})
        && (q.Some? && q.value !in old(ListOf(c).items) ==>
              outcome == Failed(NotInList) && unchanged(ListOf(c))
              && activeRoi == old(activeRoi) && flags == old(flags))
        && (q.Some? && q.value in old(ListOf(c).items) ==>
              && outcome == Done
              && ListOf(c).items == Without(old(ListOf(c).items), IndexOf(old(ListOf(c).items), q.value))
              && ListOf(c).cursor == CursorAfterRemoval(old(ListOf(c).cursor), IndexOf(old(ListOf(c).items), q.value), |old(ListOf(c).items)|)
              && q.value !in ListOf(c).items
              && activeRoi == ListOf(c).Cur()
              && flags == Assign(old(flags), old(activeRoi), activeRoi))
    {
      var q := if p.Some? then p else ActiveOf(c, activeRoi);
      if q.None? {
        return Done;
      }
      Detach(q.value);
      if q.value !in ListOf(c).items {
        return Failed(NotInList);
      }
      Withdraw(c, q.value);
      outcome := Done;
    }

    /**
     * The successful end of `remove_polyroi` and `remove_pixelroi`: `x` leaves
     * the collection and the collection's current item becomes active.
     */
    method Withdraw(c: Collection, x: Roi)
      requires Valid() && !c.BranchList? && x in ListOf(c).items
      modifies this`activeRoi, this`flags, ListOf(c)
      ensures Valid()
      ensures var k := IndexOf(old(ListOf(c).items), x);
        && ListOf(c).items == Without(old(ListOf(c).items), k)
        && ListOf(c).cursor == CursorAfterRemoval(old(ListOf(c).cursor), k, |old(ListOf(c).items)|)
        && x !in ListOf(c).items
        && activeRoi == ListOf(c).Cur()
        && flags == Assign(old(flags), old(activeRoi), activeRoi)
    {
      var list := ListOf(c);
      var found := list.Remove(x);
      SetActiveRoi(list.Cur());
    }

    /**
     * `remove_branch`: the given branch, or else the active branch, is
     * detached and removed. Only when that branch itself was the active ROI is
     * the list's current branch selected; when one of its segments was active
     * the selection stays on that segment.
     */
    method RemoveBranch(branch: Option<Roi>) returns (outcome: Outcome)
      requires Valid()
      modifies this`traceCache, this`activeRoi, this`flags, branches
      ensures Valid()
      ensures var b := if branch.Some? then branch else ActiveBranch(old(activeRoi));
        && (b.None? ==>
              outcome == Done && traceCache == old(traceCache) && unchanged(branches)
              && activeRoi == old(activeRoi) && flags == old(flags))
        && (b.Some? ==> traceCache == old(traceCache) - {b.value})
        && (b.Some? && b.value !in old(branches.items) ==>
              outcome == Failed(NotInList) && unchanged(branches)
              && activeRoi == old(activeRoi) && flags == old(flags))
        && (b.Some? && b.value in old(branches.items) ==>
              && outcome == Done
              && branches.items == Without(old(branches.items), IndexOf(old(branches.items), b.value))
              && branches.cursor == CursorAfterRemoval(old(branches.cursor), IndexOf(old(branches.items), b.value), |old(branches.items)|)
              && b.value !in branches.items
              && (if b == old(activeRoi)
                  then activeRoi == branches.Cur() && flags == Assign(old(flags), old(activeRoi), activeRoi)
                  else activeRoi == old(activeRoi) && flags == old(flags)))
    {
      var b := if branch.Some? then branch else ActiveBranch(activeRoi);
      if b.None? {
        return Done;
      }
      var selectNew := b == activeRoi;
      Detach(b.value);
      var found := branches.Remove(b.value);
      if !found {
        return Failed(NotInList);
      }
      if selectNew {
        SetActiveRoi(branches.Cur());
      }
      outcome := Done;
    }

    /**
     * `remove_roi`: the ROI is removed from the first collection that holds it
     * and detached; the selection is cleared iff it was the active ROI. A ROI
     * in no collection fails before any change.
     */
    method RemoveRoi(roi: Roi) returns (outcome: Outcome)
      requires Valid()
      modifies this`traceCache, this`activeRoi, this`flags, branches, polyrois, pixelrois
      ensures Valid()
      ensures roi !in old(branches.items) && roi !in old(polyrois.items) && roi !in old(pixelrois.items) ==>
        && outcome == Failed(NotManaged) && unchanged(this, branches, polyrois, pixelrois)
      ensures roi in old(branches.items) ==>
        && branches.items == Without(old(branches.items), IndexOf(old(branches.items), roi))
        && branches.cursor == CursorAfterRemoval(old(branches.cursor), IndexOf(old(branches.items), roi), |old(branches.items)|)
        && roi !in branches.items
        && unchanged(polyrois, pixelrois)
      ensures roi !in old(branches.items) && roi in old(polyrois.items) ==>
        && polyrois.items == Without(old(polyrois.items), IndexOf(old(polyrois.items), roi))
        && polyrois.cursor == CursorAfterRemoval(old(polyrois.cursor), IndexOf(old(polyrois.items), roi), |old(polyrois.items)|)
        && roi !in polyrois.items
        && unchanged(branches, pixelrois)
      ensures roi !in old(branches.items) && roi !in old(polyrois.items) && roi in old(pixelrois.items) ==>
        && pixelrois.items == Without(old(pixelrois.items), IndexOf(old(pixelrois.items), roi))
        && pixelrois.cursor == CursorAfterRemoval(old(pixelrois.cursor), IndexOf(old(pixelrois.items), roi), |old(pixelrois.items)|)
        && roi !in pixelrois.items
        && unchanged(branches, polyrois)
      ensures outcome.Done? <==> roi in old(branches.items) || roi in old(polyrois.items) || roi in old(pixelrois.items)
      ensures outcome.Done? ==>
        && traceCache == old(traceCache) - {roi}
        && activeRoi == (if old(activeRoi) == Some(roi) then None else old(activeRoi))
        && flags == Assign(old(flags), old(activeRoi), activeRoi)
    {
      var selectNew := activeRoi == Some(roi);
      var found;
      if roi in branches.items {
        found := branches.Remove(roi);
      } else if roi in polyrois.items {
        found := polyrois.Remove(roi);
      } else if roi in pixelrois.items {
        found := pixelrois.Remove(roi);
      } else {
        return Failed(NotManaged);
      }
      Detach(roi);
      if selectNew {
        SetActiveRoi(None);
      }
      outcome := Done;
    }

    /**
     * `split_branch`: the given branch, or else the active branch, is split
     * into `pieces` new segments when it is one of the managed branches (the
     * number of pieces stands for what the hidden geometry produces). If that
     * branch is active, its first child becomes active afterwards.
     */
    method SplitBranch(branch: Option<Roi>, pieces: nat) returns (outcome: Outcome)
      requires Valid()
      requires branch.Some? ==> branch.value.Branch?
      requires pieces >= 1
      modifies this`children, this`nextId, this`activeRoi, this`flags
      ensures Valid()
      ensures var b := if branch.Some? then branch else ActiveBranch(old(activeRoi));
        && (b.None? ==> outcome == Failed(NoBranch) && unchanged(this))
        && (b.Some? && b.value in branches.items ==>
              && children == old(children)[b.value.id := FreshSegments(old(nextId), pieces, b.value.id)]
              && nextId == old(nextId) + pieces)
        && (b.Some? && b.value !in branches.items ==> children == old(children) && nextId == old(nextId))
        && (b.Some? && !IsActive(old(flags), b.value) ==>
              outcome == Done && activeRoi == old(activeRoi) && flags == old(flags))
        && (b.Some? && IsActive(old(flags), b.value) && ChildrenOf(b.value.id) == [] ==>
              outcome == Failed(NoChildren) && activeRoi == old(activeRoi) && flags == old(flags))
        && (b.Some? && IsActive(old(flags), b.value) && ChildrenOf(b.value.id) != [] ==>
              && outcome == Done
              && activeRoi == Some(ChildrenOf(b.value.id)[0])
              && flags == Assign(old(flags), old(activeRoi), activeRoi)
              && IsActive(flags, b.value))
    {
      var b := if branch.Some? then branch else ActiveBranch(activeRoi);
      if b.Some? && b.value in branches.items {
        Resegment(b.value, pieces);
      }
      if b.None? {
        return Failed(NoBranch);
      }
      if IsActive(flags, b.value) {
        var cs := ChildrenOf(b.value.id);
        if cs == [] {
          return Failed(NoChildren);
        }
        SetActiveRoi(Some(cs[0]));
      }
      outcome := Done;
    }

    /** The children of the managed branch `b` become `pieces` new segments. */
    method Resegment(b: Roi, pieces: nat)
      requires Valid() && b in branches.items
      modifies this`children, this`nextId
      ensures Valid()
      ensures children == old(children)[b.id := FreshSegments(old(nextId), pieces, b.id)]
      ensures nextId == old(nextId) + pieces
    {
      children := children[b.id := FreshSegments(nextId, pieces, b.id)];
      nextId := nextId + pieces;
    }

    /** One iteration of `split_branches`: `split_branch` on a managed branch `b`. */
    method SplitOne(b: Roi, pieces: nat)
      requires Valid() && b in branches.items && pieces >= 1
      modifies this`children, this`nextId, this`activeRoi, this`flags
      ensures Valid()
      ensures ChildrenOf(b.id) != []
      ensures children == old(children)[b.id := FreshSegments(old(nextId), pieces, b.id)]
      ensures nextId == old(nextId) + pieces
      ensures forall x :: x != b.id ==> ChildrenOf(x) == old(ChildrenOf(x))
      ensures ActiveBranch(activeRoi) == ActiveBranch(old(activeRoi))
      ensures ActiveBranch(old(activeRoi)) == Some(b) ==> activeRoi == Some(ChildrenOf(b.id)[0])
      ensures ActiveBranch(old(activeRoi)) != Some(b) ==> activeRoi == old(activeRoi)
    {
      ViewsAreActive(flags, activeRoi);
      var outcome := SplitBranch(Some(b), pieces);
    }

    /**
     * `split_branches`: every managed branch is split, `pieces[k]` standing
     * for the number of pieces the hidden geometry makes of the `k`-th. The
     * `k`-th managed branch ends with `pieces[k]` new segments, the active
     * branch stays the active branch, and if it is managed its first child is
     * selected.
     */
    method SplitBranches(pieces: seq<nat>)
      requires Valid()
      requires |pieces| == |branches.items|
      requires forall k :: 0 <= k < |pieces| ==> pieces[k] >= 1
      modifies this`children, this`nextId, this`activeRoi, this`flags
      ensures Valid()
      ensures forall b :: b in branches.items ==> ChildrenOf(b.id) != []
      ensures forall k :: 0 <= k < |branches.items| ==> |ChildrenOf(branches.items[k].id)| == pieces[k]
      ensures forall k, x :: 0 <= k < |branches.items| && x in ChildrenOf(branches.items[k].id) ==> old(nextId) <= x.id
      ensures forall b :: Branch(b) !in branches.items ==> ChildrenOf(b) == old(ChildrenOf(b))
      ensures ActiveBranch(activeRoi) == ActiveBranch(old(activeRoi))
      ensures var ab := ActiveBranch(old(activeRoi));
        && (ab.Some? && ab.value in branches.items ==> activeRoi == Some(ChildrenOf(ab.value.id)[0]))
        && (!(ab.Some? && ab.value in branches.items) ==> activeRoi == old(activeRoi))
    {
      ghost var ab := ActiveBranch(activeRoi);
      ghost var before := activeRoi;
      ghost var bs := branches.items;
      var k := 0;
      while k < |branches.items|
        invariant k <= |branches.items| && branches.items == bs
        invariant Valid()
        invariant old(nextId) <= nextId
        invariant SplitUpTo(children, bs, pieces, k, old(nextId))
        invariant forall b :: Branch(b) !in bs ==> ChildrenOf(b) == old(ChildrenOf(b))
        invariant ActiveBranch(activeRoi) == ab
        invariant ab.Some? && ab.value in bs[..k] ==> activeRoi == Some(ChildrenOf(ab.value.id)[0])
        invariant !(ab.Some? && ab.value in bs[..k]) ==> activeRoi == before
      {
        var b := branches.items[k];
        assert b in branches.items;
        forall j | 0 <= j < k ensures bs[j].id != b.id {
          assert bs[j] in bs && bs[j] != bs[k];
        }
        SplitUpToStep(children, bs, pieces, k, old(nextId), nextId);
        SplitOne(b, pieces[k]);
        assert bs[..k + 1] == bs[..k] + [b];
        k := k + 1;
      }
      assert bs[..k] == bs;
      forall j | 0 <= j < |bs| ensures ChildrenOf(bs[j].id) == children[bs[j].id] {
      }
    }

    /**
     * Replaces the `count` children of branch `p` from index `at` on by the new
     * segments `ins`, numbered from `nextId` and using up `used` numbers.
     */
    method Splice(p: nat, at: nat, count: nat, ins: seq<Roi>, used: nat)
      requires Valid()
      requires p in children && at + count <= |ChildrenOf(p)|
      requires SegmentsOf(ins, p) && Distinct(ins)
      requires forall x :: x in ins ==> nextId <= x.id < nextId + used
      modifies this`children, this`nextId
      ensures Valid()
      ensures children == old(children)[p := Replace(old(ChildrenOf(p)), at, count, ins)]
      ensures nextId == old(nextId) + used
      ensures forall k :: at <= k < at + count ==> old(ChildrenOf(p))[k] !in ChildrenOf(p)
      ensures forall x :: x in ins ==> x !in old(ChildrenOf(p))
    {
      var cs := ChildrenOf(p);
      assert forall x :: x in ins ==> x !in cs;
      ReplaceDistinct(cs, at, count, ins);
      children := children[p := Replace(cs, at, count, ins)];
      nextId := nextId + used;
    }

    /**
     * `split_segment`: the given segment, or else the active one, is replaced
     * in its parent's children by `parts` new segments; if the parent branch is
     * active, the new segment at the old segment's index becomes active. With
     * no segment at all nothing happens. The source's default for `parts` is 2;
     * here the caller always passes it.
     */
    method SplitSegment(segment: Option<Roi>, parts: nat) returns (outcome: Outcome)
      requires Valid()
      requires segment.Some? ==> segment.value.Segment?
      requires parts >= 1
      modifies this`children, this`nextId, this`activeRoi, this`flags
      ensures Valid()
      ensures var s := if segment.Some? then segment else ActiveSegment(old(activeRoi));
        && (s.None? ==> outcome == Done && unchanged(this))
        && (s.Some? && s.value !in old(ChildrenOf(s.value.parent)) ==>
              outcome == Failed(NotAChild) && unchanged(this))
        && (s.Some? && s.value in old(ChildrenOf(s.value.parent)) ==>
              var p := s.value.parent;
              var i := IndexOf(old(ChildrenOf(p)), s.value);
              && outcome == Done
              && children == old(children)[p := Replace(old(ChildrenOf(p)), i, 1, FreshSegments(old(nextId), parts, p))]
              && nextId == old(nextId) + parts
              && i < |ChildrenOf(p)| && ChildrenOf(p)[i] == Segment(old(nextId), p)
              && s.value !in ChildrenOf(p)
              && (forall x :: x in FreshSegments(old(nextId), parts, p) ==> x !in old(ChildrenOf(p)))
              && (if IsActive(old(flags), ParentOf(s.value))
                  then activeRoi == Some(ChildrenOf(p)[i]) && flags == Assign(old(flags), old(activeRoi), activeRoi)
                  else activeRoi == old(activeRoi) && flags == old(flags)))
    {
      var s := if segment.Some? then segment else ActiveSegment(activeRoi);
      if s.None? {
        return Done;
      }
      var p := s.value.parent;
      var cs := ChildrenOf(p);
      if s.value !in cs {
        return Failed(NotAChild);
      }
      var i := IndexOf(cs, s.value);
      Splice(p, i, 1, FreshSegments(nextId, parts, p), parts);
      if IsActive(flags, ParentOf(s.value)) {
        SetActiveRoi(Some(children[p][i]));
      }
      outcome := Done;
    }

    /**
     * `join_segments`: the given segment, or else the active one, is merged
     * with its next (or previous) sibling into one new segment at the lower of
     * the two indices; if the parent branch is active, the joined segment
     * becomes active. With no segment at all nothing happens. The source's
     * default for `next` is true; here the caller always passes it. The
     * `NotAChild` and `NoNeighbour` failures stand for what `SegmentRoi.join`
     * is assumed to raise.
     */
    method JoinSegments(segment: Option<Roi>, next: bool) returns (outcome: Outcome)
      requires Valid()
      requires segment.Some? ==> segment.value.Segment?
      modifies this`children, this`nextId, this`activeRoi, this`flags
      ensures Valid()
      ensures var s := if segment.Some? then segment else ActiveSegment(old(activeRoi));
        && (s.None? ==> outcome == Done && unchanged(this))
        && (s.Some? && s.value !in old(ChildrenOf(s.value.parent)) ==>
              outcome == Failed(NotAChild) && unchanged(this))
        && (s.Some? && s.value in old(ChildrenOf(s.value.parent)) ==>
              var p := s.value.parent;
              var cs := old(ChildrenOf(p));
              var i := IndexOf(cs, s.value);
              var j := if next then i + 1 else i - 1;
              && (!(0 <= j < |cs|) ==> outcome == Failed(NoNeighbour) && unchanged(this))
              && (0 <= j < |cs| ==>
                    var lo := if next then i else i - 1;
                    var joined := Segment(old(nextId), p);
                    && outcome == Done
                    && children == old(children)[p := Replace(cs, lo, 2, [joined])]
                    && nextId == old(nextId) + 1
                    && s.value !in ChildrenOf(p) && cs[j] !in ChildrenOf(p) && joined !in cs
                    && (if IsActive(old(flags), ParentOf(s.value))
                        then activeRoi == Some(joined) && flags == Assign(old(flags), old(activeRoi), activeRoi)
                        else activeRoi == old(activeRoi) && flags == old(flags))))
    {
      var s := if segment.Some? then segment else ActiveSegment(activeRoi);
      if s.None? {
        return Done;
      }
      var p := s.value.parent;
      var cs := ChildrenOf(p);
      if s.value !in cs {
        return Failed(NotAChild);
      }
      var i := IndexOf(cs, s.value);
      var j: int := if next then i + 1 else (i as int) - 1;
      if !(0 <= j < |cs|) {
        return Failed(NoNeighbour);
      }
      var lo := if next then i else i - 1;
      assert ParentOf(s.value) == Branch(p);
      Merge(p, lo);
      assert s.value == cs[i] && cs[j] !in ChildrenOf(p) && s.value !in ChildrenOf(p);
      outcome := Done;
    }

    /**
     * The successful end of `join_segments`: the children at `lo` and `lo + 1`
     * of branch `p` become one new segment, selected when `p` is active.
     */
    method Merge(p: nat, lo: nat)
      requires Valid() && p in children && lo + 2 <= |ChildrenOf(p)|
      modifies this`children, this`nextId, this`activeRoi, this`flags
      ensures Valid()
      ensures var joined := Segment(old(nextId), p);
        && children == old(children)[p := Replace(old(ChildrenOf(p)), lo, 2, [joined])]
        && nextId == old(nextId) + 1
        && old(ChildrenOf(p))[lo] !in ChildrenOf(p) && old(ChildrenOf(p))[lo + 1] !in ChildrenOf(p)
        && joined !in old(ChildrenOf(p))
        && (if IsActive(old(flags), Branch(p))
            then activeRoi == Some(joined) && flags == Assign(old(flags), old(activeRoi), activeRoi)
            else activeRoi == old(activeRoi) && flags == old(flags))
    {
      var joined := Segment(nextId, p);
      Splice(p, lo, 2, [joined], 1);
      ghost var after := children;
      if IsActive(flags, Branch(p)) {
        SetActiveRoi(Some(joined));
      }
      assert children == after;
    }

    /** One `for i, m in enumerate(...)` loop of `save_hdf5` over `n` ROIs of a group. */
    static method EnumerateRois(group: string, n: nat) returns (log: seq<Write>)
      ensures log == RoiSection(group, n)
    {
      log := [Group([Name(group)])];
      var i := 0;
      while i < n
        invariant i <= n
        invariant log == [Group([Name(group)])] + RoiEntries(group, i)
      {
        log := log + [Dataset([Name(group), Index(i), Name("roi")]), Dataset([Name(group), Index(i), Name("trace")])];
        i := i + 1;
      }
    }

    /** One iteration of `save_hdf5`'s loop over the branches: branch `i` with `m` children. */
    static method WriteBranch(i: nat, m: nat) returns (log: seq<Write>)
      ensures log == BranchEntry(i, m)
    {
      log := [Group([Name("branches"), Index(i)]),
              Dataset(BranchPath(i, "roi")),
              Dataset(BranchPath(i, "outline")),
              Dataset(BranchPath(i, "trace"))];
      if m > 0 {
        log := log + [Dataset(BranchPath(i, "linescan"))];
      }
      log := log + [Group(BranchPath(i, "segments"))];
      ghost var head := log;
      var j := 0;
      while j < m
        invariant j <= m
        invariant log == head + SegmentEntries(i, j)
      {
        log := log + [Group(SegmentPath(i, j)),
                      Dataset(SegmentPath(i, j) + [Name("roi")]),
                      Dataset(SegmentPath(i, j) + [Name("outline")]),
                      Dataset(SegmentPath(i, j) + [Name("trace")])];
        j := j + 1;
      }
    }

    /** `save_hdf5`'s loop over the branches `bs`, whose children `children` holds. */
    static method EnumerateBranches(bs: seq<Roi>, children: map<nat, seq<Roi>>) returns (log: seq<Write>)
      ensures log == BranchEntries(ChildCounts(bs, children))
    {
      ghost var counts := ChildCounts(bs, children);
      log := [];
      var i := 0;
      while i < |bs|
        invariant i <= |bs|
        invariant log == BranchEntries(counts[..i])
      {
        var b := bs[i];
        var cs := if b.id in children then children[b.id] else [];
        var entries := WriteBranch(i, |cs|);
        assert counts[i] == |cs|;
        assert counts[..i + 1][..i] == counts[..i];
        log := log + entries;
        i := i + 1;
      }
      assert counts[..i] == counts;
    }

    /**
     * `save_hdf5`, without the file I/O: the file name opened and the groups,
     * datasets and attributes created, in order. This class never sets
     * `circlerois`, so the circles group stays empty. The source's defaults
     * are `mask = True` and `data = False`; here the caller passes both.
     */
    method SaveHdf5(filename: string, withMask: bool, withData: bool) returns (name: string, log: seq<Write>)
      ensures name == WithSuffix(filename)
      ensures log == Layout(withMask, withData, |pixelrois.items|, |polyrois.items|, 0,
                            ChildCounts(branches.items, children))
    {
      name := filename;
      if '.' !in name {
        name := name + ".h5";
      }
      log := [];
      if withMask {
        log := log + [Dataset([Name("mask")]), Attribute([Name("mask")], "threshold")];
      }
      if withData {
        log := log + [Dataset([Name("data")])];
      }
      ghost var header := log;
      assert header == Header(withMask, withData);

      var pixels := EnumerateRois("pixels", |pixelrois.items|);
      var polygons := EnumerateRois("polygons", |polyrois.items|);
      var circles := EnumerateRois("circles", 0);
      log := log + pixels + polygons + circles;
      assert log == header + Regions(|pixelrois.items|, |polyrois.items|, 0);

      log := log + [Group([Name("branches")])];
      var written := EnumerateBranches(branches.items, children);
      log := log + written;
    }
  }
}
