/**
 * The single-active-selection state of the dendrite segmentation tool: the
 * kinds of region of interest, the `active` flag every ROI carries, the
 * read-only views derived from the active ROI, and what assigning the active
 * ROI does to the flags.
 */
module Selection {
  import opened Options

  /**
   * A region of interest. Its kind and number are its identity (Python's `is`).
   * A segment names the number of the branch it belongs to.
   */
  datatype Roi =
    | Branch(id: nat)
    | Segment(id: nat, parent: nat)
    | Polygon(id: nat)
    | Pixel(id: nat)

  /** The branch a segment belongs to (`segment.parent`). */
  function ParentOf(s: Roi): (b: Roi)
    requires s.Segment?
    ensures b.Branch? && b.id == s.parent
  {
    Branch(s.parent)
  }

  /** The `active` attribute of every ROI; a ROI missing from the map is inactive. */
  type Flags = map<Roi, bool>

  predicate IsActive(flags: Flags, r: Roi)
  {
    r in flags && flags[r]
  }

  /** The ROIs that should be flagged active while `a` is selected. */
  function Marked(a: Option<Roi>): (m: set<Roi>)
    ensures a.None? ==> m == {}
    ensures a.Some? ==> a.value in m
    ensures a.Some? && a.value.Segment? ==> m == {a.value, ParentOf(a.value)}
    ensures a.Some? && !a.value.Segment? ==> m == {a.value}
  {
    match a
    case None => {}
    case Some(r) => if r.Segment? then {r, ParentOf(r)} else {r}
  }

  /**
   * The invariant of the selection: the ROIs flagged active are exactly the
   * active ROI and, when it is a segment, its parent branch.
   */
  ghost predicate Consistent(flags: Flags, a: Option<Roi>)
  {
    forall r :: IsActive(flags, r) <==> r in Marked(a)
  }

  /** At most one ROI is active, apart from the parent branch of an active segment. */
  lemma Exclusive(flags: Flags, a: Option<Roi>, x: Roi, y: Roi)
    requires Consistent(flags, a)
    requires IsActive(flags, x) && IsActive(flags, y) && x != y
    ensures (x.Segment? && y == ParentOf(x)) || (y.Segment? && x == ParentOf(y))
  {
    assert x in Marked(a) && y in Marked(a);
  }

  /** A flagged segment always has its parent branch flagged too. */
  lemma ParentFlagged(flags: Flags, a: Option<Roi>, s: Roi)
    requires Consistent(flags, a) && s.Segment? && IsActive(flags, s)
    ensures IsActive(flags, ParentOf(s))
  {
    assert s in Marked(a);
    assert ParentOf(s) in Marked(a);
  }

  /** `active_segment`: the active ROI when it is a segment. */
  function ActiveSegment(a: Option<Roi>): (s: Option<Roi>)
    ensures s.Some? <==> a.Some? && a.value.Segment?
    ensures s.Some? ==> s == a
  {
    if a.Some? && a.value.Segment? then a else None
  }

  /** `active_branch`: the active branch, or the parent of the active segment. */
  function ActiveBranch(a: Option<Roi>): (b: Option<Roi>)
    ensures b.Some? <==> a.Some? && (a.value.Branch? || a.value.Segment?)
    ensures b.Some? ==> b.value.Branch? && b.value in Marked(a)
    ensures a.Some? && a.value.Segment? ==> b == Some(ParentOf(a.value))
  {
    match a
    case Some(Branch(_)) => a
    case Some(Segment(_, parent)) => Some(Branch(parent))
    case _ => None
  }

  /** `active_polyroi`: the active ROI when it is a polygon. */
  function ActivePolyroi(a: Option<Roi>): (q: Option<Roi>)
    ensures q.Some? <==> a.Some? && a.value.Polygon?
    ensures q.Some? ==> q == a
  {
    if a.Some? && a.value.Polygon? then a else None
  }

  /** `active_pixelroi`: the active ROI when it is a pixel ROI. */
  function ActivePixelroi(a: Option<Roi>): (q: Option<Roi>)
    ensures q.Some? <==> a.Some? && a.value.Pixel?
    ensures q.Some? ==> q == a
  {
    if a.Some? && a.value.Pixel? then a else None
  }

  /** Under the invariant, every view that yields a ROI yields an active one. */
  lemma ViewsAreActive(flags: Flags, a: Option<Roi>)
    requires Consistent(flags, a)
    ensures ActiveBranch(a).Some? ==> IsActive(flags, ActiveBranch(a).value)
    ensures ActiveSegment(a).Some? ==> IsActive(flags, ActiveSegment(a).value)
    ensures ActivePolyroi(a).Some? ==> IsActive(flags, ActivePolyroi(a).value)
    ensures ActivePixelroi(a).Some? ==> IsActive(flags, ActivePixelroi(a).value)
  {
  }

  /** Whether `p` is a segment of the same branch as the segment `s`. */
  predicate SharesParent(s: Roi, p: Option<Roi>)
    requires s.Segment?
  {
    p.Some? && p.value.Segment? && p.value.parent == s.parent
  }

  /**
   * The flags after the `active_roi` setter is given `p` while `before` is
   * active: the old ROI is switched off, the old segment's branch is switched
   * off unless `p` is a segment of that branch, then `p` and, for a segment,
   * its branch are switched on. Assigning the active ROI again changes nothing.
   */
  function Assign(flags: Flags, before: Option<Roi>, p: Option<Roi>): (r: Flags)
    ensures before == p ==> r == flags
    ensures before != p && p.Some? ==> IsActive(r, p.value)
    ensures before != p && p.Some? && p.value.Segment? ==> IsActive(r, ParentOf(p.value))
    ensures before.Some? && before != p && before.value !in Marked(p) ==> !IsActive(r, before.value)
    ensures before.Some? && before != p && before.value.Segment? && ParentOf(before.value) !in Marked(p)
      ==> !IsActive(r, ParentOf(before.value))
    ensures forall x :: x !in Marked(before) && x !in Marked(p) ==> (IsActive(r, x) <==> IsActive(flags, x))
    ensures Consistent(flags, before) ==> Consistent(r, p)
  {
    if before == p then flags
    else
      var cleared := if before.Some? then flags[before.value := false] else flags;
      var detached :=
        if before.Some? && before.value.Segment? && !SharesParent(before.value, p)
        then cleared[ParentOf(before.value) := false] else cleared;
      var selected := if p.Some? then detached[p.value := true] else detached;
      if p.Some? && p.value.Segment? then selected[ParentOf(p.value) := true] else selected
  }

  /** The flags and selection after assigning each of `ps` in turn. */
  function Replay(flags: Flags, a: Option<Roi>, ps: seq<Option<Roi>>): (Flags, Option<Roi>)
    decreases |ps|
  {
    if ps == [] then (flags, a) else Replay(Assign(flags, a, ps[0]), ps[0], ps[1..])
  }

  /** Any sequence of assignments keeps the invariant and ends on the last one assigned. */
  lemma {:induction false} ReplayConsistent(flags: Flags, a: Option<Roi>, ps: seq<Option<Roi>>)
    requires Consistent(flags, a)
    ensures Consistent(Replay(flags, a, ps).0, Replay(flags, a, ps).1)
    ensures ps != [] ==> Replay(flags, a, ps).1 == ps[|ps| - 1]
    decreases |ps|
  {
    if ps != [] {
      ReplayConsistent(Assign(flags, a, ps[0]), ps[0], ps[1..]);
    }
  }

  /** The session starts with nothing selected and no flag set, which is consistent. */
  lemma InitiallyConsistent()
    ensures Consistent(map[], None)
  {
  }
}
