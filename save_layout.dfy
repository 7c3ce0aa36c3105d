/**
 * The layout of the HDF5 file written by `save_hdf5`: the file name rule and
 * the ordered list of its explicit creation calls for groups, datasets and
 * attributes. The intermediate groups h5py makes implicitly for a nested path
 * (`pixels/i` of `pixels/i/roi`) are implied by the paths, not listed. Only
 * the structure is modelled, not the array contents.
 */
module SaveLayout {

  /** One component of an HDF5 path; `Index(i)` is the decimal text `str(i)`. */
  datatype Key = Name(name: string) | Index(index: nat)

  type Path = seq<Key>

  /** One creation call on the open file, in the order it is made. */
  datatype Write =
    | Group(path: Path)
    | Dataset(path: Path)
    | Attribute(path: Path, attr: string)

  /** The file name actually opened: ".h5" is appended when there is no '.' in it. */
  function WithSuffix(filename: string): (r: string)
    ensures '.' in r
    ensures filename <= r
    ensures '.' in filename ==> r == filename
    ensures '.' !in filename ==> r == filename + ".h5"
  {
    if '.' !in filename then filename + ".h5" else filename
  }

  /** Applying the suffix rule twice is the same as applying it once. */
  lemma SuffixIdempotent(filename: string)
    ensures WithSuffix(WithSuffix(filename)) == WithSuffix(filename)
  {
  }

  /** The optional `mask` dataset with its `threshold` attribute, then `data`. */
  function Header(withMask: bool, withData: bool): seq<Write>
  {
    (if withMask then [Dataset([Name("mask")]), Attribute([Name("mask")], "threshold")] else [])
    + (if withData then [Dataset([Name("data")])] else [])
  }

  /** The two datasets of the `i`-th pixel, polygon or circle ROI. */
  function RoiEntry(group: string, i: nat): seq<Write>
  {
    [Dataset([Name(group), Index(i), Name("roi")]), Dataset([Name(group), Index(i), Name("trace")])]
  }

  /** The entries of the first `n` ROIs of a group, two per ROI, in index order. */
  function RoiEntries(group: string, n: nat): (r: seq<Write>)
    ensures |r| == 2 * n
  {
    if n == 0 then [] else RoiEntries(group, n - 1) + RoiEntry(group, n - 1)
  }

  function BranchPath(i: nat, leaf: string): Path
  {
    [Name("branches"), Index(i), Name(leaf)]
  }

  function SegmentPath(i: nat, j: nat): Path
  {
    [Name("branches"), Index(i), Name("segments"), Index(j)]
  }

  /** The group of the `j`-th segment of branch `i` and its three datasets. */
  function SegmentEntry(i: nat, j: nat): seq<Write>
  {
    [ Group(SegmentPath(i, j)),
      Dataset(SegmentPath(i, j) + [Name("roi")]),
      Dataset(SegmentPath(i, j) + [Name("outline")]),
      Dataset(SegmentPath(i, j) + [Name("trace")]) ]
  }

  function SegmentEntries(i: nat, m: nat): seq<Write>
  {
    if m == 0 then [] else SegmentEntries(i, m - 1) + SegmentEntry(i, m - 1)
  }

  /** What is written for branch `i` with `m` children before its segments. */
  function BranchHead(i: nat, m: nat): seq<Write>
  {
    [ Group([Name("branches"), Index(i)]),
      Dataset(BranchPath(i, "roi")),
      Dataset(BranchPath(i, "outline")),
      Dataset(BranchPath(i, "trace")) ]
    + (if m > 0 then [Dataset(BranchPath(i, "linescan"))] else [])
    + [Group(BranchPath(i, "segments"))]
  }

  /** Everything one iteration of the branch loop writes for branch `i` with `m` children. */
  function BranchEntry(i: nat, m: nat): seq<Write>
  {
    BranchHead(i, m) + SegmentEntries(i, m)
  }

  /** Everything written for the branches, `childCounts[i]` being the children of branch `i`. */
  function BranchEntries(childCounts: seq<nat>): seq<Write>
  {
    if childCounts == [] then []
    else
      var i := |childCounts| - 1;
      BranchEntries(childCounts[..i]) + BranchEntry(i, childCounts[i])
  }

  /** A top-level group for pixel, polygon or circle ROIs, then their entries. */
  function RoiSection(group: string, n: nat): seq<Write>
  {
    [Group([Name(group)])] + RoiEntries(group, n)
  }

  function Regions(pixels: nat, polygons: nat, circles: nat): seq<Write>
  {
    RoiSection("pixels", pixels) + RoiSection("polygons", polygons) + RoiSection("circles", circles)
  }

  /** The whole sequence of creation calls of one save. */
  function Layout(withMask: bool, withData: bool, pixels: nat, polygons: nat, circles: nat,
                  childCounts: seq<nat>): seq<Write>
  {
    Header(withMask, withData) + Regions(pixels, polygons, circles)
    + [Group([Name("branches")])] + BranchEntries(childCounts)
  }

  /** Where each part of a concatenation grouped as `Layout` groups it starts in it. */
  lemma ConcatParts(a: seq<Write>, b: seq<Write>, c: seq<Write>, d: seq<Write>, e: seq<Write>, f: seq<Write>)
    ensures var r := a + (b + c + d) + e + f;
      && r[..|a|] == a
      && (|b| > 0 ==> r[|a|] == b[0])
      && (|c| > 0 ==> r[|a| + |b|] == c[0])
      && (|d| > 0 ==> r[|a| + |b| + |c|] == d[0])
      && (|e| > 0 ==> r[|a| + |b| + |c| + |d|] == e[0])
      && r[|a| + |b| + |c| + |d| + |e|..] == f
  {
    var r := a + (b + c + d) + e + f;
    assert r == a + (b + (c + (d + (e + f))));
  }

  /** The header: the mask dataset and its threshold attribute when asked for, then the data when asked for. */
  lemma HeaderOrder(withMask: bool, withData: bool)
    ensures var r := Header(withMask, withData);
      && |r| == (if withMask then 2 else 0) + (if withData then 1 else 0)
      && (withMask ==> r[0] == Dataset([Name("mask")]) && r[1] == Attribute([Name("mask")], "threshold"))
      && (withData ==> r[|r| - 1] == Dataset([Name("data")]))
  {
  }

  /**
   * The order of one save: the optional mask with its threshold, then the
   * optional data, then the pixels, polygons and circles groups each followed
   * by their ROIs, then the branches group followed by the branches.
   */
  lemma LayoutOrder(withMask: bool, withData: bool, pixels: nat, polygons: nat, circles: nat,
                    childCounts: seq<nat>)
    ensures var r := Layout(withMask, withData, pixels, polygons, circles, childCounts);
      var h := |Header(withMask, withData)|;
      var rois := 2 * (pixels + polygons + circles);
      && |r| >= h + 4 + rois
      && r[..h] == Header(withMask, withData)
      && r[h] == Group([Name("pixels")])
      && r[h + 1 + 2 * pixels] == Group([Name("polygons")])
      && r[h + 2 + 2 * (pixels + polygons)] == Group([Name("circles")])
      && r[h + 3 + rois] == Group([Name("branches")])
      && r[h + 4 + rois..] == BranchEntries(childCounts)
  {
    var header := Header(withMask, withData);
    var px := RoiSection("pixels", pixels);
    var pg := RoiSection("polygons", polygons);
    var cc := RoiSection("circles", circles);
    var g := [Group([Name("branches")])];
    var b := BranchEntries(childCounts);
    assert |px| == 1 + 2 * pixels && |pg| == 1 + 2 * polygons && |cc| == 1 + 2 * circles;
    ConcatParts(header, px, pg, cc, g, b);
  }

  /** The three ROI groups in order, each followed by two entries per ROI. */
  lemma RegionsOrder(pixels: nat, polygons: nat, circles: nat)
    ensures var r := Regions(pixels, polygons, circles);
      && |r| == 3 + 2 * (pixels + polygons + circles)
      && r[0] == Group([Name("pixels")])
      && r[1 + 2 * pixels] == Group([Name("polygons")])
      && r[2 + 2 * (pixels + polygons)] == Group([Name("circles")])
  {
    var px := RoiSection("pixels", pixels);
    var pg := RoiSection("polygons", polygons);
    var cc := RoiSection("circles", circles);
    var r := px + pg + cc;
    assert r[|px|] == pg[0];
    assert r[|px| + |pg|] == cc[0];
  }

  /** One branch's head: its group, `roi`, `outline`, `trace`, `linescan` iff it has children, then `segments`. */
  lemma BranchHeadOrder(i: nat, m: nat)
    ensures var r := BranchHead(i, m);
      && |r| == (if m > 0 then 6 else 5)
      && r[0] == Group([Name("branches"), Index(i)])
      && r[1..4] == [Dataset(BranchPath(i, "roi")), Dataset(BranchPath(i, "outline")), Dataset(BranchPath(i, "trace"))]
      && r[|r| - 1] == Group(BranchPath(i, "segments"))
      && (Dataset(BranchPath(i, "linescan")) in r <==> m > 0)
  {
  }

  /** Whether `w` lies below the top-level group `top`. */
  predicate Under(w: Write, top: string)
  {
    |w.path| >= 2 && w.path[0] == Name(top)
  }

  lemma {:induction false} RoiEntriesShape(group: string, n: nat, w: Write)
    requires w in RoiEntries(group, n)
    ensures w.Dataset? && |w.path| == 3 && w.path[0] == Name(group)
    ensures w.path[1].Index? && w.path[1].index < n
    ensures w.path[2] == Name("roi") || w.path[2] == Name("trace")
  {
    if w !in RoiEntry(group, n - 1) {
      RoiEntriesShape(group, n - 1, w);
    }
  }

  /** Each of the first `n` ROIs of a group gets its `roi` and `trace` dataset, and nothing else is written there. */
  lemma {:induction false} RoiEntriesExact(group: string, n: nat, i: nat, leaf: string)
    ensures Dataset([Name(group), Index(i), Name(leaf)]) in RoiEntries(group, n)
      <==> i < n && (leaf == "roi" || leaf == "trace")
  {
    var w := Dataset([Name(group), Index(i), Name(leaf)]);
    if w in RoiEntries(group, n) {
      RoiEntriesShape(group, n, w);
    }
    if i < n && (leaf == "roi" || leaf == "trace") {
      if i < n - 1 {
        RoiEntriesExact(group, n - 1, i, leaf);
      } else {
        assert w in RoiEntry(group, n - 1);
      }
    }
  }

  lemma {:induction false} SegmentEntriesShape(i: nat, m: nat, w: Write)
    ensures w in SegmentEntries(i, m) ==>
      && |w.path| >= 4 && w.path[0] == Name("branches") && w.path[1] == Index(i)
      && w.path[2] == Name("segments") && w.path[3].Index? && w.path[3].index < m
  {
    if m > 0 {
      SegmentEntriesShape(i, m - 1, w);
    }
  }

  lemma BranchHeadShape(i: nat, m: nat, w: Write)
    ensures w in BranchHead(i, m) ==> Under(w, "branches") && w.path[1] == Index(i)
  {
  }

  lemma {:induction false} SegmentEntriesExact(i: nat, m: nat, j: nat, leaf: string)
    ensures Dataset(SegmentPath(i, j) + [Name(leaf)]) in SegmentEntries(i, m)
      <==> j < m && (leaf == "roi" || leaf == "outline" || leaf == "trace")
  {
    var w := Dataset(SegmentPath(i, j) + [Name(leaf)]);
    if m > 0 {
      SegmentEntriesExact(i, m - 1, j, leaf);
      if w in SegmentEntry(i, m - 1) {
        assert w.path[3] == Index(j) && w.path[4] == Name(leaf);
      }
      if j == m - 1 && (leaf == "roi" || leaf == "outline" || leaf == "trace") {
        assert w in SegmentEntry(i, m - 1);
      }
    }
  }

  lemma {:induction false} BranchEntriesShape(childCounts: seq<nat>, w: Write)
    ensures w in BranchEntries(childCounts) ==>
      Under(w, "branches") && w.path[1].Index? && w.path[1].index < |childCounts|
  {
    if childCounts != [] {
      var i := |childCounts| - 1;
      BranchEntriesShape(childCounts[..i], w);
      BranchHeadShape(i, childCounts[i], w);
      SegmentEntriesShape(i, childCounts[i], w);
    }
  }

  /** Below `branches/i` exactly what the `i`-th branch's iteration writes is found. */
  lemma {:induction false} BranchEntriesAt(childCounts: seq<nat>, i: nat, w: Write)
    requires Under(w, "branches") && w.path[1] == Index(i)
    ensures w in BranchEntries(childCounts) <==>
      i < |childCounts| && (w in BranchHead(i, childCounts[i]) || w in SegmentEntries(i, childCounts[i]))
  {
    if childCounts != [] {
      var k := |childCounts| - 1;
      var prefix := childCounts[..k];
      BranchEntriesAt(prefix, i, w);
      BranchEntriesShape(prefix, w);
      BranchHeadShape(k, childCounts[k], w);
      SegmentEntriesShape(k, childCounts[k], w);
      if i < k {
        assert prefix[i] == childCounts[i];
      }
    }
  }

  lemma RoiSectionShape(group: string, n: nat, w: Write)
    requires w in RoiSection(group, n)
    ensures |w.path| >= 1 && w.path[0] == Name(group)
    ensures |w.path| >= 2 ==> w in RoiEntries(group, n)
  {
    if w in RoiEntries(group, n) {
      RoiEntriesShape(group, n, w);
    }
  }

  lemma RegionsShape(pixels: nat, polygons: nat, circles: nat, w: Write)
    requires w in Regions(pixels, polygons, circles)
    ensures |w.path| >= 1 && (w.path[0] == Name("pixels") || w.path[0] == Name("polygons") || w.path[0] == Name("circles"))
  {
    if w in RoiSection("pixels", pixels) {
      RoiSectionShape("pixels", pixels, w);
    } else if w in RoiSection("polygons", polygons) {
      RoiSectionShape("polygons", polygons, w);
    } else {
      RoiSectionShape("circles", circles, w);
    }
  }

  /** Below `branches` the layout holds exactly the branch iterations' writes. */
  lemma LayoutBranches(withMask: bool, withData: bool, pixels: nat, polygons: nat, circles: nat,
                       childCounts: seq<nat>, w: Write)
    requires Under(w, "branches")
    ensures w in Layout(withMask, withData, pixels, polygons, circles, childCounts)
      <==> w in BranchEntries(childCounts)
  {
    if w in Regions(pixels, polygons, circles) {
      RegionsShape(pixels, polygons, circles, w);
    }
  }

  /** Below a ROI group the layout holds exactly that group's entries. */
  lemma LayoutRois(withMask: bool, withData: bool, pixels: nat, polygons: nat, circles: nat,
                   childCounts: seq<nat>, w: Write)
    requires |w.path| >= 2
    ensures w.path[0] == Name("pixels") ==>
      (w in Layout(withMask, withData, pixels, polygons, circles, childCounts) <==> w in RoiEntries("pixels", pixels))
    ensures w.path[0] == Name("polygons") ==>
      (w in Layout(withMask, withData, pixels, polygons, circles, childCounts) <==> w in RoiEntries("polygons", polygons))
    ensures w.path[0] == Name("circles") ==>
      (w in Layout(withMask, withData, pixels, polygons, circles, childCounts) <==> w in RoiEntries("circles", circles))
  {
    if w in RoiSection("pixels", pixels) { RoiSectionShape("pixels", pixels, w); }
    if w in RoiSection("polygons", polygons) { RoiSectionShape("polygons", polygons, w); }
    if w in RoiSection("circles", circles) { RoiSectionShape("circles", circles, w); }
    BranchEntriesShape(childCounts, w);
  }

  /** The mask and its threshold are written iff asked for; so is the raw data. */
  lemma HeaderIff(withMask: bool, withData: bool, pixels: nat, polygons: nat, circles: nat,
                  childCounts: seq<nat>)
    ensures Dataset([Name("mask")]) in Layout(withMask, withData, pixels, polygons, circles, childCounts)
      <==> withMask
    ensures Attribute([Name("mask")], "threshold") in Layout(withMask, withData, pixels, polygons, circles, childCounts)
      <==> withMask
    ensures Dataset([Name("data")]) in Layout(withMask, withData, pixels, polygons, circles, childCounts)
      <==> withData
  {
    var regions := Regions(pixels, polygons, circles);
    if Dataset([Name("mask")]) in regions { RegionsShape(pixels, polygons, circles, Dataset([Name("mask")])); }
    if Attribute([Name("mask")], "threshold") in regions { RegionsShape(pixels, polygons, circles, Attribute([Name("mask")], "threshold")); }
    if Dataset([Name("data")]) in regions { RegionsShape(pixels, polygons, circles, Dataset([Name("data")])); }
    BranchEntriesShape(childCounts, Dataset([Name("mask")]));
    BranchEntriesShape(childCounts, Attribute([Name("mask")], "threshold"));
    BranchEntriesShape(childCounts, Dataset([Name("data")]));
  }

  /** The `i`-th pixel ROI's datasets are written iff there are more than `i` pixel ROIs. */
  lemma PixelsWritten(withMask: bool, withData: bool, pixels: nat, polygons: nat, circles: nat,
                      childCounts: seq<nat>, i: nat)
    ensures Dataset([Name("pixels"), Index(i), Name("roi")]) in Layout(withMask, withData, pixels, polygons, circles, childCounts)
      <==> i < pixels
    ensures Dataset([Name("pixels"), Index(i), Name("trace")]) in Layout(withMask, withData, pixels, polygons, circles, childCounts)
      <==> i < pixels
  {
    LayoutRois(withMask, withData, pixels, polygons, circles, childCounts, Dataset([Name("pixels"), Index(i), Name("roi")]));
    LayoutRois(withMask, withData, pixels, polygons, circles, childCounts, Dataset([Name("pixels"), Index(i), Name("trace")]));
    RoiEntriesExact("pixels", pixels, i, "roi");
    RoiEntriesExact("pixels", pixels, i, "trace");
  }

  /** The `i`-th polygon's datasets are written iff there are more than `i` polygons. */
  lemma PolygonsWritten(withMask: bool, withData: bool, pixels: nat, polygons: nat, circles: nat,
                        childCounts: seq<nat>, i: nat)
    ensures Dataset([Name("polygons"), Index(i), Name("roi")]) in Layout(withMask, withData, pixels, polygons, circles, childCounts)
      <==> i < polygons
    ensures Dataset([Name("polygons"), Index(i), Name("trace")]) in Layout(withMask, withData, pixels, polygons, circles, childCounts)
      <==> i < polygons
  {
    LayoutRois(withMask, withData, pixels, polygons, circles, childCounts, Dataset([Name("polygons"), Index(i), Name("roi")]));
    LayoutRois(withMask, withData, pixels, polygons, circles, childCounts, Dataset([Name("polygons"), Index(i), Name("trace")]));
    RoiEntriesExact("polygons", polygons, i, "roi");
    RoiEntriesExact("polygons", polygons, i, "trace");
  }

  /** Every branch gets its group, `roi`, `outline`, `trace` and `segments` group. */
  lemma BranchWritten(withMask: bool, withData: bool, pixels: nat, polygons: nat, circles: nat,
                      childCounts: seq<nat>, i: nat)
    requires i < |childCounts|
    ensures Group([Name("branches"), Index(i)]) in Layout(withMask, withData, pixels, polygons, circles, childCounts)
    ensures Dataset(BranchPath(i, "roi")) in Layout(withMask, withData, pixels, polygons, circles, childCounts)
    ensures Dataset(BranchPath(i, "outline")) in Layout(withMask, withData, pixels, polygons, circles, childCounts)
    ensures Dataset(BranchPath(i, "trace")) in Layout(withMask, withData, pixels, polygons, circles, childCounts)
    ensures Group(BranchPath(i, "segments")) in Layout(withMask, withData, pixels, polygons, circles, childCounts)
  {
    var head := BranchHead(i, childCounts[i]);
    assert Group([Name("branches"), Index(i)]) in head;
    assert Dataset(BranchPath(i, "roi")) in head;
    assert Dataset(BranchPath(i, "outline")) in head;
    assert Dataset(BranchPath(i, "trace")) in head;
    assert Group(BranchPath(i, "segments")) in head;
    BranchEntriesAt(childCounts, i, Group([Name("branches"), Index(i)]));
    BranchEntriesAt(childCounts, i, Dataset(BranchPath(i, "roi")));
    BranchEntriesAt(childCounts, i, Dataset(BranchPath(i, "outline")));
    BranchEntriesAt(childCounts, i, Dataset(BranchPath(i, "trace")));
    BranchEntriesAt(childCounts, i, Group(BranchPath(i, "segments")));
    LayoutBranches(withMask, withData, pixels, polygons, circles, childCounts, Group([Name("branches"), Index(i)]));
    LayoutBranches(withMask, withData, pixels, polygons, circles, childCounts, Dataset(BranchPath(i, "roi")));
    LayoutBranches(withMask, withData, pixels, polygons, circles, childCounts, Dataset(BranchPath(i, "outline")));
    LayoutBranches(withMask, withData, pixels, polygons, circles, childCounts, Dataset(BranchPath(i, "trace")));
    LayoutBranches(withMask, withData, pixels, polygons, circles, childCounts, Group(BranchPath(i, "segments")));
  }

  /** A branch's `linescan` is written iff the branch exists and has at least one child. */
  lemma LinescanIff(withMask: bool, withData: bool, pixels: nat, polygons: nat, circles: nat,
                    childCounts: seq<nat>, i: nat)
    ensures Dataset(BranchPath(i, "linescan")) in Layout(withMask, withData, pixels, polygons, circles, childCounts)
      <==> i < |childCounts| && childCounts[i] > 0
  {
    var w := Dataset(BranchPath(i, "linescan"));
    LayoutBranches(withMask, withData, pixels, polygons, circles, childCounts, w);
    BranchEntriesAt(childCounts, i, w);
    if i < |childCounts| {
      SegmentEntriesShape(i, childCounts[i], w);
    }
    if i < |childCounts| && childCounts[i] > 0 {
      assert w in BranchHead(i, childCounts[i]);
    }
  }

  /** Segment `j` of branch `i` gets `roi`, `outline` and `trace` iff the branch has more than `j` children. */
  lemma SegmentWritten(withMask: bool, withData: bool, pixels: nat, polygons: nat, circles: nat,
                       childCounts: seq<nat>, i: nat, j: nat, leaf: string)
    requires leaf == "roi" || leaf == "outline" || leaf == "trace"
    ensures Dataset(SegmentPath(i, j) + [Name(leaf)]) in Layout(withMask, withData, pixels, polygons, circles, childCounts)
      <==> i < |childCounts| && j < childCounts[i]
  {
    var w := Dataset(SegmentPath(i, j) + [Name(leaf)]);
    LayoutBranches(withMask, withData, pixels, polygons, circles, childCounts, w);
    BranchEntriesAt(childCounts, i, w);
    if i < |childCounts| {
      SegmentEntriesExact(i, childCounts[i], j, leaf);
    }
  }
}
