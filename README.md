# Dendrite segmentation tool: the ROI session model

SamuROI's `DendriteSegmentationTool` keeps a session of regions of interest (ROIs) over a 3D
calcium-imaging data set. There are three collections of ROIs: the branches loaded from the
skeleton file, freehand polygon ROIs, and pixel ROIs. Each collection is a cyclic list with a
cursor. At most one ROI is active at a time. When the active ROI is a segment of a branch, its
parent branch is flagged active too. The tool pages through the collections; splits branches
into segments and splits or joins segments; adds and removes ROIs; holds an active frame and a
threshold whose mask invalidates the shared trace cache; and saves the session to an HDF5 file
with a fixed layout.

This Dafny project models that session:

- `options.dfy` — the `Option` type.
- `selection.dfy` (module `Selection`):
  - the ROI kinds and the per-ROI `active` flags;
  - the derived views `active_segment`, `active_branch`, `active_polyroi` and `active_pixelroi`;
  - the `active_roi` setter, as a function on the flags;
  - the invariant: the ROIs flagged active are exactly the active ROI plus, for a segment, its
    parent branch.
- `cyclic_list.dfy` (module `CyclicLists`) — `bicyclelist` as a class with an item sequence and
  a cursor, plus the ring arithmetic its paging and removal rest on.
- `save_layout.dfy` (module `SaveLayout`) — the file-name rule and the ordered list of groups,
  datasets and attributes that `save_hdf5` creates by explicit creation calls, with lemmas that
  say exactly which of those calls a save makes. Intermediate groups that h5py creates implicitly
  (such as `pixels/i` for `pixels/i/roi`) are implied by the paths and not listed.
- `segmentation.dfy` (module `Segmentation`) — the tool itself, as the class
  `SegmentationTool`:
  - fields: the three lists, the children of every branch, the active ROI, the flags, the frame,
    the threshold and mask, and the trace cache;
  - one method per command;
  - every method keeps the invariant `Valid()` and states its new state in terms of the
    functions above;
  - under `Valid()` no list and no child list holds a ROI twice, and every ROI (listed, a
    child, a branch owning children, the active ROI and an active segment's parent) is numbered
    below `nextId`, so each ROI a command creates is new, childless and not yet active.

## Model

| member | source | states |
|---|---|---|
| Selection.Assign | segmentation.py:169-203 | Re-assigning the active ROI changes no flag. Otherwise the new ROI is switched on, and so is its parent branch when it is a segment. The old ROI is switched off unless it stays marked. The old segment's branch is switched off unless the new ROI is a segment of the same branch. Every other flag is unchanged. The single-selection invariant is preserved. |
| Selection.ParentFlagged | segmentation.py:169-203 | Under the invariant, a flagged segment always has its parent branch flagged too. |
| Selection.Exclusive | segmentation.py:169-203 | Under the invariant, two distinct active ROIs can only be a segment and its parent branch. |
| Selection.ReplayConsistent | segmentation.py:169-203 | Any sequence of assignments keeps the invariant, and the selection ends on the last ROI assigned. |
| Selection.InitiallyConsistent | segmentation.py:120-132 | The initial state (nothing selected, no flags set) satisfies the invariant. |
| Selection.ActiveSegment | segmentation.py:135-140 | Yields a ROI iff the active ROI is a segment, and then yields that segment. |
| Selection.ActiveBranch | segmentation.py:142-149 | Yields a ROI iff the active ROI is a branch or a segment. The result is that branch, or the segment's parent, and it is always a marked branch. |
| Selection.ActivePolyroi | segmentation.py:151-156 | Yields a ROI iff the active ROI is a polygon, and then yields that polygon. |
| Selection.ActivePixelroi | segmentation.py:158-163 | Yields a ROI iff the active ROI is a pixel ROI, and then yields that ROI. |
| Selection.ViewsAreActive | segmentation.py:135-163 | Under the invariant, every ROI one of the views returns carries the active flag. |
| CyclicLists.Pred | segmentation.py:92-110 | Stepping back stays in range and is undone by stepping forward. |
| CyclicLists.PredUndoesSucc | segmentation.py:88-110 | Stepping forward and then back returns to the same cursor. |
| CyclicLists.Succ | segmentation.py:88-102 | Stepping forward stays in range and is the cursor plus one, modulo the list length. |
| CyclicLists.AdvanceOffset | segmentation.py:88-102 | Up to one full turn, k forward steps add k to the cursor modulo the list length. |
| CyclicLists.FullTurn | segmentation.py:88-102 | Paging forward as many times as there are items returns to the starting item. |
| CyclicLists.IndexOf | segmentation.py:260 | Gives the first index holding the element: that index holds it, and no earlier one does. |
| CyclicLists.Without | segmentation.py:488 | Removing index k keeps the items before k, shifts the items after k down by one, and adds nothing new. |
| CyclicLists.WithoutDistinct | segmentation.py:488 | Removing an item from a duplicate-free list leaves it duplicate-free, and the item is then absent. |
| CyclicLists.AppendDistinct | segmentation.py:466 | Appending an item not yet present keeps the list duplicate-free. |
| CyclicLists.CursorAfterRemoval | segmentation.py:488-489 | After a removal the cursor is in range of the shorter list, or 0 when the list became empty. |
| CyclicLists.RemovalKeepsCurrent | segmentation.py:488-489 | Removing any other item leaves the cursor on the same item. |
| CyclicLists.RemovalAdvances | segmentation.py:488-489 | Removing the current item moves the cursor to that item's former successor. |
| CyclicLists.CyclicList.Cur | segmentation.py:489 | Returns None iff the list is empty, and otherwise the item under the cursor. |
| CyclicLists.CyclicList.constructor | segmentation.py:373-379 | A fresh list is empty and its cursor is 0. The first `next()` therefore reaches index 0 only on a one-item list, and index 1 on longer ones. |
| CyclicLists.CyclicList.Append | segmentation.py:466 | Adds the item at the end. |
| CyclicLists.CyclicList.Remove | segmentation.py:488 | Reports success iff the item was present. On success the first occurrence is removed and the cursor moves as `CursorAfterRemoval` says; a duplicate-free list then no longer holds the item. Otherwise nothing changes. |
| CyclicLists.CyclicList.Next | segmentation.py:88-90 | The cursor moves to its successor, and the item there is returned. |
| CyclicLists.CyclicList.Prev | segmentation.py:92-94 | The cursor moves to its predecessor, and the item there is returned. |
| Segmentation.ActiveOf | segmentation.py:481-498 | The active ROI of the collection's kind: one of the three views, always a marked ROI. |
| Segmentation.FreshSegments | segmentation.py:262 | The new segments of a split: as many as asked for, all children of the branch, pairwise distinct, and numbered from the next free number. |
| Segmentation.Replace | segmentation.py:260-264 | Splicing new segments into a child list keeps the prefix and the shifted suffix, and keeps the list made of segments of that branch. |
| Segmentation.ReplaceDistinct | segmentation.py:260-264 | Splicing fresh segments into a duplicate-free child list keeps it duplicate-free, and the replaced segments are gone. |
| Segmentation.ChildCounts | segmentation.py:641-654 | One entry per branch, in order: the length of that branch's child list. |
| Segmentation.LongBranches | segmentation.py:383-386 | The number of skeleton branches kept is at most the number given. |
| Segmentation.LongBranchesCount | segmentation.py:383-386 | Only branches with more than one point are kept: all when every one has, none when none has, and at least one when one has. |
| Segmentation.SegmentationTool.constructor | segmentation.py:367-423 | The frame is 0; the threshold and mask are stored; the cache is empty. Every skeleton branch with more than one point becomes a branch ROI, numbered in order. The other lists and all children are empty. The first `next_branch` selects `Branch(0)` when there is one branch and `Branch(1)` when there are more. |
| Segmentation.SegmentationTool.LoadSkeleton | segmentation.py:383-386 | The constructor's loop: the branch list becomes the branches numbered 0 up to the number of skeleton branches with more than one point, and the invariant is kept. |
| Segmentation.SegmentationTool.SetActiveRoi | segmentation.py:169-203 | The active ROI becomes p. The flags become `Assign` of the old flags, so the invariant is kept. |
| Segmentation.SegmentationTool.Page | segmentation.py:88-110 | On an empty collection nothing changes. Otherwise the cursor steps forward or back, the item reached becomes active, and the flags follow `Assign`. |
| Segmentation.SegmentationTool.StepSegment | segmentation.py:112-118 | With no active branch nothing changes. Otherwise the neighbour the branch returns becomes active. |
| Segmentation.SegmentationTool.SetActiveFrame | segmentation.py:206-213 | A frame outside [0, frames) fails and nothing changes. A frame in range becomes the active frame. |
| Segmentation.SegmentationTool.SetThreshold | segmentation.py:43-62 | The threshold and its mask are stored, and the trace cache is emptied. |
| Segmentation.SegmentationTool.ToggleFilter | segmentation.py:446-449 | The trace cache is emptied. |
| Segmentation.SegmentationTool.AddBranchroi | segmentation.py:459-467 | A new branch, absent from the list before, is appended; it has no children and is not flagged active, and the selection is untouched. |
| Segmentation.SegmentationTool.AddPolyroi | segmentation.py:469-473 | A new polygon, absent from the list before, is appended and becomes the active ROI, which it was not before, so the flags change as `Assign` says for a new selection. |
| Segmentation.SegmentationTool.AddPixelroi | segmentation.py:475-479 | A new pixel ROI, absent from the list before, is appended and becomes the active ROI, which it was not before, so the flags change as `Assign` says for a new selection. |
| Segmentation.SegmentationTool.Detach | segmentation.py:487 | The removed ROI's cached trace is dropped. |
| Segmentation.SegmentationTool.RemoveRegion | segmentation.py:481-498 | Removes the given ROI, or else the active ROI of the collection's kind. With neither, nothing changes. A ROI absent from the list fails after being detached. Otherwise its first occurrence is removed, the ROI is gone from the list, the cursor moves as `CursorAfterRemoval` says, and the list's current item is selected even if another ROI was active. |
| Segmentation.SegmentationTool.Withdraw | segmentation.py:487-498 | A ROI held by a polygon or pixel list leaves it: the first occurrence goes, the cursor moves as `CursorAfterRemoval` says, the ROI is no longer in the list, the list's current item is selected, and the invariant is kept. |
| Segmentation.SegmentationTool.RemoveBranch | segmentation.py:500-508 | Removes the given or active branch; it is then gone from the list and the cursor moves as `CursorAfterRemoval` says. A new branch is selected only when the removed branch itself was the active ROI. When one of its segments was active, the selection stays on that segment. |
| Segmentation.SegmentationTool.RemoveRoi | segmentation.py:510-522 | Outcome is Done iff the ROI is in some collection. Only the first collection holding it is changed: the ROI is gone from it and its cursor moves as `CursorAfterRemoval` says. The selection becomes None iff the ROI was the active one. An unmanaged ROI fails with nothing changed. |
| Segmentation.SegmentationTool.SplitBranch | segmentation.py:237-249 | The given or active branch is split only when it is managed. With no branch the command fails. If the branch is active, its first child becomes active, or the command fails when it has none. Otherwise the selection is kept. |
| Segmentation.SegmentationTool.Resegment | segmentation.py:246-247 | A managed branch's children become the requested number of new segments, its numbers are used up, and the invariant is kept. |
| Segmentation.SegmentationTool.SplitBranches | segmentation.py:231-235 | Every managed branch ends up with children: the k-th has exactly `pieces[k]` of them, all numbered from the old `nextId` on, so none of its old children remain. Branches outside the list keep theirs. The active branch stays the active branch. If that branch is managed, its first child is selected. |
| Segmentation.SegmentationTool.SplitOne | segmentation.py:233-234 | One iteration for a managed branch: its children become the requested number of fresh segments numbered from `nextId`, `nextId` moves past them, and no other branch's children change. The active branch stays the same, and its first child is selected iff that branch was the one split. |
| Segmentation.SplitUpToStep | segmentation.py:233-234 | Splitting the next branch, into segments numbered from a point at least the start, extends "the first k branches have their requested number of new segments" to k + 1, given distinct branch numbers. |
| Segmentation.SegmentationTool.SplitSegment | segmentation.py:251-264 | With no segment nothing changes. A segment missing from its parent's children fails. Otherwise the segment is replaced in place by new parts that were absent before, and the old segment is gone. If the parent is active, the new segment at the old index becomes active. |
| Segmentation.SegmentationTool.JoinSegments | segmentation.py:266-283 | With no segment nothing changes. A segment missing from its parent's children fails, and so does a missing neighbour. Otherwise the two siblings become one new segment at the lower index; both siblings are gone and the joined segment was absent before. If the parent is active, the joined segment becomes active. |
| Segmentation.SegmentationTool.Merge | segmentation.py:280-284 | Two adjacent children of a branch become one new segment at the lower index: both are gone, the new one was absent, and it is selected iff the parent branch is active. The invariant is kept. |
| Segmentation.SegmentationTool.Splice | segmentation.py:262-264 | The child list of one branch is spliced with fresh segments: the invariant is kept, the replaced children are gone and the inserted ones were absent. |
| Segmentation.SegmentationTool.EnumerateRois | segmentation.py:626-639 | One group loop writes the group, then the roi and trace datasets of every index in order. |
| Segmentation.SegmentationTool.WriteBranch | segmentation.py:642-654 | Writes one branch's entries, with linescan only when the branch has children, then each segment's group and datasets. |
| Segmentation.SegmentationTool.EnumerateBranches | segmentation.py:641-654 | Writes the entries of every branch in order, sized by its child count. |
| Segmentation.SegmentationTool.SaveHdf5 | segmentation.py:576-654 | The file opened has the name the suffix rule gives. The entries written are exactly the layout for the current pixel, polygon and branch lists (no circles). |
| SaveLayout.WithSuffix | segmentation.py:616-617 | The name opened always contains '.', extends the given name, and is the given name iff that already has a '.'. |
| SaveLayout.SuffixIdempotent | segmentation.py:616-617 | Applying the suffix rule twice gives the same name as applying it once. |
| SaveLayout.HeaderOrder | segmentation.py:620-624 | The header holds the mask dataset and then its threshold attribute when the mask is asked for, and ends with the data dataset when the data is asked for. |
| SaveLayout.LayoutOrder | segmentation.py:620-654 | The creation order of a save: the header first, then the pixels, polygons and circles groups at the positions two entries per ROI give, then the branches group followed by the branch entries. |
| SaveLayout.RegionsOrder | segmentation.py:626-639 | The pixels, polygons and circles groups come in that order, each followed by two entries per ROI. |
| SaveLayout.BranchHeadOrder | segmentation.py:642-649 | A branch writes its group, then roi, outline and trace, then linescan iff it has children, then its segments group. |
| SaveLayout.RoiEntriesExact | segmentation.py:626-639 | A ROI group holds the roi and trace datasets of index i iff i is below the number of ROIs. |
| SaveLayout.SegmentEntriesExact | segmentation.py:650-654 | A branch's segment entries hold segment j's datasets iff j is below its child count. |
| SaveLayout.HeaderIff | segmentation.py:620-624 | The mask dataset and its threshold attribute are written iff the mask is requested. The data dataset is written iff the data is requested. |
| SaveLayout.PixelsWritten | segmentation.py:626-629 | `pixels/i/roi` and `pixels/i/trace` are written iff there are more than i pixel ROIs. |
| SaveLayout.PolygonsWritten | segmentation.py:631-634 | `polygons/i/roi` and `polygons/i/trace` are written iff there are more than i polygons. |
| SaveLayout.BranchWritten | segmentation.py:641-649 | Every branch gets its group, roi, outline and trace datasets, and its segments group. |
| SaveLayout.LinescanIff | segmentation.py:647-648 | `branches/i/linescan` is written iff branch i exists and has at least one child. |
| SaveLayout.SegmentWritten | segmentation.py:650-654 | Segment j's roi, outline and trace of branch i are written iff branch i exists and has more than j children. |

## Left out

- The watershed computation of the mask (skimage) is left out: the threshold setter takes the mask as a parameter.
- Figure layout, colour bars, image and overlay drawing, `disable_draw` and canvas redraws are left out. They do not change the session state.
- The overlay (`show_overlay`, `toggle_overlay`), the hold buttons and `toggle_hold` are left out. They are presentation only.
- The key, click and pick event handlers and the toolbars are left out. They are UI wiring that calls the modelled commands.
- Trace post-processing (`post_apply`: detrending and smoothing) is left out. It is floating-point signal processing.
- `load_hdf5` and the h5py file I/O are left out. `save_hdf5` is modelled as the file name and the ordered list of creations, without the array contents.
- The ROI classes (BranchRoi, SegmentRoi, PolygonRoi, PixelRoi, Roi) are not part of this model:
  - their geometry decides how many pieces a split makes, so `SplitBranch`, `SplitBranches` and `SplitSegment` take that number as a parameter of at least 1;
  - their own errors for a non-positive length or part count are not modelled;
  - `BranchRoi.next_segment`/`previous_segment` are given to `StepSegment` as its `neighbour` parameter;
  - `roi.remove()` is modelled only as dropping the ROI's cached trace;
  - `BranchRoi.split` is assumed to replace all of the branch's children by fresh segments (`Resegment`);
  - `SegmentRoi.split` is assumed to replace that one segment, at its index, by the fresh parts (`SplitSegment` via `Splice`);
  - `SegmentRoi.join` is assumed to replace the segment and its neighbour by one fresh segment at the lower of the two indices (`Merge`).
- `bicyclelist` (from `dumb.util`) is not part of this model. `CyclicList` assumes the following:
  - a fresh list has its cursor at 0;
  - `next`/`prev` step cyclically and then return the item;
  - `cur()` returns nothing on an empty list;
  - `remove` takes the first occurrence, and the cursor keeps its item or moves to the removed item's successor;
  - `append` adds at the end and leaves the cursor where it was;
  - iterating over the list (`for b in self.branches` in `split_branches`) visits the items in order and does not move the cursor.
- Segmentation.SegmentationTool.constructor: requires at least one frame, since setting `active_frame = 0` raises otherwise. The data array is reduced to its frame count, and the skeleton to the point count of each branch.
- Segmentation.SegmentationTool.constructor: the source's comment says the closing `next_branch` selects the first branch, but with a fresh cursor at 0 the model's first step goes to `Branch(1)` whenever there are two or more branches. Which branch is really selected depends on `bicyclelist`'s starting cursor, which is not part of this model.
- CyclicLists.CyclicList.constructor: the starting cursor 0 is an assumption about `bicyclelist`; with it, the first `next()` skips the first item of a list of two or more.
- Segmentation.SegmentationTool.SetActiveRoi: requires the new ROI to be numbered below `nextId` (a segment's parent too), because every ROI the tool selects is one it already holds. `StepSegment` requires the same of its `neighbour`, which stands for a child of the active branch.
- Segmentation.SegmentationTool.SplitSegment: does not model the trace-cache entries that the new and replaced segments gain or lose.
- Segmentation.SegmentationTool.JoinSegments: does not model the trace-cache entries that the new and replaced segments gain or lose.
- Segmentation.SegmentationTool.SaveHdf5: `circlerois` is never set by this class, so the circles group is written empty.
- Segmentation.SegmentationTool.SetThreshold: the setter clears `PolygonRoi.tracecache` and `toggle_filter` clears `Roi.tracecache`. The model treats both as one shared cache, which assumes `PolygonRoi` inherits that class attribute from `Roi` without rebinding it.
- Default arguments are not modelled as defaults: `parts = 2` of `split_segment`, `next = True` of `join_segments`, and `mask = True`, `data = False` of `save_hdf5` are parameters the caller always passes.
- Segmentation.SegmentationTool.JoinSegments: `join_segments` never looks the segment up itself. The `NotAChild` and `NoNeighbour` failures are assumptions about the hidden `SegmentRoi.join`, which is not part of this model.
- `gui/main.py` (the launcher) is not part of this model.
