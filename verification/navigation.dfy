/**
 Properties of the viewer's handlers that relate several calls, or a call and
 an independent description of its result: where a step lands, when a stale
 name survives a step, when the refresh tick follows, and where the selection
 goes after a delete.
 */
module Navigation {
  import opened Options
  import opened Folder
  import opened Viewer

  /** In a list without repeated names, a name's first position is its only
      position. */
  lemma IndexOfDistinct(files: seq<string>, i: nat)
    requires Distinct(files)
    requires i < |files|
    ensures IndexOf(files, files[i]) == Some(i)
  {
  }

  /** The start-up state is steady: a tick on the folder it was built from
      changes nothing. */
  lemma StartIsSteady(listing: seq<Entry>)
    ensures Tick(Start(LatestName(listing)), Scan(listing), LatestName(listing)) == Start(LatestName(listing))
  {
  }

  // ---------------------------------------------------------------------------
  // Step
  // ---------------------------------------------------------------------------

  /** From an image found in the list, a step lands on its index plus the step,
      clamped into the list. */
  lemma StepMovesToClampedIndex(st: ViewerState, files: seq<string>, latest: Option<string>, i: nat, step: int)
    requires Distinct(files)
    requires i < |files|
    requires st.current == Some(files[i])
    ensures Step(st, files, latest, step).current == Some(files[Clamp(i + step, |files| - 1)])
  {
    IndexOfDistinct(files, i);
  }

  /** Without a current image, a step starts from the latest image. */
  lemma StepFromNothingStartsAtLatest(st: ViewerState, files: seq<string>, k: nat, step: int)
    requires Distinct(files)
    requires st.current.None?
    requires k < |files|
    ensures Step(st, files, Some(files[k]), step).current == Some(files[Clamp(k + step, |files| - 1)])
  {
    IndexOfDistinct(files, k);
  }

  /** A current name that is no longer in the list survives a step exactly when
      the list has one image or the step is zero; it is then not the latest.
      Otherwise a forward step lands at index `step` counted from the first
      image (never on the first image itself) and a backward step `-step`
      places before the last. */
  lemma StepFromVanishedFile(st: ViewerState, files: seq<string>, latest: Option<string>, step: int)
    requires |files| > 0
    requires st.current.Some? && st.current.value !in files
    ensures Step(st, files, latest, step).current == st.current <==> |files| == 1 || step == 0
    ensures Step(st, files, latest, step).current == st.current ==> !Step(st, files, latest, step).isLatest
    ensures |files| > 1 && step > 0 ==>
              Step(st, files, latest, step).current == Some(files[Clamp(step, |files| - 1)])
    ensures |files| > 1 && step < 0 ==>
              Step(st, files, latest, step).current == Some(files[Clamp(|files| - 1 + step, |files| - 1)])
  {
    assert FromIndex(files, st.current.value, step) == if step > 0 then 0 else |files| - 1;
  }

  /** Stepping forward and then back returns to the same image, except from the
      last image, where the forward step does nothing. */
  lemma StepForwardThenBack(st: ViewerState, files: seq<string>, latest: Option<string>, i: nat)
    requires Distinct(files)
    requires i + 1 < |files|
    requires st.current == Some(files[i])
    ensures Step(Step(st, files, latest, 1), files, latest, -1).current == st.current
  {
    StepMovesToClampedIndex(st, files, latest, i, 1);
    StepMovesToClampedIndex(Step(st, files, latest, 1), files, latest, i + 1, -1);
  }

  lemma StepBackThenForward(st: ViewerState, files: seq<string>, latest: Option<string>, i: nat)
    requires Distinct(files)
    requires 0 < i < |files|
    requires st.current == Some(files[i])
    ensures Step(Step(st, files, latest, -1), files, latest, 1).current == st.current
  {
    StepMovesToClampedIndex(st, files, latest, i, -1);
    StepMovesToClampedIndex(Step(st, files, latest, -1), files, latest, i - 1, 1);
  }

  // ---------------------------------------------------------------------------
  // Refresh tick
  // ---------------------------------------------------------------------------

  /** Once the flag is clear, no tick moves the view. */
  lemma TickWhilePinned(st: ViewerState, files: seq<string>, latest: Option<string>)
    requires !st.isLatest
    ensures Tick(st, files, latest) == st
  {
  }

  /** A second tick on the same scan changes nothing. */
  lemma TickTwice(st: ViewerState, files: seq<string>, latest: Option<string>)
    ensures Tick(Tick(st, files, latest), files, latest) == Tick(st, files, latest)
  {
  }

  /** While following, a tick on one folder shows the last image of its scan
      whenever only one image carries the newest time. */
  lemma TickFollowsNewest(st: ViewerState, listing: seq<Entry>)
    requires DistinctNames(listing)
    requires st.isLatest && |Scan(listing)| > 0
    requires UniqueNewest(ImageFiles(listing))
    ensures Tick(st, Scan(listing), LatestName(listing)).current == Some(Last(Scan(listing)))
    ensures Tick(st, Scan(listing), LatestName(listing)).isLatest
  {
    LatestIsLastIffUniqueNewest(listing);
  }

  // ---------------------------------------------------------------------------
  // Jump
  // ---------------------------------------------------------------------------

  /** Jumping to the last image while pinned keeps the view pinned: no later
      tick, whatever the folder then holds, moves it. */
  lemma JumpToLastStaysPinned(st: ViewerState, files: seq<string>, later: seq<string>, latest: Option<string>)
    requires !st.isLatest
    ensures Tick(Jump(st, files, -1), later, latest) == Jump(st, files, -1)
  {
  }

  /** With the repaired jump, jumping to the last image resumes following: the
      next tick shows whatever is then latest. */
  lemma JumpFollowingResumesFollowing(st: ViewerState, files: seq<string>, later: seq<string>, latest: Option<string>)
    requires |files| > 0 && |later| > 0
    ensures Tick(JumpFollowing(st, files, -1), later, latest).current == latest
  {
  }

  // ---------------------------------------------------------------------------
  // Delete
  // ---------------------------------------------------------------------------

  /** After a confirmed, successful delete of the image at index `i`, the
      selection is index `i` of the rescanned list, or its last index if the
      list got shorter than that, or nothing if it is empty. */
  lemma DeleteSelectsClampedIndex(st: ViewerState, before: seq<string>, after: seq<string>, i: nat)
    requires Distinct(before)
    requires i < |before|
    requires st.current == Some(before[i])
    ensures |after| == 0 ==> Delete(st, before, true, true, after).current.None?
    ensures 0 < |after| ==>
              Delete(st, before, true, true, after).current == Some(after[if i < |after| then i else |after| - 1])
  {
    IndexOfDistinct(before, i);
  }

  /** When the rescan finds the old list minus the deleted image, the selection
      moves to the image that followed it, or to the one before it if it was
      the last, or to nothing if it was the only one. */
  lemma DeleteOfRemainder(st: ViewerState, before: seq<string>, i: nat)
    requires Distinct(before)
    requires i < |before|
    requires st.current == Some(before[i])
    ensures var r := Delete(st, before, true, true, before[..i] + before[i + 1..]);
            && (|before| == 1 ==> r.current.None?)
            && (i + 1 < |before| ==> r.current == Some(before[i + 1]))
            && (1 < |before| && i + 1 == |before| ==> r.current == Some(before[i - 1]))
  {
    var after := before[..i] + before[i + 1..];
    DeleteSelectsClampedIndex(st, before, after, i);
    if i + 1 < |before| {
      assert after[i] == before[i + 1];
    } else if 1 < |before| {
      assert after[i - 1] == before[i - 1];
    }
  }

  /** The same on one folder: trashing the selected file and rescanning selects
      the next image in time order, or the previous one when the newest was
      trashed. */
  lemma DeleteInFolder(st: ViewerState, listing: seq<Entry>, i: nat)
    requires DistinctNames(listing)
    requires i < |Scan(listing)|
    requires st.current == Some(Scan(listing)[i])
    ensures var r := Delete(st, Scan(listing), true, true, Scan(RemoveFirst(listing, ImageFiles(listing)[i])));
            && (|Scan(listing)| == 1 ==> r.current.None?)
            && (i + 1 < |Scan(listing)| ==> r.current == Some(Scan(listing)[i + 1]))
            && (1 < |Scan(listing)| && i + 1 == |Scan(listing)| ==> r.current == Some(Scan(listing)[i - 1]))
  {
    ScanIsDistinct(listing);
    ScanAfterRemoval(listing, i);
    DeleteOfRemainder(st, Scan(listing), i);
  }
}
