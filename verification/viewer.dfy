/**
 The navigation state machine of the viewer: the start-up state, the step and
 jump handlers, the zoom reset, the follow-latest refresh tick and the
 delete-and-reselect handler.

 Every handler is a pure transition from the viewer state and what it read
 from the folder to the next viewer state. A handler that calls both
 `get_image_files` and `find_latest_image` scans the folder twice, so it
 receives both results, `files` and `latest`, as separate parameters; for one
 unchanged folder they are `Scan(listing)` and `LatestName(listing)`. What the
 handlers learn from the outside world (the confirmation dialog, the trash
 call) also arrives as parameters. Drawing the image is left out: it changes
 no state.
 */
module Viewer {
  import opened Options

  /** The fields of the viewer the handlers read and write. `current` is the
      displayed file's name (the source keeps the folder joined with it);
      `isLatest` is the follow-latest flag; `manualNav` is set by jumps and read
      nowhere. */
  datatype ViewerState = ViewerState(
    current: Option<string>,
    isLatest: bool,
    manualNav: bool,
    zoomLevel: real,
    userHasZoomed: bool)

  function Last(s: seq<string>): string
    requires |s| > 0
  {
    s[|s| - 1]
  }

  /** The constructor's fields followed by `start_viewing`: show the latest
      image, if any, and follow new ones. */
  function Start(latest: Option<string>): (st: ViewerState)
    ensures st.current == latest
    ensures st.isLatest && !st.manualNav
    ensures st.zoomLevel == 1.0 && !st.userHasZoomed
  {
    ViewerState(latest, true, false, 1.0, false)
  }

  /** `reset_zoom`, state part: back to 100% and not zoomed by the user. */
  function ResetZoom(st: ViewerState): (r: ViewerState)
    ensures r.zoomLevel == 1.0 && !r.userHasZoomed
    ensures r.current == st.current && r.isLatest == st.isLatest && r.manualNav == st.manualNav
  {
    st.(zoomLevel := 1.0, userHasZoomed := false)
  }

  /** `max(0, min(x, hi))`. */
  function Clamp(x: int, hi: nat): (r: nat)
    ensures r <= hi
    ensures 0 <= x <= hi ==> r == x
    ensures x < 0 ==> r == 0
    ensures x > hi ==> r == hi
  {
    var m := if x < hi then x else hi;
    if 0 > m then 0 else m
  }

  /** `list.index`: the first position of `n`, or None where Python raises
      ValueError. */
  function IndexOf(names: seq<string>, n: string): (r: Option<nat>)
    ensures r.None? <==> n !in names
    ensures r.Some? ==> r.value < |names| && names[r.value] == n
    ensures r.Some? ==> forall j :: 0 <= j < r.value ==> names[j] != n
  {
    if |names| == 0 then None
    else if names[0] == n then Some(0)
    else
      match IndexOf(names[1..], n)
      case None => None
      case Some(i) => Some(i + 1)
  }

  /** The index `change_image` moves from: the position of `name`, or, when the
      lookup raises ValueError, the first index for a forward step and the last
      otherwise. */
  function FromIndex(files: seq<string>, name: string, step: int): (i: nat)
    requires |files| > 0
    ensures i < |files|
    ensures name in files ==> files[i] == name
    ensures name !in files ==> i == if step > 0 then 0 else |files| - 1
  {
    match IndexOf(files, name)
    case Some(i) => i
    case None => if step > 0 then 0 else |files| - 1
  }

  /** `change_image(step)`. Without a current image it starts from `latest`;
      should that scan have found nothing, `os.path.basename(None)` raises
      before any field changes. */
  function Step(st: ViewerState, files: seq<string>, latest: Option<string>, step: int): (r: ViewerState)
    ensures |files| == 0 || (st.current.None? && latest.None?) ==> r == st
    ensures |files| > 0 && (st.current.Some? || latest.Some?) ==>
              && r.current.Some?
              && (r.isLatest <==> r.current == Some(Last(files)))
              && r.zoomLevel == 1.0 && !r.userHasZoomed
    ensures r.current != st.current ==> r.current.Some? && (r.current.value in files || r.current == latest)
    ensures r.manualNav == st.manualNav
  {
    if |files| == 0 then st
    else if st.current.None? && latest.None? then st
    else
      var name := if st.current.Some? then st.current.value else latest.value;
      var i := FromIndex(files, name, step);
      var j := Clamp(i + step, |files| - 1);
      var name' := if j != i then files[j] else name;
      assert files[j] in files;
      ResetZoom(st.(current := Some(name'), isLatest := name' == Last(files)))
  }

  /** The Left and Right keys and the mouse wheel: `change_image` followed by
      a second `reset_zoom`, so the zoom is reset even when the step changes
      nothing else. When `change_image` raises (a non-empty list, no current
      image and no latest image), the trailing `reset_zoom` is never reached. */
  function ArrowStep(st: ViewerState, files: seq<string>, latest: Option<string>, step: int): (r: ViewerState)
    ensures |files| > 0 && st.current.None? && latest.None? ==> r == st
    ensures !(|files| > 0 && st.current.None? && latest.None?) ==> r.zoomLevel == 1.0 && !r.userHasZoomed
    ensures r.current == Step(st, files, latest, step).current
    ensures r.isLatest == Step(st, files, latest, step).isLatest
    ensures r.manualNav == st.manualNav
  {
    if |files| > 0 && st.current.None? && latest.None? then st
    else ResetZoom(Step(st, files, latest, step))
  }

  /** Python's `seq[index]`: negative indices count from the end; anything else
      out of range raises IndexError (None here). */
  function PyIndex(n: nat, index: int): (r: Option<nat>)
    ensures r.Some? <==> -(n as int) <= index < n
    ensures r.Some? ==> r.value < n && (r.value == index || r.value == n + index)
  {
    if 0 <= index < n then Some(index)
    else if -(n as int) <= index < 0 then Some(n + index)
    else None
  }

  /** `jump_to_image(index)`: the Home key passes 0, the End key and the
      "Go to Latest Image" menu entry pass -1. */
  function Jump(st: ViewerState, files: seq<string>, index: int): (r: ViewerState)
    ensures r.isLatest == st.isLatest
    ensures |files| == 0 ==> r == st
    ensures |files| > 0 && index == -1 ==> r.current == Some(Last(files))
    ensures |files| > 0 && index == 0 ==> r.current == Some(files[0])
    ensures |files| > 0 && -(|files| as int) <= index < |files| ==>
              && r.current.Some? && r.current.value in files
              && r.manualNav && r.zoomLevel == 1.0 && !r.userHasZoomed
    ensures |files| > 0 && !(-(|files| as int) <= index < |files|) ==> r == st
  {
    if |files| == 0 then st
    else
      var index' := if index == -1 then |files| - 1 else index;
      match PyIndex(|files|, index')
      case None => st
      case Some(k) =>
        assert files[k] in files;
        ResetZoom(st.(current := Some(files[k]), manualNav := true))
  }

  /** `update_image`, one refresh tick: follow the latest image only while the
      follow-latest flag is set. The source also computes whether the current
      image is the last one, prints it and discards it. */
  function Tick(st: ViewerState, files: seq<string>, latest: Option<string>): (r: ViewerState)
    ensures r.isLatest == st.isLatest && r.manualNav == st.manualNav
    ensures r.zoomLevel == st.zoomLevel && r.userHasZoomed == st.userHasZoomed
    ensures r.current != st.current ==> st.isLatest && |files| > 0 && r.current == latest
    ensures st.isLatest && |files| > 0 ==> r.current == latest
  {
    if |files| == 0 then st
    else if latest != st.current && st.isLatest then st.(current := latest, isLatest := true)
    else st
  }

  /** `delete_image`. `confirmed` is the answer to the yes/no dialog, `trashed`
      whether the trash call returned normally, `before` the scan made before
      the trash call and `after` the one made once the file has gone. A failed
      index lookup or trash call is caught and printed, leaving the state as it
      was. */
  function Delete(st: ViewerState, before: seq<string>, confirmed: bool, trashed: bool,
                  after: seq<string>): (r: ViewerState)
    ensures r.isLatest == st.isLatest && r.manualNav == st.manualNav
    ensures r.zoomLevel == st.zoomLevel && r.userHasZoomed == st.userHasZoomed
    ensures st.current.None? || !confirmed || !trashed || st.current.value !in before ==> r == st
    ensures st.current.Some? && confirmed && trashed && st.current.value in before ==>
              (r.current.None? <==> |after| == 0)
    ensures st.current.Some? && confirmed && trashed && st.current.value in before && |after| > 0 ==>
              r.current.Some? && r.current.value in after
    ensures r.current != st.current ==> r.current.None? || r.current.value in after
  {
    if st.current.None? || !confirmed then st
    else
      match IndexOf(before, st.current.value)
      case None => st
      case Some(i) =>
        if !trashed then st
        else
          var i' := if i >= |after| then |after| - 1 else i;
          if |after| > 0 then
            assert after[i'] in after;
            st.(current := Some(after[i']))
          else st.(current := None)
  }

  /** The repaired `jump_to_image`: as `Jump`, but it recomputes the
      follow-latest flag the way `change_image` does, so that jumping to the
      last image resumes following new ones. */
  function JumpFollowing(st: ViewerState, files: seq<string>, index: int): (r: ViewerState)
    ensures |files| == 0 ==> r == st
    ensures |files| > 0 && index == -1 ==> r.current == Some(Last(files)) && r.isLatest
    ensures |files| > 0 && index == 0 ==> r.current == Some(files[0])
    ensures |files| > 0 && -(|files| as int) <= index < |files| ==>
              && r.current.Some? && r.current.value in files
              && (r.isLatest <==> r.current == Some(Last(files)))
              && r.manualNav && r.zoomLevel == 1.0 && !r.userHasZoomed
    ensures |files| > 0 && !(-(|files| as int) <= index < |files|) ==> r == st
  {
    if |files| == 0 then st
    else
      var index' := if index == -1 then |files| - 1 else index;
      match PyIndex(|files|, index')
      case None => st
      case Some(k) =>
        assert files[k] in files;
        ResetZoom(st.(current := Some(files[k]), manualNav := true, isLatest := files[k] == Last(files)))
  }
}
