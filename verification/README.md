# Latest Image Viewer — navigation model

LatestImageViewer is a desktop utility that shows the newest image in a watched
folder. It switches to newer images as they appear, and it lets the user step
through the folder, jump to the first or last image, and move the shown image
to the trash. This project models the one piece of logic in it: the scanner, the
latest-image finder and the navigation state machine. It proves what that logic
does.

- `options.dfy`: the `Option` type used for "a path or None".
- `folder.dfy` (module `Folder`):
  - the folder is an immutable snapshot, a sequence of `Entry(name, mtime)` in
    directory-listing order;
  - `ImageFiles`/`Scan` model `get_image_files`: a case-insensitive extension
    filter followed by a stable sort on modification time;
  - `FindLatest`/`LatestName` model `find_latest_image`, which is Python's
    `max`;
  - also here: what a rescan returns once one file has been moved to the trash.
- `viewer.dfy` (module `Viewer`): the viewer state and one pure transition per
  handler, namely `Start`, `Step` (`change_image`), `Jump` (`jump_to_image`),
  `ResetZoom`, `Tick` (one `update_image` refresh) and `Delete`
  (`delete_image`).
  - The outside world reaches a handler through parameters. These are the scans
    it made, the answer to the confirmation dialog and whether the trash call
    succeeded.
  - Every path the program builds is the folder joined with a listed name, so
    the model uses bare names.
- `navigation.dfy` (module `Navigation`): properties that relate several calls.
  They cover where a step lands, round trips of steps, when the refresh tick
  follows, and where the selection goes after a delete, both for an arbitrary
  rescan and for the folder minus the trashed file.
- `scenarios.dfy` (module `Scenarios`): concrete runs.
  - Which names count as images.
  - The follow / step back / End walk-through on screenshots a, b, c, d, e.
  - Two images saved in the same second.

Behaviour that deserves a note:

- `sorted` is stable. Images with the same modification time therefore keep
  listing order, and the scan is fully determined by the listing
  (`Folder.SortedTimeGroupsDetermine`). Any stable sort gives the same result.
- Python's `max` keeps the first maximal element. When several images share the
  newest time, the "latest image" is the first of them. That is not the last
  element of the scan, so a follower that steps to the last image is pulled back
  by the next tick (`Scenarios.TieSnapsBackToFirst`).
- `jump_to_image` never recomputes the follow-latest flag. Pressing End or
  choosing "Go to Latest Image" while pinned shows the last image, but the view
  stays pinned. This model follows the code here, although the menu entry is
  labelled "Go to Latest Image" (LatestImageViewer.py:369), which suggests that
  following should resume. See Findings.
- `os.listdir` raises on an unreadable folder. It does not return an empty list.
  The model only covers readable folders (see Left out).

## Model

| member | source | states |
|---|---|---|
| Folder.IsImageName | LatestImageViewer.py:255 | The lower-cased-suffix test holds exactly when the name splits after some stem into a suffix whose lower-cased form is .png, .jpg, .jpeg or .gif |
| Folder.ImageNameIffExtension | LatestImageViewer.py:255 | The endswith test over the four extensions agrees with the split-point description of an image name, in both directions |
| Folder.ImageEntries | LatestImageViewer.py:255 | The filtered entries are exactly the listed entries whose lower-cased name ends in .png, .jpg, .jpeg or .gif; distinct listing names stay distinct |
| Folder.ImageEntriesAppend | LatestImageViewer.py:255 | The filter keeps listing order: filtering a concatenation is the concatenation of the filtered parts |
| Folder.ImageEntriesSingle | LatestImageViewer.py:255 | A single entry is kept exactly when its name passes the extension test |
| Folder.SortByMtime | LatestImageViewer.py:256 | The sort returns a permutation of its input ordered by non-decreasing modification time |
| Folder.SortKeepsTimeGroups | LatestImageViewer.py:256 | Stability: for each time t, the entries with mtime t appear in the sorted result in their input order |
| Folder.ImageFiles | LatestImageViewer.py:254-256 | The scan holds exactly the image entries of the listing, each once, in non-decreasing mtime order, with no repeated names |
| Folder.ImageFilesKeepListingOrderOnTies | LatestImageViewer.py:254-256 | Images with equal modification time appear in the scan in directory-listing order |
| Folder.SortedTimeGroupsDetermine | LatestImageViewer.py:256 | Two mtime-sorted sequences with the same per-time subsequences are equal, so the scan is uniquely determined by the listing |
| Folder.ScanOfOrderedImages | LatestImageViewer.py:254-256 | A listing of image files already in mtime order scans to itself |
| Folder.Scan | LatestImageViewer.py:254-256 | Position k of the name list is the name of position k of the sorted image entries, so the names carry the scan's time order and stability; the list holds exactly the listed names that pass the extension test |
| Folder.FirstNewest | LatestImageViewer.py:481 | max by mtime picks an index of maximal mtime, and every earlier index is strictly older: the first maximal element |
| Folder.FindLatest | LatestImageViewer.py:476-482 | None exactly when the scan is empty; otherwise an image of the scan whose mtime is at least that of every image in the folder, and every image before it in the scan is strictly older (max keeps the first maximal element) |
| Folder.LatestName | LatestImageViewer.py:476-482 | The latest name is None exactly when the scan is empty; otherwise it is one of the scanned names and the name of the first image of maximal time that FindLatest returns |
| Folder.ScanIsDistinct | LatestImageViewer.py:254-256 | A folder listing each name once scans to a list without repeated names |
| Folder.LatestIsLastIffUniqueNewest | LatestImageViewer.py:476-482 | The latest image is the last image of the scan if and only if no other image shares its modification time |
| Folder.LatestIsLastWhenTimesDistinct | LatestImageViewer.py:476-482 | When all image times differ, the latest image is the last element of the scan |
| Folder.RescanAfterRemoval | LatestImageViewer.py:339-343 | Rescanning the folder after one file is trashed gives the old scan with that file removed |
| Folder.ScanAfterRemoval | LatestImageViewer.py:339-343 | Trashing the image at scan index i and rescanning removes exactly position i from the name list |
| Viewer.Start | LatestImageViewer.py:393-410 | Start-up shows the latest image (or none), follows new images, is not in manual navigation, and has zoom at 100% with no user zoom |
| Viewer.ResetZoom | LatestImageViewer.py:239-241 | Zoom returns to 1 and the user-zoom flag clears; the image, follow flag and manual flag are unchanged |
| Viewer.Clamp | LatestImageViewer.py:208 | max(0, min(x, hi)) lies in [0, hi]: it is x inside the range, 0 below it and hi above it |
| Viewer.IndexOf | LatestImageViewer.py:204 | list.index gives the first position holding the name, and fails exactly when the name is absent |
| Viewer.FromIndex | LatestImageViewer.py:203-206 | The starting index is valid and is the name's position when the name is listed; for a missing name it is 0 on a forward step and the last index otherwise |
| Viewer.Step | LatestImageViewer.py:195-218 | On an empty list, or with no current image and no latest image, nothing changes. Otherwise an image is shown, the flag is set exactly when it is the last of the list, and zoom is reset. A newly shown image comes from the list or is the latest one. manualNav is untouched |
| Viewer.PyIndex | LatestImageViewer.py:232 | Python indexing succeeds exactly for -n <= index < n and counts negative indices from the end |
| Viewer.Jump | LatestImageViewer.py:222-236 | The follow flag is never changed. The empty list is a no-op, -1 shows the last image and 0 the first. Every in-range jump shows an image of the list, sets manualNav and resets zoom, even onto the image already shown; an out-of-range index changes nothing |
| Viewer.Tick | LatestImageViewer.py:429-453 | A tick never changes the flags or zoom. The image changes only while following, on a non-empty list, and only to the latest image; while following on a non-empty list the latest image is shown |
| Viewer.Delete | LatestImageViewer.py:326-356 | Flags and zoom are never touched. With no image, no confirmation, a failed lookup or a failed trash call nothing changes; otherwise the selection is None exactly when the rescan is empty, and a name from the rescan whenever the rescan is non-empty |
| Viewer.JumpFollowing | LatestImageViewer.py:222-236 | Repaired jump: -1 shows the last image and sets the follow flag; after every in-range jump the flag holds exactly when the last image is shown, manualNav is set and zoom is reset; an out-of-range index changes nothing |
| Viewer.ArrowStep | LatestImageViewer.py:157-166 | Left, Right and the wheel: navigation as in Step, and the zoom is reset afterwards, also when the list is empty or the step changes nothing; when change_image raises (non-empty list, no current and no latest image) the trailing reset is never reached and the state is unchanged |
| Navigation.IndexOfDistinct | LatestImageViewer.py:204 | In a list without repeated names, the lookup of the name at index i returns i |
| Navigation.StartIsSteady | LatestImageViewer.py:393-410 | A tick on the folder the start-up state was built from changes nothing |
| Navigation.StepMovesToClampedIndex | LatestImageViewer.py:203-213 | From the image at index i, a step shows the image at clamp(i + step, 0, len-1) |
| Navigation.StepFromNothingStartsAtLatest | LatestImageViewer.py:200-213 | With no current image, a step starts from the latest image's index |
| Navigation.StepFromVanishedFile | LatestImageViewer.py:203-216 | A current name missing from the list survives the step exactly when the list has one image or the step is 0, and is then not the latest. Otherwise a forward step lands at clamp(step) and a backward step at clamp(len-1+step) |
| Navigation.StepForwardThenBack | LatestImageViewer.py:195-218 | Next then previous returns to the same image, except from the last image |
| Navigation.StepBackThenForward | LatestImageViewer.py:195-218 | Previous then next returns to the same image, except from the first image |
| Navigation.TickWhilePinned | LatestImageViewer.py:445-453 | With the flag clear, a tick leaves the whole state unchanged |
| Navigation.TickTwice | LatestImageViewer.py:429-453 | A second tick on the same scans changes nothing further |
| Navigation.TickFollowsNewest | LatestImageViewer.py:429-453 | While following, a tick shows the last image of the scan when only one image has the newest time |
| Navigation.JumpToLastStaysPinned | LatestImageViewer.py:174-176 | End while pinned shows the last image, but no later tick moves the view, whatever the folder then holds |
| Navigation.JumpFollowingResumesFollowing | LatestImageViewer.py:359-360 | With the repaired jump, End / "Go to Latest Image" makes the next tick show whatever is then latest |
| Navigation.DeleteSelectsClampedIndex | LatestImageViewer.py:335-350 | After a confirmed, successful delete of index i, the selection is after[min(i, len(after)-1)], or None when the rescan is empty |
| Navigation.DeleteOfRemainder | LatestImageViewer.py:335-353 | When the rescan is the old list minus the deleted image, the selection is the next image, the previous one if the last was deleted, or none if it was the only one |
| Navigation.DeleteInFolder | LatestImageViewer.py:326-356 | On one folder, trashing the shown image and rescanning selects the next image in time order, or the previous one when the newest was trashed |
| Scenarios.UpperCaseJpegIsImage | LatestImageViewer.py:255 | The extension test ignores case: Shot.JPEG is an image |
| Scenarios.MixedCaseGifIsImage | LatestImageViewer.py:255 | The extension test ignores case: x.GiF is an image |
| Scenarios.NonImageNames | LatestImageViewer.py:255 | notes.txt, png and a.png.txt are not images: the extension must end the name and include its dot |
| Scenarios.PinnedAfterEnd | LatestImageViewer.py:174-236 | Walk-through: from c, a step back shows b unpinned, the tick after d arrives keeps b, End shows d still pinned, and the tick after e arrives keeps d |
| Scenarios.FollowingAfterRepairedEnd | LatestImageViewer.py:222-236 | With the repaired jump, End from b shows d following, and the tick after e arrives shows e |
| Scenarios.TieAtNewestTime | LatestImageViewer.py:476-482 | For a.png and b.png with the same time, the scan is [a, b] and the latest image is a |
| Scenarios.TieSnapsBackToFirst | LatestImageViewer.py:429-453 | On that tie a follower showing b is pulled back to a by the tick, and a step forward to b keeps following |

## Left out

- User interface: the Tk widgets, key and mouse bindings, the context menu and
  the setup screen. Page Up and Page Down are `Step` with step -10 and 10;
  Home and End are `Jump` with 0 and -1. The Left and Right keys and the mouse
  wheel call `reset_zoom` after `change_image`, which is `ArrowStep` (the wheel
  steps -1 when its delta is positive and 1 otherwise).
- Image loading and drawing with PIL: the fit-to-window scaling and the zoomed
  view. Drawing changes no modelled state. The model assumes `Image.open`
  succeeds. When it raises, the handler stops after assigning the current path:
  - in `change_image` (LatestImageViewer.py:212) the follow flag is then not
    recomputed (:216);
  - in `jump_to_image` (:234) `manual_navigation_active` is not set and the zoom
    is not reset (:235-236);
  - at start-up (:395) the first refresh is never scheduled (:399) and the
    follow flag is never set (:410), so the view never refreshes.
- Zoom drag, with its float arithmetic and wall-clock throttle. Only the reset
  to 100% is modelled.
- Fullscreen and monitor selection, which depend on window geometry and an
  external library.
- Settings load and save through `configparser`. This is file I/O through a
  library; the save/load round trip of the folder path is not modelled.
- The package auto-install bootstrap and debug printing.
- `root.after` scheduling: each refresh is one call of `Tick`. In the source, an
  exception inside a refresh also stops the refresh loop; this is not modelled.
- Modification times are integers here; the source reads floats. Only their
  order matters.
- Lower-casing is ASCII only. Python's `str.lower` also maps some non-ASCII
  characters to ASCII ones: the Kelvin sign becomes `k`, and U+0130 (capital I
  with dot) becomes `i` followed by the combining dot U+0307. Neither can
  complete an image extension. `k` occurs in none of them. The `i` from U+0130
  is always followed by U+0307, which no extension contains, so it cannot be
  the `i` of `.gif`. The test therefore gives the same answer as with
  `str.lower`.
- An unreadable folder makes `os.listdir` raise. The model has no
  unreadable-folder case.
- The two scans inside one handler can see different folders. The handlers take
  both scan results as parameters, but the folder-level lemmas assume one
  unchanged snapshot.
- Viewer.Tick: `update_image` asks for the latest image first
  (LatestImageViewer.py:431) and scans second (:432). A missing latest image
  with a non-empty scan therefore means that images appeared between the two
  scans. While following, the source then sets the current path to None and
  raises in `Image.open`. The model keeps only the assignment.
- Viewer.Delete: receives the state as it is when the confirmation dialog
  closes. `messagebox.askyesno` (LatestImageViewer.py:333) is a modal Tk dialog,
  and Tk keeps running its event loop while the dialog is open. That includes
  the refresh timer (:399, :435, :455). While following, an image that arrives
  during the dialog becomes the current path, and lines 337-339 then trash that
  image rather than the one the user was asked about. `Navigation.DeleteInFolder`
  assumes that no tick runs in between.

## Findings

| source | as written | input that shows it | evidently intended | confidence | as-written member | corrected member |
|---|---|---|---|---|---|---|
| LatestImageViewer.py:222-236 | `jump_to_image` never updates `is_current_image_latest`, so End and "Go to Latest Image" show the last image but leave the view pinned | images a, b, c; step back to b (pinned); d arrives; press End (shows d); e arrives: the tick keeps d | Jumping to the last image resumes following, as `change_image` does by recomputing the flag | not executed | Scenarios.PinnedAfterEnd | Viewer.JumpFollowing |
