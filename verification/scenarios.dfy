/**
 Concrete runs of the viewer: which names count as images, the walk-through of
 following, stepping back, pinning and jumping on a folder of screenshots, and
 the tie at the newest time.
 */
module Scenarios {
  import opened Options
  import opened Folder
  import opened Viewer

  /** A name without upper-case letters is its own lower-cased form. */
  lemma LowerStringOfLowerCase(s: string)
    requires forall i :: 0 <= i < |s| ==> !('A' <= s[i] <= 'Z')
    ensures LowerString(s) == s
  {
  }

  /** The extension test ignores case. */
  lemma UpperCaseJpegIsImage()
    ensures IsImageName("Shot.JPEG")
  {
    var l := LowerString("Shot.JPEG");
    assert l[4..] == ".jpeg" by {
      assert l[4] == '.' && l[5] == 'j' && l[6] == 'p' && l[7] == 'e' && l[8] == 'g';
    }
  }

  lemma MixedCaseGifIsImage()
    ensures IsImageName("x.GiF")
  {
    var l := LowerString("x.GiF");
    assert l[1..] == ".gif" by {
      assert l[1] == '.' && l[2] == 'g' && l[3] == 'i' && l[4] == 'f';
    }
  }

  /** The extension must end the name and carry its dot. */
  lemma NonImageNames()
    ensures !IsImageName("notes.txt") && !IsImageName("png") && !IsImageName("a.png.txt")
  {
    LowerStringOfLowerCase("notes.txt");
    assert "notes.txt"[5..] == ".txt";
    assert "notes.txt"[4..] == "s.txt";
    LowerStringOfLowerCase("png");
    LowerStringOfLowerCase("a.png.txt");
    assert "a.png.txt"[5..] == ".txt";
    assert "a.png.txt"[4..] == "g.txt";
  }

  /** Three screenshots a, b, c, oldest first: the viewer opens on c and
      follows; one step back shows b and clears the flag; when d arrives the
      tick leaves b in place; End then shows d, but the flag stays clear, so
      when e arrives the next tick still shows d. */
  lemma PinnedAfterEnd()
    ensures var s0 := Start(Some("c.png"));
            var s1 := Step(s0, ["a.png", "b.png", "c.png"], Some("c.png"), -1);
            var s2 := Tick(s1, ["a.png", "b.png", "c.png", "d.png"], Some("d.png"));
            var s3 := Jump(s2, ["a.png", "b.png", "c.png", "d.png"], -1);
            var s4 := Tick(s3, ["a.png", "b.png", "c.png", "d.png", "e.png"], Some("e.png"));
            && s1.current == Some("b.png") && !s1.isLatest
            && s2.current == Some("b.png")
            && s3.current == Some("d.png") && !s3.isLatest
            && s4.current == Some("d.png")
  {
    var abc := ["a.png", "b.png", "c.png"];
    assert IndexOf(abc, "c.png") == Some(2) by {
      assert abc[1..] == ["b.png", "c.png"];
      assert abc[1..][1..] == ["c.png"];
    }
  }

  /** The same run with the repaired jump: End resumes following and the tick
      moves on to e. */
  lemma FollowingAfterRepairedEnd()
    ensures var s2 := ViewerState(Some("b.png"), false, false, 1.0, false);
            var s3 := JumpFollowing(s2, ["a.png", "b.png", "c.png", "d.png"], -1);
            var s4 := Tick(s3, ["a.png", "b.png", "c.png", "d.png", "e.png"], Some("e.png"));
            && s3.current == Some("d.png") && s3.isLatest
            && s4.current == Some("e.png")
  {
  }

  /** Two images saved in the same second, listed a before b: the scan keeps
      listing order, so b is last, while the latest-image search returns the
      first of the two, a.

      The folder is a parameter pinned by the precondition rather than a
      constant: with the literal in scope the verifier unfolds the scanner's
      definitions on it and the proof outgrows its budget, while a pinned
      parameter lets the general lemmas about the scanner do the work. */
  lemma TieAtNewestTime(listing: seq<Entry>)
    requires listing == [Entry("a.png", 5), Entry("b.png", 5)]
    ensures Scan(listing) == ["a.png", "b.png"]
    ensures LatestName(listing) == Some("a.png")
  {
    TieListingScansToItself(listing);
    assert Scan(listing) == Names(listing);
    assert FirstNewest(listing) == 0;
  }

  /** Both names pass the extension test and the listing is already in time
      order, so the scan is the listing itself. */
  lemma TieListingScansToItself(listing: seq<Entry>)
    requires listing == [Entry("a.png", 5), Entry("b.png", 5)]
    ensures ImageFiles(listing) == listing
  {
    LowerStringOfLowerCase("a.png");
    LowerStringOfLowerCase("b.png");
    ScanOfOrderedImages(listing);
  }

  /** On that folder a follower showing b is moved back to a by the tick, and
      one step forward to b, the last of the list, keeps the flag set. */
  lemma TieSnapsBackToFirst()
    ensures var st := ViewerState(Some("b.png"), true, false, 1.0, false);
            var t := Tick(st, ["a.png", "b.png"], Some("a.png"));
            var u := Step(t, ["a.png", "b.png"], Some("a.png"), 1);
            && t.current == Some("a.png") && t.isLatest
            && u.current == Some("b.png") && u.isLatest
  {
  }
}
