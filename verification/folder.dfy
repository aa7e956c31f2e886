/**
 The watched folder as an immutable snapshot, and the two functions that read
 it: the image scanner (`get_image_files`) and the latest-image finder
 (`find_latest_image`).

 A snapshot is the directory listing in listing order, each entry carrying the
 modification time the scanner would read for it. Every path the viewer builds
 is the folder joined with a listed name, so names stand for paths.
 */
module Folder {
  import opened Options

  /** One file in the folder: its name and its modification time. */
  datatype Entry = Entry(name: string, mtime: int)

  /** A directory never lists the same name twice. */
  predicate DistinctNames(s: seq<Entry>) {
    forall i, j :: 0 <= i < j < |s| ==> s[i].name != s[j].name
  }

  /** No name occurs twice. */
  predicate Distinct(names: seq<string>) {
    forall i, j :: 0 <= i < j < |names| ==> names[i] != names[j]
  }

  function Names(s: seq<Entry>): (r: seq<string>)
    ensures |r| == |s|
    ensures forall i :: 0 <= i < |s| ==> r[i] == s[i].name
  {
    seq(|s|, i requires 0 <= i < |s| => s[i].name)
  }

  // ---------------------------------------------------------------------------
  // Extension filter
  // ---------------------------------------------------------------------------

  /** ASCII lower-casing of one character. */
  function Lower(c: char): char {
    if 'A' <= c <= 'Z' then (c as int + 32) as char else c
  }

  function LowerString(s: string): (r: string)
    ensures |r| == |s|
    ensures forall i :: 0 <= i < |s| ==> r[i] == Lower(s[i])
  {
    seq(|s|, i requires 0 <= i < |s| => Lower(s[i]))
  }

  predicate EndsWith(s: string, suffix: string) {
    |suffix| <= |s| && s[|s| - |suffix|..] == suffix
  }

  /** The four image extensions, with their dot. */
  const ImageSuffixes: set<string> := {".png", ".jpg", ".jpeg", ".gif"}

  /** The name splits into a stem and a suffix whose lower-cased form is one of
      the dotted image extensions. */
  predicate HasImageExtension(name: string) {
    exists i :: 0 <= i <= |name| && LowerString(name[i..]) in ImageSuffixes
  }

  lemma LowerStringSuffix(s: string, i: nat)
    requires i <= |s|
    ensures LowerString(s[i..]) == LowerString(s)[i..]
  {
  }

  lemma SuffixGivesExtension(name: string, x: string)
    requires x in ImageSuffixes
    requires EndsWith(LowerString(name), x)
    ensures HasImageExtension(name)
  {
    LowerStringSuffix(name, |name| - |x|);
  }

  lemma ExtensionGivesSuffix(name: string)
    requires HasImageExtension(name)
    ensures exists x :: x in ImageSuffixes && EndsWith(LowerString(name), x)
  {
    var i :| 0 <= i <= |name| && LowerString(name[i..]) in ImageSuffixes;
    LowerStringSuffix(name, i);
    assert EndsWith(LowerString(name), LowerString(name)[i..]);
  }

  /** The suffix test of the scanner and the split-point description agree. */
  lemma ImageNameIffExtension(name: string)
    ensures (var l := LowerString(name);
             EndsWith(l, ".png") || EndsWith(l, ".jpg") || EndsWith(l, ".jpeg") || EndsWith(l, ".gif"))
            <==> HasImageExtension(name)
  {
    var l := LowerString(name);
    if HasImageExtension(name) {
      ExtensionGivesSuffix(name);
      var x :| x in ImageSuffixes && EndsWith(l, x);
      assert x == ".png" || x == ".jpg" || x == ".jpeg" || x == ".gif";
    }
    if EndsWith(l, ".png") {
      SuffixGivesExtension(name, ".png");
    } else if EndsWith(l, ".jpg") {
      SuffixGivesExtension(name, ".jpg");
    } else if EndsWith(l, ".jpeg") {
      SuffixGivesExtension(name, ".jpeg");
    } else if EndsWith(l, ".gif") {
      SuffixGivesExtension(name, ".gif");
    }
  }

  /** The scanner keeps a name whose lower-cased form ends in one of the four
      image extensions; equivalently, its lower-cased name splits after some
      stem into exactly a dotted extension. */
  predicate IsImageName(name: string)
    ensures IsImageName(name) <==> HasImageExtension(name)
  {
    var l := LowerString(name);
    ImageNameIffExtension(name);
    EndsWith(l, ".png") || EndsWith(l, ".jpg") || EndsWith(l, ".jpeg") || EndsWith(l, ".gif")
  }

  /** The listed entries whose names pass the extension filter, in listing order. */
  function ImageEntries(listing: seq<Entry>): (r: seq<Entry>)
    ensures forall e :: e in r <==> e in listing && IsImageName(e.name)
    ensures DistinctNames(listing) ==> DistinctNames(r)
  {
    if |listing| == 0 then []
    else if IsImageName(listing[0].name) then [listing[0]] + ImageEntries(listing[1..])
    else ImageEntries(listing[1..])
  }

  /** The filter keeps listing order: filtering a listing split in two filters
      each part and puts them back together, and a single entry is kept
      exactly when its name is an image name. */
  lemma {:induction false} ImageEntriesAppend(a: seq<Entry>, b: seq<Entry>)
    ensures ImageEntries(a + b) == ImageEntries(a) + ImageEntries(b)
    decreases |a|
  {
    if |a| == 0 {
      assert a + b == b;
    } else {
      assert (a + b)[0] == a[0];
      assert (a + b)[1..] == a[1..] + b;
      ImageEntriesAppend(a[1..], b);
    }
  }

  lemma ImageEntriesSingle(e: Entry)
    ensures ImageEntries([e]) == if IsImageName(e.name) then [e] else []
  {
    assert [e][1..] == [];
  }

  // ---------------------------------------------------------------------------
  // Stable sort by modification time
  // ---------------------------------------------------------------------------

  predicate SortedByMtime(s: seq<Entry>) {
    forall i, j :: 0 <= i < j < |s| ==> s[i].mtime <= s[j].mtime
  }

  /** The entries of `s` that carry modification time `t`, in their order in `s`.
      A sort is stable exactly when it keeps every one of these sub-sequences. */
  function WithMtime(s: seq<Entry>, t: int): (r: seq<Entry>)
    ensures forall e :: e in r <==> e in s && e.mtime == t
  {
    if |s| == 0 then []
    else if s[0].mtime == t then [s[0]] + WithMtime(s[1..], t)
    else WithMtime(s[1..], t)
  }

  /** Places `x` in front of the first entry that is not older than it, so that
      `x` stays ahead of the entries it preceded that share its time. */
  function Insert(x: Entry, s: seq<Entry>): (r: seq<Entry>)
    ensures multiset(r) == multiset(s) + multiset{x}
  {
    if |s| == 0 || x.mtime <= s[0].mtime then [x] + s
    else
      assert s == [s[0]] + s[1..];
      [s[0]] + Insert(x, s[1..])
  }

  lemma InsertMembers(x: Entry, s: seq<Entry>)
    ensures forall e :: e in Insert(x, s) <==> e == x || e in s
  {
    var r := Insert(x, s);
    forall e ensures e in r <==> e == x || e in s {
      assert e in r <==> e in multiset(r);
      assert e in s <==> e in multiset(s);
    }
  }

  lemma {:induction false} InsertKeepsSorted(x: Entry, s: seq<Entry>)
    requires SortedByMtime(s)
    ensures SortedByMtime(Insert(x, s))
    decreases |s|
  {
    if |s| == 0 || x.mtime <= s[0].mtime {
    } else {
      var rest := Insert(x, s[1..]);
      InsertKeepsSorted(x, s[1..]);
      InsertMembers(x, s[1..]);
      var r := [s[0]] + rest;
      forall i, j | 0 <= i < j < |r| ensures r[i].mtime <= r[j].mtime {
        if i == 0 {
          assert r[j] in rest;
        } else {
          assert r[i] == rest[i - 1] && r[j] == rest[j - 1];
        }
      }
    }
  }

  /** Python's `sorted(..., key=mtime)`: an insertion sort from the back, which
      is stable. */
  function SortByMtime(s: seq<Entry>): (r: seq<Entry>)
    ensures SortedByMtime(r)
    ensures multiset(r) == multiset(s)
    ensures forall e :: e in r <==> e in s
  {
    if |s| == 0 then []
    else
      assert s == [s[0]] + s[1..];
      var rest := SortByMtime(s[1..]);
      InsertKeepsSorted(s[0], rest);
      InsertMembers(s[0], rest);
      Insert(s[0], rest)
  }

  lemma DistinctNamesCons(x: Entry, s: seq<Entry>)
    ensures DistinctNames([x] + s) <==> DistinctNames(s) && forall e :: e in s ==> e.name != x.name
  {
    var xs := [x] + s;
    if DistinctNames(xs) {
      forall i, j | 0 <= i < j < |s| ensures s[i].name != s[j].name {
        assert xs[i + 1] == s[i] && xs[j + 1] == s[j];
      }
      forall e | e in s ensures e.name != x.name {
        var k :| 0 <= k < |s| && s[k] == e;
        assert xs[0] == x && xs[k + 1] == e;
        assert xs[0].name != xs[k + 1].name;
      }
    }
    if DistinctNames(s) && forall e :: e in s ==> e.name != x.name {
      forall i, j | 0 <= i < j < |xs| ensures xs[i].name != xs[j].name {
        assert xs[j] == s[j - 1];
        if i > 0 {
          assert xs[i] == s[i - 1];
        }
      }
    }
  }

  lemma {:induction false} InsertKeepsDistinctNames(x: Entry, s: seq<Entry>)
    requires DistinctNames([x] + s)
    ensures DistinctNames(Insert(x, s))
    decreases |s|
  {
    DistinctNamesCons(x, s);
    if |s| == 0 || x.mtime <= s[0].mtime {
    } else {
      assert s == [s[0]] + s[1..];
      DistinctNamesCons(s[0], s[1..]);
      DistinctNamesCons(x, s[1..]);
      InsertKeepsDistinctNames(x, s[1..]);
      InsertMembers(x, s[1..]);
      DistinctNamesCons(s[0], Insert(x, s[1..]));
    }
  }

  lemma {:induction false} SortKeepsDistinctNames(s: seq<Entry>)
    requires DistinctNames(s)
    ensures DistinctNames(SortByMtime(s))
    decreases |s|
  {
    if |s| > 0 {
      assert s == [s[0]] + s[1..];
      DistinctNamesCons(s[0], s[1..]);
      SortKeepsDistinctNames(s[1..]);
      DistinctNamesCons(s[0], SortByMtime(s[1..]));
      InsertKeepsDistinctNames(s[0], SortByMtime(s[1..]));
    }
  }

  lemma {:induction false} InsertKeepsTimeGroups(x: Entry, s: seq<Entry>, t: int)
    ensures WithMtime(Insert(x, s), t) == WithMtime([x] + s, t)
    decreases |s|
  {
    if |s| == 0 || x.mtime <= s[0].mtime {
    } else {
      InsertKeepsTimeGroups(x, s[1..], t);
      assert ([x] + s)[1..] == s;
      assert ([s[0]] + Insert(x, s[1..]))[1..] == Insert(x, s[1..]);
      assert ([x] + s[1..])[1..] == s[1..];
      assert s == [s[0]] + s[1..];
      assert ([s[0]] + s[1..])[1..] == s[1..];
    }
  }

  /** Stability: sorting keeps the listing order among entries of equal time. */
  lemma {:induction false} SortKeepsTimeGroups(s: seq<Entry>, t: int)
    ensures WithMtime(SortByMtime(s), t) == WithMtime(s, t)
    decreases |s|
  {
    if |s| == 0 {
    } else {
      var rest := SortByMtime(s[1..]);
      SortKeepsTimeGroups(s[1..], t);
      InsertKeepsTimeGroups(s[0], rest, t);
      assert ([s[0]] + rest)[1..] == rest;
      assert s == [s[0]] + s[1..];
    }
  }

  // ---------------------------------------------------------------------------
  // The scanner and the latest-image finder
  // ---------------------------------------------------------------------------

  /** `get_image_files`: the image entries of the snapshot, oldest first. */
  function ImageFiles(listing: seq<Entry>): (r: seq<Entry>)
    ensures forall e :: e in r <==> e in listing && IsImageName(e.name)
    ensures multiset(r) == multiset(ImageEntries(listing))
    ensures SortedByMtime(r)
    ensures DistinctNames(listing) ==> DistinctNames(r)
  {
    var r := SortByMtime(ImageEntries(listing));
    assert DistinctNames(listing) ==> DistinctNames(r) by {
      if DistinctNames(listing) {
        SortKeepsDistinctNames(ImageEntries(listing));
      }
    }
    r
  }

  /** The scan is a stable sort: images of equal time keep their listing order. */
  lemma ImageFilesKeepListingOrderOnTies(listing: seq<Entry>)
    ensures forall t :: WithMtime(ImageFiles(listing), t) == WithMtime(ImageEntries(listing), t)
  {
    forall t ensures WithMtime(ImageFiles(listing), t) == WithMtime(ImageEntries(listing), t) {
      SortKeepsTimeGroups(ImageEntries(listing), t);
    }
  }

  lemma {:induction false} ImageEntriesOfImages(listing: seq<Entry>)
    requires forall e :: e in listing ==> IsImageName(e.name)
    ensures ImageEntries(listing) == listing
    decreases |listing|
  {
    if |listing| > 0 {
      assert listing[0] in listing;
      assert forall e :: e in listing[1..] ==> e in listing;
      ImageEntriesOfImages(listing[1..]);
      assert listing == [listing[0]] + listing[1..];
    }
  }

  /** A folder of images listed oldest first scans to its own listing. */
  lemma ScanOfOrderedImages(listing: seq<Entry>)
    requires forall e :: e in listing ==> IsImageName(e.name)
    requires SortedByMtime(listing)
    ensures ImageFiles(listing) == listing
  {
    ImageEntriesOfImages(listing);
    ImageFilesKeepListingOrderOnTies(listing);
    SortedTimeGroupsDetermine(ImageFiles(listing), listing);
  }

  /** The image names in scanner order: one name per image entry of the
      listing, and exactly the listed names that pass the extension test. */
  function Scan(listing: seq<Entry>): (r: seq<string>)
    ensures |r| == |ImageFiles(listing)|
    ensures forall k :: 0 <= k < |r| ==> r[k] == ImageFiles(listing)[k].name
    ensures forall n :: n in r <==> exists e :: e in listing && e.name == n && IsImageName(n)
  {
    var files := ImageFiles(listing);
    var r := Names(files);
    assert forall n :: n in r ==> exists e :: e in listing && e.name == n && IsImageName(n) by {
      forall n | n in r ensures exists e :: e in listing && e.name == n && IsImageName(n) {
        var k :| 0 <= k < |r| && r[k] == n;
        assert files[k] in files;
      }
    }
    assert forall e :: e in listing && IsImageName(e.name) ==> e.name in r by {
      forall e | e in listing && IsImageName(e.name) ensures e.name in r {
        var k :| 0 <= k < |files| && files[k] == e;
        assert r[k] == e.name;
      }
    }
    r
  }

  /** Python's `max(s, key=mtime)`: a left-to-right scan that replaces its
      candidate only on a strictly newer entry, hence the FIRST entry of
      maximal time. */
  function FirstNewest(s: seq<Entry>): (k: nat)
    requires |s| > 0
    ensures k < |s|
    ensures forall j :: 0 <= j < |s| ==> s[j].mtime <= s[k].mtime
    ensures forall j :: 0 <= j < k ==> s[j].mtime < s[k].mtime
  {
    if |s| == 1 then 0
    else
      var k := FirstNewest(s[..|s| - 1]);
      if s[|s| - 1].mtime > s[k].mtime then |s| - 1 else k
  }

  /** `find_latest_image`: None on a folder without images, otherwise the first
      image of maximal time in scanner order. */
  function FindLatest(listing: seq<Entry>): (r: Option<Entry>)
    ensures r.None? <==> |ImageFiles(listing)| == 0
    ensures r.Some? ==> r.value in ImageFiles(listing)
    ensures r.Some? ==> forall e :: e in listing && IsImageName(e.name) ==> e.mtime <= r.value.mtime
    ensures r.Some? ==> exists k :: 0 <= k < |ImageFiles(listing)| && ImageFiles(listing)[k] == r.value &&
                          forall j :: 0 <= j < k ==> ImageFiles(listing)[j].mtime < r.value.mtime
  {
    var files := ImageFiles(listing);
    if |files| == 0 then None
    else
      var k := FirstNewest(files);
      Some(files[k])
  }

  /** The latest image's name, or None: the path the viewer compares against. */
  function LatestName(listing: seq<Entry>): (r: Option<string>)
    ensures r.None? <==> |Scan(listing)| == 0
    ensures r.Some? ==> r.value in Scan(listing)
    ensures r.Some? ==> FindLatest(listing).Some? && r.value == FindLatest(listing).value.name
  {
    match FindLatest(listing)
    case None => None
    case Some(e) =>
      assert e.name in Scan(listing) by {
        var k :| 0 <= k < |ImageFiles(listing)| && ImageFiles(listing)[k] == e;
        assert Scan(listing)[k] == e.name;
      }
      Some(e.name)
  }

  /** A folder lists each name once, and so does its scan. */
  lemma ScanIsDistinct(listing: seq<Entry>)
    requires DistinctNames(listing)
    ensures Distinct(Scan(listing))
  {
  }

  /** Only one image carries the newest time. */
  predicate UniqueNewest(files: seq<Entry>)
    requires |files| > 0
  {
    forall j :: 0 <= j < |files| - 1 ==> files[j].mtime < files[|files| - 1].mtime
  }

  /** The latest image is the last one in scanner order exactly when no other
      image shares its time; with a tie it is the first of the tied images. */
  lemma LatestIsLastIffUniqueNewest(listing: seq<Entry>)
    requires DistinctNames(listing)
    requires |Scan(listing)| > 0
    ensures LatestName(listing) == Some(Scan(listing)[|Scan(listing)| - 1])
            <==> UniqueNewest(ImageFiles(listing))
  {
    var files := ImageFiles(listing);
    var k := FirstNewest(files);
    var last := |files| - 1;
    assert LatestName(listing) == Some(files[k].name);
    if files[k].name == files[last].name {
      assert k == last;
    }
    if UniqueNewest(files) {
      assert files[k].mtime >= files[last].mtime;
      assert k == last;
    }
  }

  /** The ascending order makes the newest image the last one once all times
      differ. */
  lemma LatestIsLastWhenTimesDistinct(listing: seq<Entry>)
    requires DistinctNames(listing)
    requires |Scan(listing)| > 0
    requires forall i, j :: 0 <= i < j < |ImageFiles(listing)| ==>
               ImageFiles(listing)[i].mtime != ImageFiles(listing)[j].mtime
    ensures LatestName(listing) == Some(Scan(listing)[|Scan(listing)| - 1])
  {
    var files := ImageFiles(listing);
    LatestIsLastIffUniqueNewest(listing);
    forall j | 0 <= j < |files| - 1 ensures files[j].mtime < files[|files| - 1].mtime {
      assert files[j].mtime <= files[|files| - 1].mtime;
    }
  }

  // ---------------------------------------------------------------------------
  // Rescanning after one file has gone
  // ---------------------------------------------------------------------------

  /** `s` without the first occurrence of `e`: the listing once the file has been
      moved to the trash. */
  function RemoveFirst(s: seq<Entry>, e: Entry): (r: seq<Entry>)
    ensures forall x :: x in r ==> x in s
    ensures e !in s ==> r == s
    ensures e in s ==> |r| == |s| - 1
  {
    if |s| == 0 then []
    else if s[0] == e then s[1..]
    else
      assert s == [s[0]] + s[1..];
      [s[0]] + RemoveFirst(s[1..], e)
  }

  lemma {:induction false} RemoveFirstAt(s: seq<Entry>, i: nat)
    requires i < |s|
    requires forall j :: 0 <= j < i ==> s[j] != s[i]
    ensures RemoveFirst(s, s[i]) == s[..i] + s[i + 1..]
    decreases i
  {
    if i > 0 {
      var t := s[1..];
      assert t[i - 1] == s[i];
      RemoveFirstAt(t, i - 1);
      assert s[..i] + s[i + 1..] == [s[0]] + (t[..i - 1] + t[i..]);
    }
  }

  lemma {:induction false} RemoveFirstKeepsSorted(s: seq<Entry>, e: Entry)
    requires SortedByMtime(s)
    ensures SortedByMtime(RemoveFirst(s, e))
    decreases |s|
  {
    if |s| > 0 && s[0] != e {
      var rest := RemoveFirst(s[1..], e);
      RemoveFirstKeepsSorted(s[1..], e);
      var r := [s[0]] + rest;
      forall i, j | 0 <= i < j < |r| ensures r[i].mtime <= r[j].mtime {
        if i == 0 {
          assert r[j] in rest;
          assert r[j] in s[1..];
        } else {
          assert r[i] == rest[i - 1] && r[j] == rest[j - 1];
        }
      }
    }
  }

  lemma {:induction false} RemoveFirstImageEntries(s: seq<Entry>, e: Entry)
    ensures ImageEntries(RemoveFirst(s, e)) == RemoveFirst(ImageEntries(s), e)
    decreases |s|
  {
    if |s| == 0 {
    } else if s[0] == e {
      if !IsImageName(e.name) {
        assert e !in ImageEntries(s[1..]);
      }
    } else {
      RemoveFirstImageEntries(s[1..], e);
      assert ([s[0]] + RemoveFirst(s[1..], e))[1..] == RemoveFirst(s[1..], e);
    }
  }

  lemma {:induction false} RemoveFirstTimeGroup(s: seq<Entry>, e: Entry, t: int)
    ensures WithMtime(RemoveFirst(s, e), t)
            == if e.mtime == t then RemoveFirst(WithMtime(s, t), e) else WithMtime(s, t)
    decreases |s|
  {
    if |s| == 0 {
    } else if s[0] == e {
      if e.mtime != t {
        assert e !in WithMtime(s[1..], t);
      }
    } else {
      RemoveFirstTimeGroup(s[1..], e, t);
      assert ([s[0]] + RemoveFirst(s[1..], e))[1..] == RemoveFirst(s[1..], e);
    }
  }

  lemma FirstInOwnGroup(s: seq<Entry>)
    ensures |s| > 0 ==> s[0] in WithMtime(s, s[0].mtime)
  {
  }

  lemma SortedTail(s: seq<Entry>)
    requires SortedByMtime(s) && |s| > 0
    ensures SortedByMtime(s[1..])
  {
    forall i, j | 0 <= i < j < |s[1..]| ensures s[1..][i].mtime <= s[1..][j].mtime {
      assert s[1..][i] == s[i + 1] && s[1..][j] == s[j + 1];
    }
  }

  /** Dropping the head removes it from its own time group only. */
  lemma TailTimeGroup(s: seq<Entry>, t: int)
    requires |s| > 0
    ensures WithMtime(s[1..], t) == if s[0].mtime == t then WithMtime(s, t)[1..] else WithMtime(s, t)
  {
  }

  /** Two sorted sequences with the same time groups start at the same time. */
  lemma SameFirstTime(a: seq<Entry>, b: seq<Entry>)
    requires SortedByMtime(a) && SortedByMtime(b)
    requires |a| > 0 && |b| > 0
    requires WithMtime(a, b[0].mtime) == WithMtime(b, b[0].mtime)
    requires WithMtime(a, a[0].mtime) == WithMtime(b, a[0].mtime)
    ensures a[0].mtime == b[0].mtime
  {
    FirstInOwnGroup(a);
    FirstInOwnGroup(b);
    assert a[0] in WithMtime(b, a[0].mtime);
    assert b[0] in WithMtime(a, b[0].mtime);
    var k :| 0 <= k < |a| && a[k] == b[0];
    var l :| 0 <= l < |b| && b[l] == a[0];
    assert a[0].mtime <= a[k].mtime;
    assert b[0].mtime <= b[l].mtime;
  }

  /** A sequence sorted by time is fixed by its time groups: two sorted
      sequences with the same entries of each time, in the same order, are equal.
      This is what makes a stable sort's result unique. */
  lemma {:induction false} SortedTimeGroupsDetermine(a: seq<Entry>, b: seq<Entry>)
    requires SortedByMtime(a) && SortedByMtime(b)
    requires forall t :: WithMtime(a, t) == WithMtime(b, t)
    ensures a == b
    decreases |a|
  {
    FirstInOwnGroup(a);
    FirstInOwnGroup(b);
    if |a| > 0 {
      assert |b| > 0;
      SameFirstTime(a, b);
      var m := a[0].mtime;
      assert WithMtime(a, m) == [a[0]] + WithMtime(a[1..], m);
      assert WithMtime(b, m) == [b[0]] + WithMtime(b[1..], m);
      forall t ensures WithMtime(a[1..], t) == WithMtime(b[1..], t) {
        TailTimeGroup(a, t);
        TailTimeGroup(b, t);
      }
      SortedTail(a);
      SortedTail(b);
      SortedTimeGroupsDetermine(a[1..], b[1..]);
      assert a == [a[0]] + a[1..] && b == [b[0]] + b[1..];
    }
  }

  /** Rescanning a folder from which one entry has gone gives the old scan
      without that entry, in the same order. */
  lemma RescanAfterRemoval(listing: seq<Entry>, e: Entry)
    ensures ImageFiles(RemoveFirst(listing, e)) == RemoveFirst(ImageFiles(listing), e)
  {
    var a := ImageFiles(RemoveFirst(listing, e));
    var b := RemoveFirst(ImageFiles(listing), e);
    RemoveFirstKeepsSorted(ImageFiles(listing), e);
    ImageFilesKeepListingOrderOnTies(listing);
    ImageFilesKeepListingOrderOnTies(RemoveFirst(listing, e));
    forall t ensures WithMtime(a, t) == WithMtime(b, t) {
      RemoveFirstImageEntries(listing, e);
      RemoveFirstTimeGroup(ImageEntries(listing), e, t);
      RemoveFirstTimeGroup(ImageFiles(listing), e, t);
    }
    SortedTimeGroupsDetermine(a, b);
  }

  lemma NamesOfRemoval(s: seq<Entry>, i: nat)
    requires i < |s|
    ensures Names(s[..i] + s[i + 1..]) == Names(s)[..i] + Names(s)[i + 1..]
  {
    var a := Names(s[..i] + s[i + 1..]);
    var b := Names(s)[..i] + Names(s)[i + 1..];
    forall k | 0 <= k < |a| ensures a[k] == b[k] {
      if k < i {
        assert a[k] == s[k].name;
      } else {
        assert a[k] == s[k + 1].name;
      }
    }
  }

  /** The same at the level of names: trashing the `i`-th image of the scan
      and rescanning drops exactly position `i`. */
  lemma ScanAfterRemoval(listing: seq<Entry>, i: nat)
    requires DistinctNames(listing)
    requires i < |Scan(listing)|
    ensures Scan(RemoveFirst(listing, ImageFiles(listing)[i])) == Scan(listing)[..i] + Scan(listing)[i + 1..]
  {
    var files := ImageFiles(listing);
    RescanAfterRemoval(listing, files[i]);
    forall j | 0 <= j < i ensures files[j] != files[i] {
      assert files[j].name != files[i].name;
    }
    RemoveFirstAt(files, i);
    NamesOfRemoval(files, i);
  }
}
