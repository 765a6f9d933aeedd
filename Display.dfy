/** The control logic of the picture-frame display, display/display.py: which
    files become slides, where the list of files comes from, the display-time
    button, the playback index, and the playlist menu (scrolling, selection,
    and the directory moves of its Start, Back and Play-all buttons).
    Drawing, decoding and the clock are not modelled: a tap or a button press
    is one event, and a file that fails to load is one outside `readable`. */
module Display {
  import opened Options
  import opened Text
  import opened PlaylistServer

  datatype Kind = Picture | Clip

  /** One entry of the playback list: a file and how it is shown. */
  datatype Slide = Slide(filename: string, kind: Kind)

  // ---------------------------------------------------------------- slides

  const IMAGE_SUFFIXES: seq<string> := [".png", ".jpg", ".jpeg", ".bmp", ".webp", ".tiff"]
  const VIDEO_SUFFIXES: seq<string> := [".mp4", ".webm", ".mpg", ".mpeg", ".gif", ".avi", ".wmv", ".ogg", ".mov"]

  predicate EndsWithAny(s: string, suffixes: seq<string>) {
    |suffixes| > 0 && (EndsWith(s, suffixes[0]) || EndsWithAny(s, suffixes[1..]))
  }

  /** `EndsWithAny` holds exactly when the name ends in one of the suffixes. */
  lemma {:induction false} EndsWithAnyIff(s: string, suffixes: seq<string>)
    ensures EndsWithAny(s, suffixes) <==> exists suf :: suf in suffixes && EndsWith(s, suf)
    decreases |suffixes|
  {
    if suffixes != [] {
      EndsWithAnyIff(s, suffixes[1..]);
      assert forall suf :: suf in suffixes <==> suf == suffixes[0] || suf in suffixes[1..];
    }
  }

  /** The kind a file is shown as, from its lower-cased name (lines 66-67, 96):
      image suffixes are tried first; any other name is skipped. */
  function KindOf(filename: string): (k: Option<Kind>)
    ensures k == Some(Picture) <==> EndsWithAny(ToLower(filename), IMAGE_SUFFIXES)
    ensures k == None <==> !EndsWithAny(ToLower(filename), IMAGE_SUFFIXES + VIDEO_SUFFIXES)
  {
    var name := ToLower(filename);
    EndsWithAnyConcat(name, IMAGE_SUFFIXES, VIDEO_SUFFIXES);
    if EndsWithAny(name, IMAGE_SUFFIXES) then Some(Picture)
    else if EndsWithAny(name, VIDEO_SUFFIXES) then Some(Clip)
    else None
  }

  /** A name ends in a suffix of a concatenated list exactly when it ends in
      one of either part. */
  lemma {:induction false} EndsWithAnyConcat(s: string, a: seq<string>, b: seq<string>)
    ensures EndsWithAny(s, a + b) <==> EndsWithAny(s, a) || EndsWithAny(s, b)
    decreases |a|
  {
    if a == [] {
      assert a + b == b;
    } else {
      assert (a + b)[0] == a[0];
      assert (a + b)[1..] == a[1..] + b;
      EndsWithAnyConcat(s, a[1..], b);
    }
  }

  /** A name is shown as a picture exactly when its lower-cased form ends in
      an image suffix, and as a clip exactly when it ends in none of those
      but in a video suffix; every other name is skipped. */
  lemma KindOfSuffixes(filename: string)
    ensures KindOf(filename) == Some(Picture) <==> exists suf :: suf in IMAGE_SUFFIXES && EndsWith(ToLower(filename), suf)
    ensures KindOf(filename) == Some(Clip) <==>
      && (forall suf :: suf in IMAGE_SUFFIXES ==> !EndsWith(ToLower(filename), suf))
      && exists suf :: suf in VIDEO_SUFFIXES && EndsWith(ToLower(filename), suf)
  {
    EndsWithAnyIff(ToLower(filename), IMAGE_SUFFIXES);
    EndsWithAnyIff(ToLower(filename), VIDEO_SUFFIXES);
  }

  /** The classification does not depend on letter case. */
  lemma KindIgnoresCase(filename: string)
    ensures KindOf(ToLower(filename)) == KindOf(filename)
  {
    ToLowerIdempotent(filename);
  }

  lemma {:induction false} EndsWithAnyAt(s: string, suffixes: seq<string>, k: nat)
    requires k < |suffixes| && EndsWith(s, suffixes[k])
    ensures EndsWithAny(s, suffixes)
    decreases k
  {
    if k > 0 {
      EndsWithAnyAt(s, suffixes[1..], k - 1);
    }
  }

  /** Lower-casing a name that ends in a lower-case suffix keeps that suffix. */
  lemma LowerEndsWith(stem: string, ext: string)
    requires forall i :: 0 <= i < |ext| ==> !('A' <= ext[i] <= 'Z')
    ensures EndsWith(ToLower(stem + ext), ext)
  {
    var s := stem + ext;
    var l := ToLower(s);
    forall i | 0 <= i < |ext| ensures l[|stem| + i] == ext[i] {
      assert s[|stem| + i] == ext[i];
    }
    assert l[|stem|..] == ext;
  }

  /** A name does not end in `t` when it differs from `t` at position `j`
      of the part `t` would cover. */
  lemma NotSuffix(s: string, t: string, j: nat)
    requires j < |t|
    requires |t| <= |s| ==> s[|s| - |t| + j] != t[j]
    ensures !EndsWith(s, t)
  {
    if |t| <= |s| {
      assert s[|s| - |t|..][j] == s[|s| - |t| + j];
    }
  }

  /** Any name ending in ".tiff" is shown as a picture. */
  lemma TiffIsPicture(stem: string)
    ensures KindOf(stem + ".tiff") == Some(Picture)
  {
    LowerEndsWith(stem, ".tiff");
    EndsWithAnyAt(ToLower(stem + ".tiff"), IMAGE_SUFFIXES, 5);
  }

  /** Any name ending in ".gif" is played as a clip, while the server's
      add-media handler types it an image. */
  lemma GifIsClip(stem: string)
    requires stem != []
    ensures KindOf(stem + ".gif") == Some(Clip) && AddedType(stem + ".gif") == Image
  {
    GifKind(stem);
    NamedExtensionTypes(stem, ".gif");
  }

  lemma GifKind(stem: string)
    ensures KindOf(stem + ".gif") == Some(Clip)
  {
    var l := ToLower(stem + ".gif");
    GifLower(stem);
    NotImage(l);
    EndsWithAnyAt(l, VIDEO_SUFFIXES, 4);
  }

  lemma GifLower(stem: string)
    ensures var l := ToLower(stem + ".gif"); EndsWith(l, ".gif") && l[|l| - 1] == 'f' && l[|l| - 2] == 'i'
  {
    var l := ToLower(stem + ".gif");
    LowerEndsWith(stem, ".gif");
    assert l[|l| - 4..] == ".gif";
  }

  /** A name ending in "if" is not an image name. */
  lemma NotImage(l: string)
    requires |l| >= 2 && l[|l| - 1] == 'f' && l[|l| - 2] == 'i'
    ensures !EndsWithAny(l, IMAGE_SUFFIXES)
  {
    NoImageSuffixMatches(l);
    NoImageSuffix(l);
  }

  lemma NoImageSuffixMatches(l: string)
    requires |l| >= 2 && l[|l| - 1] == 'f' && l[|l| - 2] == 'i'
    ensures !EndsWith(l, ".png") && !EndsWith(l, ".jpg") && !EndsWith(l, ".jpeg")
    ensures !EndsWith(l, ".bmp") && !EndsWith(l, ".webp") && !EndsWith(l, ".tiff")
  {
    NotSuffix(l, ".png", 3);
    NotSuffix(l, ".jpg", 3);
    NotSuffix(l, ".jpeg", 4);
    NotSuffix(l, ".bmp", 3);
    NotSuffix(l, ".webp", 4);
    NotSuffix(l, ".tiff", 3);
  }

  lemma NoImageSuffix(l: string)
    requires !EndsWith(l, ".png") && !EndsWith(l, ".jpg") && !EndsWith(l, ".jpeg")
    requires !EndsWith(l, ".bmp") && !EndsWith(l, ".webp") && !EndsWith(l, ".tiff")
    ensures !EndsWithAny(l, IMAGE_SUFFIXES)
  {
    EndsWithAnyCons(l, ".tiff", []);
    EndsWithAnyCons(l, ".webp", [".tiff"]);
    EndsWithAnyCons(l, ".bmp", [".webp", ".tiff"]);
    EndsWithAnyCons(l, ".jpeg", [".bmp", ".webp", ".tiff"]);
    EndsWithAnyCons(l, ".jpg", [".jpeg", ".bmp", ".webp", ".tiff"]);
    EndsWithAnyCons(l, ".png", [".jpg", ".jpeg", ".bmp", ".webp", ".tiff"]);
  }

  lemma EndsWithAnyCons(s: string, x: string, rest: seq<string>)
    ensures EndsWithAny(s, [x] + rest) == (EndsWith(s, x) || EndsWithAny(s, rest))
  {
    assert ([x] + rest)[1..] == rest;
  }

  /** The slides for a list of file names (lines 63-104): every file of a
      known kind that loads, in list order. */
  function Slides(files: seq<string>, readable: set<string>): (slides: seq<Slide>)
    ensures |slides| <= |files|
    ensures forall k :: 0 <= k < |slides| ==>
      KindOf(slides[k].filename) == Some(slides[k].kind) && slides[k].filename in readable && slides[k].filename in files
  {
    if files == [] then []
    else SlideOf(files[0], readable) + Slides(files[1..], readable)
  }

  /** The slide one file contributes, if any. */
  function SlideOf(filename: string, readable: set<string>): seq<Slide> {
    match KindOf(filename)
    case Some(kind) => if filename in readable then [Slide(filename, kind)] else []
    case None => []
  }

  lemma SlidesOne(f: string, readable: set<string>)
    ensures Slides([f], readable) == SlideOf(f, readable)
  {
    assert [f][1..] == [];
  }

  /** One more file of the list adds its slide, if it has one. */
  lemma SlidesStep(files: seq<string>, i: nat, readable: set<string>)
    requires i < |files|
    ensures Slides(files[..i + 1], readable) == Slides(files[..i], readable) + SlideOf(files[i], readable)
  {
    SlidesAppend(files[..i], [files[i]], readable);
    SlidesOne(files[i], readable);
    assert files[..i + 1] == files[..i] + [files[i]];
  }

  lemma {:induction false} SlidesAppend(a: seq<string>, b: seq<string>, readable: set<string>)
    ensures Slides(a + b, readable) == Slides(a, readable) + Slides(b, readable)
    decreases |a|
  {
    if a == [] {
      assert a + b == b;
    } else {
      assert (a + b)[0] == a[0];
      assert (a + b)[1..] == a[1..] + b;
      SlidesAppend(a[1..], b, readable);
    }
  }

  /** A file is shown, as `kind`, exactly when it is listed, classified as
      `kind`, and loads. */
  lemma {:induction false} SlidesMembership(files: seq<string>, readable: set<string>, f: string, kind: Kind)
    ensures Slide(f, kind) in Slides(files, readable) <==> f in files && KindOf(f) == Some(kind) && f in readable
    decreases |files|
  {
    if files != [] {
      SlidesMembership(files[1..], readable, f, kind);
      assert files == [files[0]] + files[1..];
    }
  }

  /** `str.splitlines()` for text whose only line break is '\n': the lines,
      without an empty piece after a final line break. */
  function SplitLines(s: string): (lines: seq<string>)
    ensures forall k :: 0 <= k < |lines| ==> '\n' !in lines[k]
  {
    if s == [] then []
    else
      var ps := Split(s, '\n');
      if ps[|ps| - 1] == [] then ps[..|ps| - 1] else ps
  }

  /** Joining the lines with newlines gives the file back, but for the one
      trailing newline `splitlines` drops. */
  lemma SplitLinesJoin(s: string)
    ensures Join(SplitLines(s), '\n') + (if s != [] && s[|s| - 1] == '\n' then "\n" else "") == s
  {
    if s != [] {
      var ps := Split(s, '\n');
      var n := |ps|;
      JoinSplit(s, '\n');
      if n == 1 {
        assert s == ps[0];
        assert s[|s| - 1] in ps[0];
      } else {
        assert ps == ps[..n - 1] + [ps[n - 1]];
        JoinSnoc(ps[..n - 1], ps[n - 1], '\n');
        if ps[n - 1] == [] {
          assert s == Join(ps[..n - 1], '\n') + "\n";
        } else {
          assert s[|s| - 1] == ps[n - 1][|ps[n - 1]| - 1];
          assert s[|s| - 1] in ps[n - 1];
        }
      }
    }
  }

  /** The display reads back exactly the file names the server writes into a
      playlist file. */
  lemma DisplayReadsServerFile(filenames: seq<string>)
    requires WellFormedLines(filenames)
    ensures SplitLines(Serialize(filenames)) == filenames
  {
    if filenames != [] {
      JoinEnds(filenames, '\n');
      SplitJoin(filenames, '\n');
    }
  }

  /** With a playlist active, the display shows the slides of exactly the
      file names the server stored in that playlist's file. */
  lemma FrameShowsStoredPlaylist(activeListing: seq<string>, filenames: seq<string>,
                                 uploadListing: seq<string>, readable: set<string>)
    requires activeListing != [] && WellFormedLines(filenames)
    ensures Slides(PlaylistSource(activeListing, Some(Serialize(filenames)), uploadListing), readable)
         == Slides(filenames, readable)
  {
    DisplayReadsServerFile(filenames);
  }

  /** Where `fetchImages` takes its file names from (lines 52-61): the lines of
      the first entry of the active directory's listing, or, when the listing
      is empty (IndexError) or that entry cannot be read (`content` is None,
      an OSError), every file of the upload directory. */
  function PlaylistSource(activeListing: seq<string>, content: Option<string>, uploadListing: seq<string>): (names: seq<string>)
    ensures activeListing == [] || content == None ==> names == uploadListing
  {
    if activeListing != [] && content.Some? then
      SplitLinesJoin(content.value);
      SplitLines(content.value)
    else uploadListing
  }

  // ----------------------------------------------------------- display time

  /** The display-time button (`cb_23`, lines 132-138). */
  function NextDisplayTime(t: int): (next: int)
    ensures 1 <= t <= 5 ==> 1 <= next <= 5 && (t - next) % 5 == 1
  {
    if t > 1 then t - 1 else 5
  }

  function DisplayTimeAfter(t: int, presses: nat): int
    decreases presses
  {
    if presses == 0 then t else DisplayTimeAfter(NextDisplayTime(t), presses - 1)
  }

  lemma {:induction false} DisplayTimeBounded(t: int, presses: nat)
    requires 1 <= t <= 5
    ensures 1 <= DisplayTimeAfter(t, presses) <= 5
    decreases presses
  {
    if presses > 0 {
      DisplayTimeBounded(NextDisplayTime(t), presses - 1);
    }
  }

  lemma {:induction false} DisplayTimeAfterSum(t: int, a: nat, b: nat)
    ensures DisplayTimeAfter(t, a + b) == DisplayTimeAfter(DisplayTimeAfter(t, a), b)
    decreases a
  {
    if a > 0 {
      DisplayTimeAfterSum(NextDisplayTime(t), a - 1, b);
    }
  }

  /** Starting from the initial 3 seconds (line 17) the presses cycle through
      3, 2, 1, 5, 4 and back to 3. */
  lemma {:induction false} DisplayTimeFromStart(presses: nat)
    ensures DisplayTimeAfter(3, presses) == [3, 2, 1, 5, 4][presses % 5]
    decreases presses
  {
    if presses >= 5 {
      DisplayTimeAfterSum(3, 5, presses - 5);
      assert DisplayTimeAfter(3, 5) == 3;
      DisplayTimeFromStart(presses - 5);
    } else if presses > 0 {
      assert DisplayTimeAfter(3, presses) == DisplayTimeAfter(2, presses - 1);
    }
  }

  // -------------------------------------------------------- playback index

  /** `idx = (idx+1) % len(playlist)` (line 322). */
  function Advance(idx: int, n: nat): (r: int)
    requires n > 0
    ensures 0 <= r < n
  {
    (idx + 1) % n
  }

  /** The index after `shows` slides, counting from the reset to 0. */
  function IndexAfterShows(n: nat, shows: nat): int
    requires n > 0
  {
    if shows == 0 then 0 else Advance(IndexAfterShows(n, shows - 1), n)
  }

  lemma MulAtLeast(d: int, n: int)
    requires d >= 1 && n > 0
    ensures d * n >= n
  {
    assert d * n == (d - 1) * n + n;
    assert (d - 1) * n >= 0;
  }

  /** The remainder is the one `r` in range with `a == q * n + r`. */
  lemma ModUnique(a: int, n: int, q: int, r: int)
    requires n > 0 && a == q * n + r && 0 <= r < n
    ensures a % n == r
  {
    var q2, r2 := a / n, a % n;
    assert a == q2 * n + r2;
    var d := q - q2;
    assert d * n == q * n - q2 * n;
    assert d * n == r2 - r;
    if d >= 1 {
      MulAtLeast(d, n);
    } else if d <= -1 {
      MulAtLeast(-d, n);
    }
  }

  lemma ModSucc(m: nat, n: nat)
    requires n > 0
    ensures (m % n + 1) % n == (m + 1) % n
  {
    var q, r := m / n, m % n;
    assert m == q * n + r;
    if r + 1 < n {
      ModUnique(m + 1, n, q, r + 1);
      ModUnique(r + 1, n, 0, r + 1);
    } else {
      ModUnique(m + 1, n, q + 1, 0);
      assert (q + 1) * n == q * n + n;
      ModUnique(r + 1, n, 1, 0);
    }
  }

  /** Playback visits the slides round-robin: after `shows` slides the index
      is `shows mod n`. */
  lemma {:induction false} IndexAfterShowsMod(n: nat, shows: nat)
    requires n > 0
    ensures IndexAfterShows(n, shows) == shows % n
  {
    if shows > 0 {
      IndexAfterShowsMod(n, shows - 1);
      ModSucc(shows - 1, n);
    } else {
      ModUnique(0, n, 0, 0);
    }
  }

  // ----------------------------------------------------------------- menu

  /** The names the menu keeps (line 160): at least four characters, ending
      in ".txt". */
  predicate IsMenuName(name: string)
    ensures IsMenuName(name) <==> IsPlaylistFile(name)
    ensures IsMenuName(name) ==> FileName(BaseName(name)) == name
  {
    |name| >= 4 && EndsWith(name, ".txt")
  }

  /** The removal loop of lines 159-161 as written: `for i in range(n)` with
      `playlists.pop(i)` inside, from index `i` on. A pop shifts the rest left,
      so the next entry is never examined, and once the list is shorter than
      `n` the index runs past its end: None is that IndexError. */
  function PopLoop(ps: seq<string>, i: nat, n: nat): (r: Option<seq<string>>)
    ensures r.Some? ==> |r.value| <= |ps| && forall x :: x in r.value ==> x in ps
    decreases n - i
  {
    if i >= n then Some(ps)
    else if i >= |ps| then None
    else if !IsMenuName(ps[i]) then PopLoop(ps[..i] + ps[i + 1..], i + 1, n)
    else PopLoop(ps, i + 1, n)
  }

  /** The removal loop, run on a copy of the listing. */
  method FilterMenuAsWritten(listing: seq<string>) returns (r: Option<seq<string>>)
    ensures r == PopLoop(listing, 0, |listing|)
  {
    var playlists := listing;
    var n := |listing|;
    var i := 0;
    while i < n
      invariant 0 <= i <= n
      invariant PopLoop(playlists, i, n) == PopLoop(listing, 0, n)
    {
      if i >= |playlists| {
        return None;
      }
      if !IsMenuName(playlists[i]) {
        playlists := playlists[..i] + playlists[i + 1..];
      }
      i := i + 1;
    }
    return Some(playlists);
  }

  /** Once the list is shorter than the loop's bound, the loop fails. */
  lemma {:induction false} PopLoopRunsPastEnd(ps: seq<string>, i: nat, n: nat)
    requires i < n && |ps| < n
    ensures PopLoop(ps, i, n) == None
    decreases n - i
  {
    if i < |ps| {
      if !IsMenuName(ps[i]) {
        PopLoopRunsPastEnd(ps[..i] + ps[i + 1..], i + 1, n);
      } else {
        PopLoopRunsPastEnd(ps, i + 1, n);
      }
    }
  }

  /** A rejected name sits somewhere before the last position. */
  predicate StrayBeforeLast(ps: seq<string>) {
    exists k :: 0 <= k < |ps| - 1 && !IsMenuName(ps[k])
  }

  /** The closed form of the loop's result. */
  function PopLoopResult(ps: seq<string>): Option<seq<string>> {
    if StrayBeforeLast(ps) then None
    else if ps != [] && !IsMenuName(ps[|ps| - 1]) then Some(ps[..|ps| - 1])
    else Some(ps)
  }

  lemma {:induction false} PopLoopFrom(ps: seq<string>, i: nat)
    requires i <= |ps| && forall k :: 0 <= k < i ==> IsMenuName(ps[k])
    ensures PopLoop(ps, i, |ps|) == PopLoopResult(ps)
    decreases |ps| - i
  {
    var n := |ps|;
    if i == n {
      assert !StrayBeforeLast(ps);
    } else if IsMenuName(ps[i]) {
      PopLoopFrom(ps, i + 1);
    } else if i < n - 1 {
      assert StrayBeforeLast(ps) by {
        assert 0 <= i < n - 1 && !IsMenuName(ps[i]);
      }
      PopLoopRunsPastEnd(ps[..i] + ps[i + 1..], i + 1, n);
    } else {
      assert !StrayBeforeLast(ps);
      assert ps[..i] + ps[i + 1..] == ps[..n - 1];
    }
  }

  /** What the loop does, in closed form: it fails when a rejected name sits
      anywhere before the last position, drops the last name when only that
      one is rejected, and otherwise keeps the list. */
  lemma PopLoopClosedForm(ps: seq<string>)
    ensures PopLoop(ps, 0, |ps|) ==
      if exists k :: 0 <= k < |ps| - 1 && !IsMenuName(ps[k]) then None
      else if ps != [] && !IsMenuName(ps[|ps| - 1]) then Some(ps[..|ps| - 1])
      else Some(ps)
  {
    PopLoopFrom(ps, 0);
    assert PopLoop(ps, 0, |ps|) == PopLoopResult(ps);
  }

  /** The evidently intended filter: every name the menu keeps, in order. */
  function MenuNames(ps: seq<string>): (names: seq<string>)
    ensures |names| <= |ps|
    ensures forall x :: x in names <==> x in ps && IsMenuName(x)
  {
    if ps == [] then []
    else (if IsMenuName(ps[0]) then [ps[0]] else []) + MenuNames(ps[1..])
  }

  lemma {:induction false} MenuNamesAllKept(ps: seq<string>)
    requires forall k :: 0 <= k < |ps| ==> IsMenuName(ps[k])
    ensures MenuNames(ps) == ps
    decreases |ps|
  {
    if ps != [] {
      MenuNamesAllKept(ps[1..]);
      assert ps == [ps[0]] + ps[1..];
    }
  }

  lemma {:induction false} MenuNamesSnoc(ps: seq<string>, x: string)
    ensures MenuNames(ps + [x]) == MenuNames(ps) + (if IsMenuName(x) then [x] else [])
    decreases |ps|
  {
    if ps == [] {
      assert ps + [x] == [x];
    } else {
      var head := if IsMenuName(ps[0]) then [ps[0]] else [];
      assert (ps + [x])[0] == ps[0];
      assert (ps + [x])[1..] == ps[1..] + [x];
      MenuNamesSnoc(ps[1..], x);
      assert MenuNames(ps + [x]) == head + MenuNames(ps[1..] + [x]);
      assert MenuNames(ps) == head + MenuNames(ps[1..]);
    }
  }

  /** The filter keeps the order of the parts it is given. */
  lemma {:induction false} MenuNamesAppend(a: seq<string>, b: seq<string>)
    ensures MenuNames(a + b) == MenuNames(a) + MenuNames(b)
    decreases |a|
  {
    if a == [] {
      assert a + b == b;
    } else {
      var head := if IsMenuName(a[0]) then [a[0]] else [];
      assert (a + b)[0] == a[0];
      assert (a + b)[1..] == a[1..] + b;
      MenuNamesAppend(a[1..], b);
      assert MenuNames(a + b) == head + MenuNames(a[1..] + b);
      assert MenuNames(a) == head + MenuNames(a[1..]);
    }
  }

  /** A loop that does not fail met no rejected name before the last one. */
  lemma PopLoopSucceedsOnlyOnMenuPrefix(ps: seq<string>)
    requires PopLoop(ps, 0, |ps|).Some?
    ensures forall k :: 0 <= k < |ps| - 1 ==> IsMenuName(ps[k])
    ensures PopLoop(ps, 0, |ps|).value ==
      if ps != [] && !IsMenuName(ps[|ps| - 1]) then ps[..|ps| - 1] else ps
  {
    PopLoopClosedForm(ps);
  }

  /** A list whose only rejected name is its last one filters to its front. */
  lemma {:induction false} MenuNamesDropsLast(ps: seq<string>)
    requires ps != [] && !IsMenuName(ps[|ps| - 1])
    requires forall k :: 0 <= k < |ps| - 1 ==> IsMenuName(ps[k])
    ensures MenuNames(ps) == ps[..|ps| - 1]
  {
    var init, last := ps[..|ps| - 1], ps[|ps| - 1];
    forall k | 0 <= k < |init| ensures IsMenuName(init[k]) {
      assert init[k] == ps[k];
    }
    MenuNamesAllKept(init);
    assert ps == init + [last];
    MenuNamesSnoc(init, last);
  }

  /** Whenever the loop as written does not fail, it agrees with the filter. */
  lemma PopLoopAgreesWhenItSucceeds(ps: seq<string>)
    requires PopLoop(ps, 0, |ps|).Some?
    ensures PopLoop(ps, 0, |ps|).value == MenuNames(ps)
  {
    PopLoopSucceedsOnlyOnMenuPrefix(ps);
    if ps != [] && !IsMenuName(ps[|ps| - 1]) {
      MenuNamesDropsLast(ps);
    } else {
      MenuNamesAllKept(ps);
    }
  }

  /** A listing with a stray file before the last playlist makes the loop
      fail where the filter keeps both playlists. */
  lemma PopLoopFailsOnStrayFile()
    ensures PopLoop(["a.txt", "notes", "b.txt"], 0, 3) == None
    ensures MenuNames(["a.txt", "notes", "b.txt"]) == ["a.txt", "b.txt"]
  {
    var ps := ["a.txt", "notes", "b.txt"];
    assert !IsMenuName(ps[1]) by {
      assert ps[1][1..] != ".txt";
    }
    PopLoopClosedForm(ps);
    assert IsMenuName(ps[0]) by {
      assert ps[0][1..] == ".txt";
    }
    assert IsMenuName(ps[2]) by {
      assert ps[2][1..] == ".txt";
    }
    assert ps == [ps[0]] + ([ps[1]] + [ps[2]]);
  }

  /** The menu list of one frame (lines 156-161), with the removal loop
      replaced by the filter it evidently intends: the active listing, then
      the sorted inactive listing, playlist files only. */
  function MenuList(activeListing: seq<string>, inactiveListing: seq<string>): (names: seq<string>)
    ensures forall x :: x in names <==> (x in activeListing || x in inactiveListing) && IsMenuName(x)
    ensures names == MenuNames(activeListing) + MenuNames(Sort(inactiveListing))
  {
    SortKeepsAllNames(inactiveListing);
    MenuNamesAppend(activeListing, Sort(inactiveListing));
    MenuNames(activeListing + Sort(inactiveListing))
  }

  // ------------------------------------------------------- scroll and tap

  /** Where the menu's scroll offset stays for a list of `count` names. */
  predicate OffsetInRange(offset: int, count: nat) {
    0 <= offset && (offset <= count - 5 || offset == 0)
  }

  /** The up arrow (line 187): one step up, only above 0, staying in range. */
  function ScrollUpOffset(offset: int): (r: int)
    ensures offset - 1 <= r <= offset
    ensures r != offset <==> offset > 0
    ensures forall count: nat :: OffsetInRange(offset, count) ==> OffsetInRange(r, count)
  {
    if offset > 0 then offset - 1 else offset
  }

  /** The down arrow (line 189): one step down, only below `count - 5`,
      staying in range. */
  function ScrollDownOffset(offset: int, count: nat): (r: int)
    ensures offset <= r <= offset + 1
    ensures r != offset <==> offset < count - 5
    ensures OffsetInRange(offset, count) ==> OffsetInRange(r, count)
  {
    if offset < count - 5 then offset + 1 else offset
  }

  function Min(a: int, b: int): int {
    if a < b then a else b
  }

  /** Each of the `min(count, 5)` rows shows, and selects, a listed name
      (lines 192-194, 198-205). */
  lemma RowsShowListedNames(offset: int, count: nat, row: nat)
    requires OffsetInRange(offset, count) && row < Min(count, 5)
    ensures 0 <= row + offset < count
  {
  }

  /** The menu list is re-read every frame while the offset stays put, so a
      list that shrinks under a scrolled offset leaves it out of range: seven
      playlists scrolled down twice, then one deleted, and row 4 indexes
      position 6 of a list of six. */
  lemma StaleOffsetRunsPastEnd()
    ensures OffsetInRange(ScrollDownOffset(ScrollDownOffset(0, 7), 7), 7)
    ensures var offset := ScrollDownOffset(ScrollDownOffset(0, 7), 7);
      offset == 2 && !OffsetInRange(offset, 6) && 4 < Min(6, 5) && 4 + offset >= 6
  {
  }

  // ---------------------------------------------------------------- moves

  /** `mv <from>/<name> <to>/` on the two directories' name sets: the name
      changes sides when it is there, otherwise mv fails and nothing moves. */
  function Move(name: string, from: set<string>, to: set<string>): (r: (set<string>, set<string>))
    ensures r.0 + r.1 == from + to
    ensures r.0 <= from && to <= r.1
    ensures name in from ==> name !in r.0 && name in r.1
    ensures name !in from ==> r == (from, to)
    ensures from !! to ==> r.0 !! r.1
  {
    if name in from then (from - {name}, to + {name}) else (from, to)
  }

  /** The moves of the Start and Back buttons (lines 171-175, 180-184) on the
      active and inactive directories: the first menu name leaves the active
      directory when that directory holds anything, then the selected name
      enters it. None is the IndexError that ends the program. */
  function ActivateSelected(active: set<string>, inactive: set<string>, playlists: seq<string>, selected: nat)
    : (r: Option<(set<string>, set<string>)>)
    ensures r == None <==> (active != {} && playlists == []) || selected >= |playlists|
    ensures r.Some? ==> r.value.0 + r.value.1 == active + inactive
    ensures r.Some? && active !! inactive ==> r.value.0 !! r.value.1
    ensures r.Some? && playlists[selected] in active + inactive ==> playlists[selected] in r.value.0
    ensures r.Some? ==> r.value.0 <= (if active != {} then active - {playlists[0]} else active) + {playlists[selected]}
  {
    if active != {} && playlists == [] then None
    else
      var (a1, i1) := if active != {} then Move(playlists[0], active, inactive) else (active, inactive);
      if selected >= |playlists| then None
      else
        var (i2, a2) := Move(playlists[selected], i1, a1);
        Some((a2, i2))
  }

  /** A set of at most one element that holds `x` is `{x}`. */
  lemma SingletonOf(s: set<string>, x: string)
    requires |s| <= 1 && x in s
    ensures s == {x}
  {
    var rest := s - {x};
    assert s == rest + {x};
    assert |rest| == 0;
  }


  /** With at most one active playlist, listed first, Start and Back make the
      selected playlist the only active one and every other one inactive. */
  lemma ActivationMovesSelected(active: set<string>, inactive: set<string>, ps: seq<string>, selected: nat)
    requires |active| <= 1 && selected < |ps|
    requires active != {} ==> ps[0] in active
    requires ps[selected] in active + inactive
    ensures ActivateSelected(active, inactive, ps, selected) == Some(({ps[selected]}, (active + inactive) - {ps[selected]}))
  {
    var p := ps[selected];
    var all := active + inactive;
    if active != {} {
      assert Move(ps[0], active, inactive) == ({}, all) by {
        SingletonOf(active, ps[0]);
        assert active - {ps[0]} == {};
        assert inactive + {ps[0]} == all;
      }
      MoveIntoEmpty(p, all);
    } else {
      assert inactive == all;
      MoveIntoEmpty(p, all);
    }
  }

  /** Moving a held name into an empty directory leaves it alone there. */
  lemma MoveIntoEmpty(name: string, from: set<string>)
    requires name in from
    ensures Move(name, from, {}) == (from - {name}, {name})
  {
    assert {} + {name} == {name};
  }

  /** With at most one active playlist and valid names throughout, the menu
      list is the active listing followed by the sorted inactive one, and
      Start or Back leaves exactly the chosen playlist active. */
  lemma ExactlySelectedActive(active: set<string>, inactive: set<string>,
                              activeListing: seq<string>, inactiveListing: seq<string>, selected: nat)
    requires Lists(activeListing, active) && Lists(inactiveListing, inactive) && |active| <= 1
    requires forall k :: 0 <= k < |activeListing| ==> IsMenuName(activeListing[k])
    requires forall k :: 0 <= k < |inactiveListing| ==> IsMenuName(inactiveListing[k])
    requires selected < |activeListing| + |inactiveListing|
    ensures var ps := activeListing + Sort(inactiveListing);
      && MenuList(activeListing, inactiveListing) == ps
      && ActivateSelected(active, inactive, ps, selected) == Some(({ps[selected]}, (active + inactive) - {ps[selected]}))
  {
    var sorted := Sort(inactiveListing);
    var ps := activeListing + sorted;
    forall k | 0 <= k < |ps| ensures IsMenuName(ps[k]) && ps[k] in active + inactive {
      if k >= |activeListing| {
        assert ps[k] == sorted[k - |activeListing|];
        SortKeepsNames(inactiveListing, ps[k]);
        var j :| 0 <= j < |inactiveListing| && inactiveListing[j] == ps[k];
      } else {
        assert ps[k] == activeListing[k];
      }
    }
    MenuNamesAllKept(ps);
    ListsEmpty(activeListing, active);
    ActivationMovesSelected(active, inactive, ps, selected);
  }

  // ---------------------------------------------------------- the frame

  /** The script's module globals and the two playlist directories. */
  class Frame {
    var menu: bool
    var select: bool
    var pause: bool
    var displayTime: int
    var idx: int
    var selected: nat
    var offset: int
    var playlist: seq<Slide>
    var active: set<string>
    var inactive: set<string>

    /** The display time stays within 1 to 5 seconds, the offset is not
        negative, and the playback index is a position of a non-empty list. */
    ghost predicate Valid()
      reads this
    {
      && 1 <= displayTime <= 5
      && 0 <= offset
      && (playlist == [] || 0 <= idx < |playlist|)
    }

    /** The values the script starts with (lines 13-20, 42-46). */
    constructor (active: set<string>, inactive: set<string>)
      ensures menu && !select && !pause && displayTime == 3 && idx == 0
      ensures selected == 0 && offset == 0 && playlist == []
      ensures this.active == active && this.inactive == inactive
      ensures Valid()
    {
      menu, select, pause := true, false, false;
      displayTime, idx, selected, offset := 3, 0, 0, 0;
      playlist := [];
      this.active, this.inactive := active, inactive;
    }

    /** `cb_23`. */
    method CycleDisplayTime()
      requires Valid()
      modifies this
      ensures displayTime == NextDisplayTime(old(displayTime))
      ensures menu == old(menu) && select == old(select) && pause == old(pause) && idx == old(idx)
      ensures selected == old(selected) && offset == old(offset) && playlist == old(playlist)
      ensures active == old(active) && inactive == old(inactive)
      ensures Valid()
    {
      if displayTime > 1 {
        displayTime := displayTime - 1;
      } else {
        displayTime := 5;
      }
    }

    /** `cb_17`. */
    method TogglePause()
      requires Valid()
      modifies this
      ensures pause == !old(pause)
      ensures menu == old(menu) && select == old(select) && displayTime == old(displayTime) && idx == old(idx)
      ensures selected == old(selected) && offset == old(offset) && playlist == old(playlist)
      ensures active == old(active) && inactive == old(inactive)
      ensures Valid()
    {
      pause := !pause;
    }

    /** `cb_22`: back to the main menu (the wait for the loader thread is not
        modelled). */
    method ReturnToMenu()
      requires Valid()
      modifies this
      ensures menu
      ensures select == old(select) && pause == old(pause) && displayTime == old(displayTime) && idx == old(idx)
      ensures selected == old(selected) && offset == old(offset) && playlist == old(playlist)
      ensures active == old(active) && inactive == old(inactive)
      ensures Valid()
    {
      menu := true;
    }

    /** The "Select playlist" button of the main menu (lines 246-247). */
    method OpenSelectMenu()
      requires Valid() && menu && !select
      modifies this
      ensures select
      ensures menu == old(menu) && pause == old(pause) && displayTime == old(displayTime) && idx == old(idx)
      ensures selected == old(selected) && offset == old(offset) && playlist == old(playlist)
      ensures active == old(active) && inactive == old(inactive)
      ensures Valid()
    {
      select := true;
    }

    /** The up arrow of the playlist menu, for a menu of `count` names. */
    method ScrollUp(count: nat)
      requires Valid() && select
      modifies this
      ensures offset == ScrollUpOffset(old(offset))
      ensures old(OffsetInRange(offset, count)) ==> OffsetInRange(offset, count)
      ensures menu == old(menu) && select == old(select) && pause == old(pause)
      ensures displayTime == old(displayTime) && idx == old(idx) && selected == old(selected)
      ensures playlist == old(playlist) && active == old(active) && inactive == old(inactive)
      ensures Valid()
    {
      if offset > 0 {
        offset := offset - 1;
      }
    }

    /** The down arrow of the playlist menu, for a menu of `count` names. */
    method ScrollDown(count: nat)
      requires Valid() && select
      modifies this
      ensures offset == ScrollDownOffset(old(offset), count)
      ensures old(OffsetInRange(offset, count)) ==> OffsetInRange(offset, count)
      ensures menu == old(menu) && select == old(select) && pause == old(pause)
      ensures displayTime == old(displayTime) && idx == old(idx) && selected == old(selected)
      ensures playlist == old(playlist) && active == old(active) && inactive == old(inactive)
      ensures Valid()
    {
      if offset < count - 5 {
        offset := offset + 1;
      }
    }

    /** A tap on row `row` of a menu of `count` names selects the name shown
        there. */
    method TapRow(row: nat, count: nat)
      requires Valid() && select && row < Min(count, 5)
      modifies this
      ensures selected == row + old(offset)
      ensures old(OffsetInRange(offset, count)) ==> selected < count
      ensures menu == old(menu) && select == old(select) && pause == old(pause)
      ensures displayTime == old(displayTime) && idx == old(idx) && offset == old(offset)
      ensures playlist == old(playlist) && active == old(active) && inactive == old(inactive)
      ensures Valid()
    {
      selected := row + offset;
    }

    /** `fetchImages` (lines 48-104): `activeListing` is the active
        directory's listing, `content` the text of its first entry (None when
        it cannot be read), `uploadListing` the upload directory's listing.
        It replaces the playlist without touching `idx`, so it does not keep
        `Valid()` by itself: only Start and PlayAll call it, and both set
        `idx` to 0 just before, which any new playlist admits. */
    method FetchImages(activeListing: seq<string>, content: Option<string>, uploadListing: seq<string>, readable: set<string>)
      requires Lists(activeListing, active)
      modifies this
      ensures playlist == Slides(PlaylistSource(activeListing, content, uploadListing), readable)
      ensures menu == old(menu) && select == old(select) && pause == old(pause) && displayTime == old(displayTime)
      ensures idx == old(idx) && selected == old(selected) && offset == old(offset)
      ensures active == old(active) && inactive == old(inactive)
    {
      var files := PlaylistSource(activeListing, content, uploadListing);
      var slides := [];
      var i := 0;
      while i < |files|
        invariant 0 <= i <= |files|
        invariant slides == Slides(files[..i], readable)
        modifies {}
      {
        SlidesStep(files, i, readable);
        slides := slides + SlideOf(files[i], readable);
        i := i + 1;
      }
      assert files[..|files|] == files;
      playlist := slides;
    }

    /** The Start button of the playlist menu (lines 167-177): activates the
        selected playlist, leaves the menus and starts playback from the first
        slide. `playlists` is this frame's menu list and `newActiveListing`
        the active directory's listing after the moves. */
    method Start(playlists: seq<string>, newActiveListing: seq<string>, content: Option<string>,
                 uploadListing: seq<string>, readable: set<string>) returns (crashed: bool)
      requires Valid() && select
      requires var after := ActivateSelected(active, inactive, playlists, selected);
        after.Some? ==> Lists(newActiveListing, after.value.0)
      modifies this
      ensures crashed <==> ActivateSelected(old(active), old(inactive), playlists, old(selected)).None?
      ensures !crashed ==>
        && (active, inactive) == ActivateSelected(old(active), old(inactive), playlists, old(selected)).value
        && !menu && !select && selected == 0 && offset == 0 && idx == 0
        && playlist == Slides(PlaylistSource(newActiveListing, content, uploadListing), readable)
        && pause == old(pause) && displayTime == old(displayTime)
        && Valid()
    {
      menu, select := false, false;
      var after := ActivateSelected(active, inactive, playlists, selected);
      if after.None? {
        return true;
      }
      crashed := false;
      active, inactive := after.value.0, after.value.1;
      selected, offset, idx := 0, 0, 0;
      FetchImages(newActiveListing, content, uploadListing, readable);
    }

    /** The Back button of the playlist menu (lines 178-185): the same moves
        as Start, then back to the main menu without reloading. */
    method Back(playlists: seq<string>) returns (crashed: bool)
      requires Valid() && select
      modifies this
      ensures crashed <==> ActivateSelected(old(active), old(inactive), playlists, old(selected)).None?
      ensures !crashed ==>
        && (active, inactive) == ActivateSelected(old(active), old(inactive), playlists, old(selected)).value
        && !select && selected == 0 && offset == 0
        && menu == old(menu) && idx == old(idx) && playlist == old(playlist)
        && pause == old(pause) && displayTime == old(displayTime)
        && Valid()
    {
      select := false;
      var after := ActivateSelected(active, inactive, playlists, selected);
      if after.None? {
        return true;
      }
      crashed := false;
      active, inactive := after.value.0, after.value.1;
      selected, offset := 0, 0;
    }

    /** The "Play all" button of the main menu (lines 231-239): the first
        active entry is moved out, so the display falls back to every upload
        once no playlist is active. `activeListing` lists the active directory
        before the move and `newActiveListing` after it. */
    method PlayAll(activeListing: seq<string>, newActiveListing: seq<string>, content: Option<string>,
                   uploadListing: seq<string>, readable: set<string>)
      requires Valid() && menu && !select
      requires Lists(activeListing, active)
      requires Lists(newActiveListing, if activeListing != [] then Move(activeListing[0], active, inactive).0 else active)
      modifies this
      ensures (active, inactive) == if activeListing != [] then Move(activeListing[0], old(active), old(inactive)) else (old(active), old(inactive))
      ensures !menu && idx == 0
      ensures playlist == Slides(PlaylistSource(newActiveListing, content, uploadListing), readable)
      ensures old(|active|) <= 1 ==> active == {} && playlist == Slides(uploadListing, readable)
      ensures select == old(select) && pause == old(pause) && displayTime == old(displayTime)
      ensures selected == old(selected) && offset == old(offset)
      ensures Valid()
    {
      menu := false;
      ghost var before := active;
      ListsEmpty(activeListing, active);
      if activeListing != [] {
        if |active| <= 1 {
          SingletonOf(active, activeListing[0]);
        }
        var moved := Move(activeListing[0], active, inactive);
        active, inactive := moved.0, moved.1;
      }
      ListsEmpty(newActiveListing, active);
      idx := 0;
      FetchImages(newActiveListing, content, uploadListing, readable);
    }

    /** One pass of the playback branch (lines 275-322): with no slides it
        returns to the menu; otherwise it shows the current slide and moves to
        the next one, wrapping round at the end. */
    method ShowNext() returns (shown: Option<Slide>)
      requires Valid() && !menu && !select
      modifies this
      ensures old(playlist) == [] ==> shown == None && menu && idx == old(idx)
      ensures old(playlist) != [] ==>
        shown == Some(old(playlist)[old(idx)]) && idx == Advance(old(idx), |old(playlist)|) && !menu
      ensures select == old(select) && pause == old(pause) && displayTime == old(displayTime)
      ensures selected == old(selected) && offset == old(offset) && playlist == old(playlist)
      ensures active == old(active) && inactive == old(inactive)
      ensures Valid()
    {
      if playlist == [] {
        menu := true;
        return None;
      }
      shown := Some(playlist[idx]);
      idx := (idx + 1) % |playlist|;
    }
  }
}
