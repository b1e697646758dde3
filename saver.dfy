/** The file naming and saving rules of `utils/saver.py` (`ContentSaver`):
    file-name sanitising, the image extension and name rule, the path rule of
    both modes and the saved-image counter. Downloading and writing files are
    oracles whose success or failure is all the saver sees. */
module Saver {
  import opened Strings

  /** The characters Windows forbids in file names; each becomes `_`. */
  const InvalidChars: string := "<>:\"/\\|?*"
  /** Sanitised names are cut to this many characters. */
  const MaxNameLength: nat := 255
  /** The image extensions kept as they are; anything else becomes `jpg`. */
  const ImageExtensions: seq<string> := ["jpg", "jpeg", "png", "gif", "bmp"]
  const DefaultExtension: string := "jpg"

  /** The two save roots of the crawler's `save_paths` dictionary. */
  datatype SavePaths = SavePaths(picture: string, novel: string)

  // ---------------------------------------------------------------------
  // File-name sanitising
  // ---------------------------------------------------------------------

  /** `s.replace(c, '_')`. */
  function Replace(s: string, c: char): (r: string)
    ensures |r| == |s|
    ensures forall i :: 0 <= i < |s| && s[i] != c ==> r[i] == s[i]
    ensures forall i :: 0 <= i < |s| && s[i] == c ==> r[i] == '_'
  {
    if s == [] then []
    else [if s[0] == c then '_' else s[0]] + Replace(s[1..], c)
  }

  /** What the replace loop has made of one character after the characters
      `done` have been replaced. */
  function ReplacedChar(c: char, done: string): char
  {
    if c in done then '_' else c
  }

  /** The string after every invalid character has been replaced by `_`,
      character by character. */
  function MapInvalid(s: string): (r: string)
    ensures |r| == |s|
    ensures forall i :: 0 <= i < |s| ==> r[i] == ReplacedChar(s[i], InvalidChars)
  {
    if s == [] then [] else [ReplacedChar(s[0], InvalidChars)] + MapInvalid(s[1..])
  }

  /** `''.join(c for c in s if c.isprintable())`. */
  function KeepPrintable(s: string): (r: string)
    ensures |r| <= |s|
    ensures forall i :: 0 <= i < |r| ==> IsPrintable(r[i]) && r[i] in s
  {
    if s == [] then []
    else (if IsPrintable(s[0]) then [s[0]] else []) + KeepPrintable(s[1..])
  }

  /** The sanitised file name: invalid characters mapped to `_`,
      non-printable characters removed, the first 255 characters kept. */
  function SanitizedName(s: string): (r: string)
    ensures |r| <= MaxNameLength
    ensures forall i :: 0 <= i < |r| ==> r[i] !in InvalidChars && IsPrintable(r[i])
  {
    var t := KeepPrintable(MapInvalid(s));
    if |t| <= MaxNameLength then t else t[..MaxNameLength]
  }

  /** `_sanitize_filename`: the replace loop over the invalid characters,
      the printable filter and the cut. */
  method SanitizeFilename(filename: string) returns (name: string)
    ensures name == SanitizedName(filename)
  {
    var s := filename;
    for k := 0 to |InvalidChars|
      invariant |s| == |filename|
      invariant forall i :: 0 <= i < |s| ==> s[i] == ReplacedChar(filename[i], InvalidChars[..k])
    {
      assert InvalidChars[..k + 1] == InvalidChars[..k] + [InvalidChars[k]];
      s := Replace(s, InvalidChars[k]);
    }
    assert InvalidChars[..|InvalidChars|] == InvalidChars;
    assert s == MapInvalid(filename);
    name := KeepPrintable(s);
    if |name| > MaxNameLength {
      name := name[..MaxNameLength];
    }
  }

  /** A name the sanitiser can produce: no invalid character, every
      character printable, at most 255 characters. */
  predicate IsSafeName(s: string)
  {
    |s| <= MaxNameLength && forall i :: 0 <= i < |s| ==> s[i] !in InvalidChars && IsPrintable(s[i])
  }

  lemma {:induction false} MapInvalidKeepsValid(s: string)
    requires forall i :: 0 <= i < |s| ==> s[i] !in InvalidChars
    ensures MapInvalid(s) == s
  {
    if s != [] {
      assert forall i :: 0 <= i < |s| - 1 ==> s[1..][i] == s[i + 1];
      MapInvalidKeepsValid(s[1..]);
    }
  }

  lemma {:induction false} KeepPrintableKeepsPrintable(s: string)
    requires forall i :: 0 <= i < |s| ==> IsPrintable(s[i])
    ensures KeepPrintable(s) == s
  {
    if s != [] {
      assert forall i :: 0 <= i < |s| - 1 ==> s[1..][i] == s[i + 1];
      KeepPrintableKeepsPrintable(s[1..]);
    }
  }

  /** The printable filter works piecewise, so the characters it keeps stay
      in their order. */
  lemma {:induction false} KeepPrintableAppend(a: string, b: string)
    ensures KeepPrintable(a + b) == KeepPrintable(a) + KeepPrintable(b)
  {
    if a != [] {
      assert (a + b)[1..] == a[1..] + b;
      KeepPrintableAppend(a[1..], b);
    } else {
      assert a + b == b;
    }
  }

  /** A name is left unchanged by the sanitiser exactly when it is already a
      safe name; in particular sanitising twice is sanitising once. */
  lemma SanitizedNameFixedPoints(s: string)
    ensures SanitizedName(s) == s <==> IsSafeName(s)
    ensures SanitizedName(SanitizedName(s)) == SanitizedName(s)
  {
    if IsSafeName(s) {
      MapInvalidKeepsValid(s);
      KeepPrintableKeepsPrintable(s);
    }
    var t := SanitizedName(s);
    MapInvalidKeepsValid(t);
    KeepPrintableKeepsPrintable(t);
  }

  /** A sanitised name never starts a new absolute path. */
  lemma SanitizedNameHasNoSlash(s: string)
    ensures '/' !in SanitizedName(s)
  {
    assert InvalidChars[4] == '/';
  }

  // ---------------------------------------------------------------------
  // Image extension and file names
  // ---------------------------------------------------------------------

  /** `s.split(sep)[-1]`: the text after the last `sep`, or all of `s`. */
  function LastSegment(s: string, sep: char): (r: string)
    ensures sep !in r
    ensures |r| <= |s|
  {
    if s == [] then []
    else if s[|s| - 1] == sep then []
    else LastSegment(s[..|s| - 1], sep) + [s[|s| - 1]]
  }

  /** The last segment is the tail of the string, and it is either all of
      the string or preceded by the separator. */
  lemma {:induction false} LastSegmentIsTail(s: string, sep: char)
    ensures EndsWith(s, LastSegment(s, sep))
    ensures |LastSegment(s, sep)| < |s| ==> s[|s| - |LastSegment(s, sep)| - 1] == sep
  {
    if s != [] && s[|s| - 1] != sep {
      var init := s[..|s| - 1];
      LastSegmentIsTail(init, sep);
      var r0 := LastSegment(init, sep);
      assert init[|init| - |r0|..] == r0;
      assert s[|s| - |r0| - 1..] == init[|init| - |r0|..] + [s[|s| - 1]];
      if |r0| < |init| {
        assert s[|s| - |r0| - 2] == init[|init| - |r0| - 1];
      }
    }
  }

  /** The extension an image is saved with. */
  function ImageExtension(url: string): (ext: string)
    ensures ext in ImageExtensions
  {
    var e := Lower(LastSegment(url, '.'));
    if e in ImageExtensions then e else DefaultExtension
  }

  /** A string that ends in `sep` followed by a run without `sep` has that
      run as its last segment. */
  lemma {:induction false} LastSegmentOfSuffix(base: string, e: string, sep: char)
    requires sep !in e
    ensures LastSegment(base + [sep] + e, sep) == e
  {
    var s := base + [sep] + e;
    if e == [] {
      assert s[|s| - 1] == sep;
    } else {
      assert s[..|s| - 1] == base + [sep] + e[..|e| - 1];
      LastSegmentOfSuffix(base, e[..|e| - 1], sep);
      assert e == e[..|e| - 1] + [e[|e| - 1]];
    }
  }

  /** A URL ending in `.<e>` is saved with extension `e` in lower case when
      that is an allowed extension, and with `jpg` otherwise. */
  lemma ImageExtensionOfUrl(base: string, e: string)
    requires '.' !in e
    ensures ImageExtension(base + "." + e) ==
      (if Lower(e) in ImageExtensions then Lower(e) else DefaultExtension)
  {
    LastSegmentOfSuffix(base, e, '.');
  }

  /** `image_<i+1>.<ext>` for the image at 0-based position `i`. */
  function ImageName(i: nat, ext: string): string
  {
    "image_" + DecimalString(i + 1) + "." + ext
  }

  /** An image name never starts a new absolute path. */
  lemma ImageNameIsRelative(i: nat, ext: string)
    ensures !StartsWith(ImageName(i, ext), "/")
  {
    assert ImageName(i, ext)[0] == 'i';
  }

  /** Images at different positions get different names, whatever their
      extensions. */
  lemma ImageNamesDistinct(i: nat, j: nat, ei: string, ej: string)
    requires i != j
    ensures ImageName(i, ei) != ImageName(j, ej)
  {
    var di, dj := DecimalString(i + 1), DecimalString(j + 1);
    var a, b := ImageName(i, ei), ImageName(j, ej);
    assert a[6 + |di|] == '.' && b[6 + |dj|] == '.';
    if |di| < |dj| {
      assert b[6 + |di|] == dj[|di|];
    } else if |dj| < |di| {
      assert a[6 + |dj|] == di[|dj|];
    } else if a[6..6 + |di|] == b[6..6 + |dj|] {
      assert di == a[6..6 + |di|] && dj == b[6..6 + |dj|];
      DecimalStringInjective(i + 1, j + 1);
    }
  }

  /** `os.path.join(a, b)` on POSIX: an absolute `b` replaces `a`; otherwise
      `b` is appended after a separating `/` unless `a` is empty or already
      ends with one. */
  function PathJoin(a: string, b: string): string
  {
    if StartsWith(b, "/") then b
    else if a == "" || EndsWith(a, "/") then a + b
    else a + "/" + b
  }

  /** Joining the same directory with different relative names gives
      different paths, and the name is the path's tail. */
  lemma PathJoinInjective(dir: string, x: string, y: string)
    requires !StartsWith(x, "/") && !StartsWith(y, "/")
    ensures EndsWith(PathJoin(dir, x), x)
    ensures PathJoin(dir, x) == PathJoin(dir, y) ==> x == y
  {
    var p, q := PathJoin(dir, x), PathJoin(dir, y);
    if dir == "" || EndsWith(dir, "/") {
      assert p == dir + x && q == dir + y;
      if p == q {
        assert x == p[|dir|..];
      }
      assert p[|p| - |x|..] == x;
    } else {
      assert p == (dir + "/") + x && q == (dir + "/") + y;
      if p == q {
        assert x == p[|dir| + 1..];
      }
      assert p[|p| - |x|..] == x;
    }
  }

  /** A relative name is joined below the directory. */
  lemma PathJoinExtends(a: string, b: string)
    requires !StartsWith(b, "/")
    ensures StartsWith(PathJoin(a, b), a)
  {
    if a == "" || EndsWith(a, "/") {
      assert (a + b)[..|a|] == a;
    } else {
      assert (a + "/" + b)[..|a|] == a;
    }
  }

  /** The directory a topic's images go to. */
  function TopicDir(paths: SavePaths, title: string): string
  {
    PathJoin(paths.picture, SanitizedName(title))
  }

  /** Where the image at 0-based position `i` of a topic is saved. */
  function ImagePath(paths: SavePaths, title: string, i: nat, url: string): string
  {
    PathJoin(TopicDir(paths, title), ImageName(i, ImageExtension(url)))
  }

  /** Images of one topic at different positions never share a path. */
  lemma ImagePathsDistinct(paths: SavePaths, title: string, i: nat, j: nat, u: string, v: string)
    requires i != j
    ensures ImagePath(paths, title, i, u) != ImagePath(paths, title, j, v)
    ensures EndsWith(ImagePath(paths, title, i, u), ImageName(i, ImageExtension(u)))
  {
    var eu, ev := ImageExtension(u), ImageExtension(v);
    ImageNameIsRelative(i, eu);
    ImageNameIsRelative(j, ev);
    ImageNamesDistinct(i, j, eu, ev);
    PathJoinInjective(TopicDir(paths, title), ImageName(i, eu), ImageName(j, ev));
  }

  // ---------------------------------------------------------------------
  // Saving
  // ---------------------------------------------------------------------

  /** Whether each image of a topic was saved, by position: the download
      oracle is asked once per image, with the image's own path. */
  function Attempts(paths: SavePaths, title: string, images: seq<string>,
                    download: (string, string) -> bool): (ok: seq<bool>)
    ensures |ok| == |images|
    ensures forall i :: 0 <= i < |images| ==> ok[i] == download(images[i], ImagePath(paths, title, i, images[i]))
  {
    seq(|images|, i requires 0 <= i < |images| => download(images[i], ImagePath(paths, title, i, images[i])))
  }

  /** The number of `true` entries. */
  function CountTrue(bs: seq<bool>): nat
  {
    if bs == [] then 0 else CountTrue(bs[..|bs| - 1]) + (if bs[|bs| - 1] then 1 else 0)
  }

  /** The positions whose download succeeded. */
  function Successes(bs: seq<bool>): set<nat>
  {
    set i: nat | i < |bs| && bs[i]
  }

  /** The counter is the number of successful positions: every image is
      tried whatever happened to earlier ones, and the count never exceeds
      the number of images. */
  lemma {:induction false} CountTrueIsSuccesses(bs: seq<bool>)
    ensures CountTrue(bs) == |Successes(bs)|
    ensures CountTrue(bs) <= |bs|
    ensures CountTrue(bs) == |bs| <==> forall i :: 0 <= i < |bs| ==> bs[i]
  {
    if bs != [] {
      var n := |bs| - 1;
      var init := bs[..n];
      CountTrueIsSuccesses(init);
      assert forall i :: 0 <= i < n ==> init[i] == bs[i];
      if bs[n] {
        assert Successes(bs) == Successes(init) + {n};
        assert n !in Successes(init);
      } else {
        assert Successes(bs) == Successes(init);
        assert !(forall i :: 0 <= i < |bs| ==> bs[i]);
      }
    }
  }

  /** `save_pictures`: the number of images saved for a topic. */
  function SavedPictures(paths: SavePaths, title: string, images: seq<string>,
                         download: (string, string) -> bool): nat
  {
    CountTrue(Attempts(paths, title, images, download))
  }

  /** The extension and file-name rule for one image of the topic whose
      directory is `topicDir`. */
  method ImagePathOf(paths: SavePaths, title: string, topicDir: string, i: nat, url: string)
    returns (savePath: string)
    requires topicDir == TopicDir(paths, title)
    ensures savePath == ImagePath(paths, title, i, url)
  {
    var ext := Lower(LastSegment(url, '.'));
    if ext !in ImageExtensions {
      ext := DefaultExtension;
    }
    var imgName := "image_" + DecimalString(i + 1) + "." + ext;
    savePath := PathJoin(topicDir, imgName);
  }

  lemma CountTrueStep(bs: seq<bool>, i: nat)
    requires i < |bs|
    ensures CountTrue(bs[..i + 1]) == CountTrue(bs[..i]) + (if bs[i] then 1 else 0)
  {
    assert bs[..i + 1][..i] == bs[..i];
  }

  /** `save_pictures`: each image is saved under its own name; the counter
      grows by one per successful download. */
  method SavePictures(paths: SavePaths, title: string, images: seq<string>,
                      download: (string, string) -> bool) returns (savedCount: nat)
    ensures savedCount == SavedPictures(paths, title, images, download)
    ensures savedCount <= |images|
  {
    var safeTitle := SanitizeFilename(title);
    var topicDir := PathJoin(paths.picture, safeTitle);
    ghost var ok := Attempts(paths, title, images, download);
    savedCount := 0;
    for i := 0 to |images|
      invariant savedCount == CountTrue(ok[..i])
    {
      var savePath := ImagePathOf(paths, title, topicDir, i, images[i]);
      CountTrueStep(ok, i);
      if download(images[i], savePath) {
        savedCount := savedCount + 1;
      }
    }
    assert ok[..|images|] == ok;
    CountTrueIsSuccesses(ok);
  }

  /** The novel file name of a title: its sanitised form plus `.txt`. */
  function NovelFileName(title: string): (file: string)
    ensures !StartsWith(file, "/")
  {
    var name := SanitizedName(title);
    SanitizedNameHasNoSlash(title);
    assert (name + ".txt")[0] != '/';
    name + ".txt"
  }

  /** Where a novel is written. */
  function NovelPath(paths: SavePaths, title: string): (path: string)
    ensures EndsWith(path, SanitizedName(title) + ".txt")
  {
    var file := NovelFileName(title);
    PathJoinInjective(paths.novel, file, file);
    PathJoin(paths.novel, file)
  }

  /** Two titles are written to the same novel file exactly when they
      sanitise to the same name. */
  lemma NovelPathsCollide(paths: SavePaths, s: string, t: string)
    ensures NovelPath(paths, s) == NovelPath(paths, t) <==> SanitizedName(s) == SanitizedName(t)
  {
    var x, y := NovelFileName(s), NovelFileName(t);
    PathJoinInjective(paths.novel, x, y);
    if x == y {
      assert |SanitizedName(s)| == |SanitizedName(t)|;
      assert SanitizedName(s) == x[..|x| - 4] && SanitizedName(t) == y[..|y| - 4];
    }
  }

  /** `save_novel`: the content goes to the novel path; the result is the
      write oracle's success, False standing for a raised exception. */
  method SaveNovel(paths: SavePaths, title: string, content: string,
                   write: (string, string) -> bool) returns (ok: bool)
    ensures ok == write(NovelPath(paths, title), content)
  {
    var safeTitle := SanitizeFilename(title);
    var savePath := PathJoin(paths.novel, safeTitle + ".txt");
    ok := write(savePath, content);
  }
}
