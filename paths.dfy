/**
 * The two path operations the packager uses, as Python's posixpath defines them:
 * `os.path.join` of two components and the root half of `os.path.splitext`.
 */
module Paths {

  /** posixpath.join(a, b): an absolute `b` replaces `a`; otherwise a separator
      is added unless `a` is empty or already ends with one. */
  function Join(a: string, b: string): (r: string)
    ensures |b| > 0 && b[0] == '/' ==> r == b
    ensures (|b| == 0 || b[0] != '/') ==> r == a + b || r == a + "/" + b
  {
    if |b| > 0 && b[0] == '/' then b
    else if a == [] || a[|a| - 1] == '/' then a + b
    else a + "/" + b
  }

  /** The path under which the guide's assets are stored in the database:
      os.path.join('guides', guide_name, path). */
  function AssetPath(guideName: string, path: string): string {
    Join(Join("guides", guideName), path)
  }

  /** A relative path component: not empty, neither starting nor ending with '/'. */
  predicate PlainName(s: string) {
    |s| > 0 && s[0] != '/' && s[|s| - 1] != '/'
  }

  /** For a plain guide name and a relative asset path the stored path is
      `guides/<guide_name>/<path>`. */
  lemma {:induction false} AssetPathPrefix(guideName: string, path: string)
    requires PlainName(guideName)
    requires path == [] || path[0] != '/'
    ensures AssetPath(guideName, path) == "guides/" + guideName + "/" + path
  {
  }

  /** str.rfind(c): the last index of `c` in `s`, or -1. */
  function RFind(s: string, c: char): (r: int)
    ensures -1 <= r < |s|
    ensures r >= 0 ==> s[r] == c
    ensures forall k :: r < k < |s| ==> s[k] != c
  {
    if s == [] then -1
    else if s[|s| - 1] == c then |s| - 1
    else RFind(s[..|s| - 1], c)
  }

  /** Some character of s[lo..hi] is not a dot. */
  predicate HasNonDot(s: string, lo: int, hi: int)
    requires 0 <= lo <= hi <= |s|
  {
    exists k :: lo <= k < hi && s[k] != '.'
  }

  /**
   * The root returned by posixpath.splitext(p): the path without its
   * extension. The extension starts at the last '.' after the last '/', and
   * only when some character between that '/' and that '.' is not a dot
   * (so leading dots of a file name never start an extension).
   */
  function SplitExtRoot(p: string): (r: string)
    ensures r <= p
  {
    var sep := RFind(p, '/');
    var dot := RFind(p, '.');
    if dot > sep && HasNonDot(p, sep + 1, dot) then p[..dot] else p
  }

  /** The file name of a video's cover image: its source with the extension
      replaced by `.png`. */
  function CoverFileName(source: string): string {
    SplitExtRoot(source) + ".png"
  }

  /** A file name has a stem when the part after its last '/' has a character
      other than '.'. */
  predicate HasStem(stem: string) {
    HasNonDot(stem, RFind(stem, '/') + 1, |stem|)
  }

  /** Replacing the extension: `<stem>.<ext>` gets the cover `<stem>.png`. */
  lemma {:induction false} CoverReplacesExtension(stem: string, ext: string)
    requires HasStem(stem)
    requires '.' !in ext && '/' !in ext
    ensures CoverFileName(stem + "." + ext) == stem + ".png"
  {
    var p := stem + "." + ext;
    var sep := RFind(stem, '/');
    assert RFind(p, '.') == |stem| by {
      assert p[|stem|] == '.';
      forall k | |stem| < k < |p| ensures p[k] != '.' {
        assert p[k] == ext[k - |stem| - 1];
      }
      RFindLast(p, '.', |stem|);
    }
    assert RFind(p, '/') == sep by {
      forall k | sep < k < |p| ensures p[k] != '/' {
        if k < |stem| { assert p[k] == stem[k]; }
        else if k > |stem| { assert p[k] == ext[k - |stem| - 1]; }
      }
      if sep >= 0 {
        assert p[sep] == stem[sep];
        RFindLast(p, '/', sep);
      } else {
        RFindAbsent(p, '/');
      }
    }
    var k :| sep + 1 <= k < |stem| && stem[k] != '.';
    assert p[k] == stem[k];
    assert p[..|stem|] == stem;
  }

  /** A file name without any '.' after its last '/' keeps its whole path and
      gets `.png` appended. */
  lemma {:induction false} CoverWithoutExtension(p: string)
    requires forall k :: RFind(p, '/') < k < |p| ==> p[k] != '.'
    ensures CoverFileName(p) == p + ".png"
  {
  }

  lemma {:induction false} RFindLast(s: string, c: char, i: nat)
    requires i < |s| && s[i] == c
    requires forall k :: i < k < |s| ==> s[k] != c
    ensures RFind(s, c) == i
  {
  }

  lemma {:induction false} RFindAbsent(s: string, c: char)
    requires forall k :: 0 <= k < |s| ==> s[k] != c
    ensures RFind(s, c) == -1
  {
  }

  /** The cover of a video staged under `media/video/`, where the guide
      generator puts a guide's videos. */
  lemma {:induction false} CoverOfVideoExample()
    ensures CoverFileName("media/video/sea.mp4") == "media/video/sea.png"
  {
    assert "media/video/sea.mp4" == "media/video/sea" + "." + "mp4";
    assert RFind("media/video/sea", '/') == 11 by {
      RFindLast("media/video/sea", '/', 11);
    }
    assert "media/video/sea"[12] != '.';
    CoverReplacesExtension("media/video/sea", "mp4");
  }
}
