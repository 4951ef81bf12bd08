// Properties of the extension split and the MIME guess (database.py:390-405):
// which part of a file name `os.path.splitext` takes as the extension, and
// which table entry `_guess_mime_type` returns for it.

module MimeProperties {
  import opened Basics
  import opened Text
  import opened Recognisers

  /** `rfind` is pinned down by its defining facts: `r` holds `c` and nothing after it does. */
  lemma {:induction false} LastIndexOfIs(s: string, c: char, r: int)
    requires -1 <= r < |s| && (r >= 0 ==> s[r] == c)
    requires forall k :: r < k < |s| ==> s[k] != c
    ensures LastIndexOf(s, c) == r
    decreases |s|
  {
    if s != [] && s[|s| - 1] != c {
      LastIndexOfIs(s[..|s| - 1], c, r);
    }
  }

  /** `dir` is empty or ends with a separator, so what follows it is the last path component. */
  predicate IsDirectoryPrefix(dir: string)
  {
    dir == [] || dir[|dir| - 1] == '/'
  }

  /** The last separator of `dir + name` is the one that ends `dir`, when `name` holds none. */
  lemma LastSeparator(dir: string, name: string)
    requires IsDirectoryPrefix(dir) && '/' !in name
    ensures LastIndexOf(dir + name, '/') == |dir| - 1
  {
    var p := dir + name;
    forall k | |dir| - 1 < k < |p| ensures p[k] != '/' {
      assert p[k] == name[k - |dir|];
    }
    LastIndexOfIs(p, '/', |dir| - 1);
  }

  /** `splitext` in terms of the last separator and the last dot. */
  lemma ExtensionIs(p: string, sep: int, dot: int)
    requires LastIndexOf(p, '/') == sep && LastIndexOf(p, '.') == dot
    ensures Extension(p) == if dot > sep && exists k :: sep + 1 <= k < dot && p[k] != '.' then p[dot..] else []
  {
  }

  /**
   * A name whose stem holds a non-dot character, followed by a dot and a
   * dotless tail, has that dot and tail as its extension, whatever directory
   * it is in and however many dots the stem holds.
   */
  lemma ExtensionOfName(dir: string, stem: string, e: string)
    requires IsDirectoryPrefix(dir) && '/' !in stem && exists k :: 0 <= k < |stem| && stem[k] != '.'
    requires e != [] && e[0] == '.' && '.' !in e[1..] && '/' !in e[1..]
    ensures Extension(dir + stem + e) == e
  {
    var p := dir + stem + e;
    var n := |dir| + |stem|;
    LastDot(dir + stem, e);
    assert '/' !in stem + e by {
      forall k | 0 <= k < |stem + e| ensures (stem + e)[k] != '/' {
        if k >= |stem| + 1 { assert (stem + e)[k] == e[1..][k - |stem| - 1]; }
      }
    }
    assert p == dir + (stem + e);
    LastSeparator(dir, stem + e);
    var k :| 0 <= k < |stem| && stem[k] != '.';
    assert p[|dir| + k] == stem[k];
    ExtensionIs(p, |dir| - 1, n);
    assert p[n..] == e;
  }

  /** The last dot of `head + e` is the dot that starts `e`, when the rest of `e` holds none. */
  lemma LastDot(head: string, e: string)
    requires e != [] && e[0] == '.' && '.' !in e[1..]
    ensures LastIndexOf(head + e, '.') == |head|
  {
    var p := head + e;
    forall k | |head| < k < |p| ensures p[k] != '.' {
      assert p[k] == e[1..][k - |head| - 1];
    }
    LastIndexOfIs(p, '.', |head|);
  }

  /** A last path component without a dot has no extension. */
  lemma ExtensionOfDotlessName(dir: string, name: string)
    requires IsDirectoryPrefix(dir) && '/' !in name && '.' !in name
    ensures Extension(dir + name) == []
  {
    var p := dir + name;
    LastSeparator(dir, name);
    forall k | |dir| <= k < |p| ensures p[k] != '.' {
      assert p[k] == name[k - |dir|];
    }
    ExtensionIs(p, |dir| - 1, LastIndexOf(p, '.'));
  }

  /** A last path component of leading dots and a dotless rest (`.bashrc`, `..`) has no extension. */
  lemma ExtensionOfDotfile(dir: string, dots: string, rest: string)
    requires IsDirectoryPrefix(dir) && forall k :: 0 <= k < |dots| ==> dots[k] == '.'
    requires '/' !in rest && '.' !in rest
    ensures Extension(dir + dots + rest) == []
  {
    var p := dir + dots + rest;
    assert p == dir + (dots + rest);
    assert '/' !in dots + rest by {
      forall k | 0 <= k < |dots + rest| ensures (dots + rest)[k] != '/' {
        if k < |dots| { assert (dots + rest)[k] == dots[k]; }
      }
    }
    LastSeparator(dir, dots + rest);
    forall k | |dir| + |dots| <= k < |p| ensures p[k] != '.' {
      assert p[k] == rest[k - |dir| - |dots|];
    }
    forall k | |dir| <= k < |dir| + |dots| ensures p[k] == '.' {
      assert p[k] == dots[k - |dir|];
    }
    ExtensionIs(p, |dir| - 1, LastIndexOf(p, '.'));
  }

  /** A dotfile has no extension. */
  lemma ExtensionOfBashrc()
    ensures Extension(".bashrc") == []
  {
    assert [] + "." + "bashrc" == ".bashrc";
    ExtensionOfDotfile([], ".", "bashrc");
  }

  /** Leading dots are skipped, and the extension keeps its case. */
  lemma ExtensionAfterLeadingDots()
    ensures Extension("..x.PNG") == ".PNG"
  {
    assert "..x"[2] != '.';
    assert [] + "..x" + ".PNG" == "..x.PNG";
    ExtensionOfName([], "..x", ".PNG");
  }

  /** Only the last dot counts. */
  lemma ExtensionOfDoubleSuffix()
    ensures Extension("archive.tar.gz") == ".gz"
  {
    assert "archive.tar"[0] != '.';
    assert [] + "archive.tar" + ".gz" == "archive.tar.gz";
    ExtensionOfName([], "archive.tar", ".gz");
  }

  /** A dot in a directory name is not an extension. */
  lemma ExtensionIgnoresDirectoryDots()
    ensures Extension("photos.d/readme") == []
  {
    assert "photos.d/"[8] == '/';
    ExtensionOfDotlessName("photos.d/", "readme");
  }

  /** The MIME type of such a name is the table entry of its lower-cased extension, or the default. */
  lemma GuessMimeTypeOfName(dir: string, stem: string, e: string)
    requires IsDirectoryPrefix(dir) && '/' !in stem && exists k :: 0 <= k < |stem| && stem[k] != '.'
    requires e != [] && e[0] == '.' && '.' !in e[1..] && '/' !in e[1..]
    ensures GuessMimeType(dir + stem + e) == if Lower(e) in MimeTable then MimeTable[Lower(e)] else DefaultMime
  {
    ExtensionOfName(dir, stem, e);
  }

  /** A name without an extension gets the default type. */
  lemma GuessMimeTypeOfDotlessName(dir: string, name: string)
    requires IsDirectoryPrefix(dir) && '/' !in name && '.' !in name
    ensures GuessMimeType(dir + name) == DefaultMime
  {
    ExtensionOfDotlessName(dir, name);
    assert Lower([]) == [];
  }

  /** The lookup ignores the case of the extension: `photo.JPG` and `photo.jpg` get the same type. */
  lemma GuessMimeTypeIgnoresCase(dir: string, stem: string, e: string, e': string)
    requires IsDirectoryPrefix(dir) && '/' !in stem && exists k :: 0 <= k < |stem| && stem[k] != '.'
    requires e != [] && e[0] == '.' && '.' !in e[1..] && '/' !in e[1..]
    requires e' != [] && e'[0] == '.' && '.' !in e'[1..] && '/' !in e'[1..]
    requires Lower(e) == Lower(e')
    ensures GuessMimeType(dir + stem + e) == GuessMimeType(dir + stem + e')
  {
    ExtensionOfName(dir, stem, e);
    ExtensionOfName(dir, stem, e');
  }

  /** An instance: an upper-case extension is looked up as its lower-case form. */
  lemma GuessMimeTypeOfUpperCase()
    ensures GuessMimeType("IMG_0001.JPG") == GuessMimeType("IMG_0001.jpg")
  {
    assert "IMG_0001"[0] != '.';
    assert Lower(".JPG") == Lower(".jpg");
    assert [] + "IMG_0001" + ".JPG" == "IMG_0001.JPG";
    assert [] + "IMG_0001" + ".jpg" == "IMG_0001.jpg";
    GuessMimeTypeIgnoresCase([], "IMG_0001", ".JPG", ".jpg");
  }

  /** A dotfile named like an extension gets the default type. */
  lemma GuessMimeTypeOfDotfile()
    ensures GuessMimeType(".png") == DefaultMime
  {
    assert [] + "." + "png" == ".png";
    ExtensionOfDotfile([], ".", "png");
    assert Lower([]) == [];
  }
}
