/**
 * A directory of sampled frames, as the two passes see it, and the test that
 * decides which of its entries either pass looks at.
 */
module Folders {
  import opened Fingerprints
  import opened Classifier

  /**
   * What the external libraries extract from one image file: its average
   * hash, the pixels of its central crop, and the OCR text of that crop.
   */
  datatype ImageData = ImageData(fingerprint: Fingerprint, region: seq<Pixel>, ocrText: string)

  /**
   * A directory: the names `os.listdir` returns, in the order it returns
   * them, which entries are regular files, and the data of each image file.
   */
  datatype Folder = Folder(names: seq<string>, isFile: string -> bool, image: string -> ImageData)

  /** `str.lower` on ASCII letters. */
  function LowerChar(c: char): (l: char)
  {
    if 'A' <= c <= 'Z' then (c as int - 'A' as int + 'a' as int) as char else c
  }

  function Lower(s: string): (r: string)
  {
    seq(|s|, i requires 0 <= i < |s| => LowerChar(s[i]))
  }

  predicate EndsWith(s: string, suffix: string)
  {
    |suffix| <= |s| && s[|s| - |suffix|..] == suffix
  }

  /** `path.lower().endswith(('.png', '.jpg', '.jpeg'))`. */
  predicate HasImageExtension(path: string)
  {
    var p := Lower(path);
    EndsWith(p, ".png") || EndsWith(p, ".jpg") || EndsWith(p, ".jpeg")
  }

  /** `os.path.join(folder, name)` on POSIX. */
  function Join(folder: string, name: string): (path: string)
    ensures EndsWith(path, name)
  {
    if name != [] && name[0] == '/' then name
    else if folder == [] || folder[|folder| - 1] == '/' then folder + name
    else folder + "/" + name
  }

  /** The entries either pass considers: regular files with an image extension. */
  predicate IsImageEntry(d: Folder, name: string)
  {
    d.isFile(name) && HasImageExtension(name)
  }

  /** The extension test is blind to letter case. */
  lemma ExtensionIgnoresCase(path: string)
    ensures HasImageExtension(Lower(path)) == HasImageExtension(path)
  {
    assert Lower(Lower(path)) == Lower(path);
  }

  lemma {:induction false} LowerAppend(a: string, b: string)
    ensures Lower(a + b) == Lower(a) + Lower(b)
  {
    assert |Lower(a + b)| == |Lower(a) + Lower(b)|;
    forall i | 0 <= i < |a + b| ensures Lower(a + b)[i] == (Lower(a) + Lower(b))[i] {
      if i < |a| {
        assert (a + b)[i] == a[i];
      } else {
        assert (a + b)[i] == b[i - |a|];
      }
    }
  }

  /** A suffix without '/' that sits after a directory part ending in '/' lies inside the name. */
  lemma EndsWithAfterSeparator(prefix: string, name: string, ext: string)
    requires prefix == [] || prefix[|prefix| - 1] == '/'
    requires '/' !in ext
    ensures EndsWith(prefix + name, ext) == EndsWith(name, ext)
  {
    var p := prefix + name;
    if prefix == [] {
      assert p == name;
    } else if |ext| <= |name| {
      assert p[|p| - |ext|..] == name[|name| - |ext|..];
    } else if |ext| <= |p| {
      var k := |prefix| - 1;
      assert p[|p| - |ext|..][k - (|p| - |ext|)] == '/';
    }
  }

  /** Lower-casing keeps a directory part that is empty or ends in the separator in that shape. */
  lemma LowerKeepsSeparatorEnd(prefix: string)
    requires prefix == [] || prefix[|prefix| - 1] == '/'
    ensures Lower(prefix) == [] || Lower(prefix)[|prefix| - 1] == '/'
  {
  }

  /** The extension test on a directory part followed by a name is the test on the name. */
  lemma ExtensionAfterSeparator(prefix: string, name: string)
    requires prefix == [] || prefix[|prefix| - 1] == '/'
    ensures HasImageExtension(prefix + name) == HasImageExtension(name)
  {
    LowerAppend(prefix, name);
    LowerKeepsSeparatorEnd(prefix);
    var lp, ln := Lower(prefix), Lower(name);
    EndsWithAfterSeparator(lp, ln, ".png");
    EndsWithAfterSeparator(lp, ln, ".jpg");
    EndsWithAfterSeparator(lp, ln, ".jpeg");
  }

  /**
   * Testing the joined path, as the source does, is testing the entry name:
   * a listed name is never empty, and no extension contains the separator.
   */
  lemma JoinedPathHasExtensionIffName(folder: string, name: string)
    requires name != []
    ensures HasImageExtension(Join(folder, name)) == HasImageExtension(name)
  {
    if name[0] == '/' {
      assert Join(folder, name) == name;
    } else if folder == [] || folder[|folder| - 1] == '/' {
      ExtensionAfterSeparator(folder, name);
    } else {
      assert Join(folder, name) == (folder + "/") + name;
      ExtensionAfterSeparator(folder + "/", name);
    }
  }

  /** Worked cases of the extension test. */
  lemma ExtensionExamples()
    ensures HasImageExtension("img_00001.png")
    ensures HasImageExtension("Slide.JPEG")
    ensures !HasImageExtension("slide.gif")
  {
    assert Lower("img_00001.png")[9..] == ".png";
    assert Lower("Slide.JPEG")[5..] == ".jpeg";
    assert Lower("slide.gif")[5..] == ".gif";
    assert Lower("slide.gif")[4..] == "e.gif";
  }
}
