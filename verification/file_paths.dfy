/** The two `System.IO.Path` queries the older tile parsers use, for paths
    whose directory separators are '/' or '\'. */
module FilePaths {

  predicate IsSeparator(c: char) {
    c == '/' || c == '\\'
  }

  predicate NoSeparator(s: string) {
    forall i :: 0 <= i < |s| ==> !IsSeparator(s[i])
  }

  /** `Path.GetFileName`: the text after the last directory separator. */
  function FileName(path: string): (r: string)
    ensures NoSeparator(r)
    ensures |r| <= |path| && path[|path| - |r|..] == r
  {
    if |path| == 0 || IsSeparator(path[|path| - 1]) then ""
    else FileName(path[..|path| - 1]) + [path[|path| - 1]]
  }

  /** The file name up to (excluding) its last '.', or all of it when it has none. */
  function StripExtension(f: string): (r: string)
    ensures |r| <= |f| && r == f[..|r|]
  {
    if '.' !in f then f
    else if f[|f| - 1] == '.' then f[..|f| - 1]
    else StripExtension(f[..|f| - 1])
  }

  /** `Path.GetFileNameWithoutExtension`. */
  function FileNameWithoutExtension(path: string): string {
    StripExtension(FileName(path))
  }

  lemma NoSeparatorAppend(a: string, b: string)
    requires NoSeparator(a) && NoSeparator(b)
    ensures NoSeparator(a + b)
  {
    forall i | 0 <= i < |a + b| ensures !IsSeparator((a + b)[i]) {
      if i < |a| { assert (a + b)[i] == a[i]; } else { assert (a + b)[i] == b[i - |a|]; }
    }
  }

  lemma {:induction false} FileNameOfPlainName(dir: string, name: string)
    requires NoSeparator(name)
    requires |dir| == 0 || IsSeparator(dir[|dir| - 1])
    ensures FileName(dir + name) == name
    decreases |name|
  {
    if |name| == 0 {
      assert dir + name == dir;
    } else {
      var init := name[..|name| - 1];
      var last := name[|name| - 1];
      assert NoSeparator(init) by {
        forall i | 0 <= i < |init| ensures !IsSeparator(init[i]) {
          assert init[i] == name[i];
        }
      }
      FileNameOfPlainName(dir, init);
      assert (dir + name)[..|dir + name| - 1] == dir + init;
      assert name == init + [last];
    }
  }

  lemma {:induction false} StripLastExtension(stem: string, ext: string)
    requires '.' !in ext
    ensures StripExtension(stem + "." + ext) == stem
    decreases |ext|
  {
    var f := stem + "." + ext;
    assert f[|stem|] == '.';
    if |ext| == 0 {
      assert f[..|f| - 1] == stem;
    } else {
      assert f[..|f| - 1] == stem + "." + ext[..|ext| - 1];
      StripLastExtension(stem, ext[..|ext| - 1]);
    }
  }

  /** A file `stem.ext` in directory `dir` has the stem as its name without
      extension; the stem itself may contain further dots. */
  lemma StemOfPath(dir: string, stem: string, ext: string)
    requires |dir| == 0 || IsSeparator(dir[|dir| - 1])
    requires NoSeparator(stem) && NoSeparator(ext) && '.' !in ext
    ensures FileNameWithoutExtension(dir + stem + "." + ext) == stem
  {
    var name := stem + "." + ext;
    NoSeparatorAppend(stem, ".");
    NoSeparatorAppend(stem + ".", ext);
    assert dir + stem + "." + ext == dir + name;
    FileNameOfPlainName(dir, name);
    StripLastExtension(stem, ext);
  }
}
