/**
 * `(name as NSString).pathExtension`, following the Foundation rules: the
 * path's trailing slashes are ignored, the extension is what follows the last
 * `.` of the last path component, and a component whose only `.` is its first
 * character (a hidden file) has no extension.
 */
module Paths {
  import opened Wrappers
  import opened Seqs

  function StripTrailingSlashes(s: string): (r: string)
    ensures |r| <= |s| && r == s[..|r|]
    ensures |r| > 0 ==> r[|r| - 1] != '/'
  {
    if |s| > 0 && s[|s| - 1] == '/' then StripTrailingSlashes(s[..|s| - 1]) else s
  }

  /** The text after the last `/`. */
  function LastComponent(s: string): (r: string)
    ensures '/' !in r
    ensures |r| <= |s| && r == s[|s| - |r|..]
  {
    match LastIndexOf(s, '/')
    case None => s
    case Some(i) => s[i + 1..]
  }

  function PathExtension(name: string): string {
    var c := LastComponent(StripTrailingSlashes(name));
    match LastIndexOf(c, '.')
    case None => []
    case Some(i) => if i > 0 then c[i + 1..] else []
  }

  /** A non-empty extension has no `.` or `/`, and the name ends with `.` and the extension. */
  lemma PathExtensionShape(name: string)
    ensures var r := PathExtension(name);
            && '.' !in r && '/' !in r
            && (|r| > 0 ==> HasSuffix(StripTrailingSlashes(name), "." + r))
  {
    var s := StripTrailingSlashes(name);
    var c := LastComponent(s);
    match LastIndexOf(c, '.')
    case None =>
      assert PathExtension(name) == [];
    case Some(i) =>
      if i > 0 {
        assert PathExtension(name) == c[i + 1..];
        AfterLast(c, '.', '/', i);
        DotSuffix(s, c, i);
      } else {
        assert PathExtension(name) == [];
      }
  }

  lemma DotSuffix(s: string, c: string, i: nat)
    requires |c| <= |s| && c == s[|s| - |c|..]
    requires i < |c| && c[i] == '.'
    ensures HasSuffix(s, "." + c[i + 1..])
  {
    var k := |s| - |c|;
    assert c[i..] == s[k + i..];
    assert c[i..] == [c[i]] + c[i + 1..];
  }

  /** A name built as `base.ext` has extension `ext`, when `base` ends in a non-empty component. */
  lemma PathExtensionOf(base: string, ext: string)
    requires |base| > 0 && base[|base| - 1] != '/'
    requires '.' !in ext && '/' !in ext
    ensures PathExtension(base + "." + ext) == ext
  {
    var s := base + "." + ext;
    var t := "." + ext;
    assert s == base + t;
    NoTrailingSlash(base, ext);
    var lb := LastComponent(base);
    NonEmptyComponent(base);
    LastComponentAppend(base, t);
    var c := lb + t;
    assert c == (lb + ".") + ext;
    LastDot(lb, ext);
    ExtensionAt(s, c, |lb|);
    assert c[|lb| + 1..] == ext;
  }

  lemma NoTrailingSlash(base: string, ext: string)
    requires |base| > 0 && base[|base| - 1] != '/'
    requires '/' !in ext
    ensures StripTrailingSlashes(base + "." + ext) == base + "." + ext
  {
    var s := base + "." + ext;
    assert s[|s| - 1] == if |ext| > 0 then ext[|ext| - 1] else '.';
  }

  lemma NonEmptyComponent(base: string)
    requires |base| > 0 && base[|base| - 1] != '/'
    ensures |LastComponent(base)| > 0
  {
    if LastIndexOf(base, '/').Some? {
      assert LastIndexOf(base, '/').value < |base| - 1;
    }
  }

  lemma LastDot(lb: string, ext: string)
    requires '.' !in ext
    ensures LastIndexOf((lb + ".") + ext, '.') == Some(|lb|)
  {
    LastIndexOfAppend(lb + ".", ext, '.');
    assert LastIndexOf(lb + ".", '.') == Some(|lb|);
  }

  lemma ExtensionAt(name: string, c: string, i: nat)
    requires LastComponent(StripTrailingSlashes(name)) == c
    requires LastIndexOf(c, '.') == Some(i) && i > 0
    ensures PathExtension(name) == c[i + 1..]
  {
  }

  lemma LastComponentAppend(base: string, t: string)
    requires '/' !in t
    ensures LastComponent(base + t) == LastComponent(base) + t
  {
    LastIndexOfAppend(base, t, '/');
    match LastIndexOf(base, '/')
    case None =>
    case Some(i) =>
      assert (base + t)[i + 1..] == base[i + 1..] + t;
  }
}
