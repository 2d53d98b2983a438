/**
 The part of Python's POSIX `os.path.splitext` the loader uses to turn a
 path component into a document name.
 */
module Paths {

  /** The index of the last `c` among the first `n` characters of `s`, or -1 when there is none. */
  function LastIndexBefore(s: string, c: char, n: nat): (r: int)
    requires n <= |s|
    ensures -1 <= r < n
    ensures r >= 0 ==> s[r] == c
    ensures forall k :: r < k < n ==> s[k] != c
  {
    if n == 0 then -1
    else if s[n - 1] == c then n - 1
    else LastIndexBefore(s, c, n - 1)
  }

  /** `s.rfind(c)`: the index of the last `c` in `s`, or -1 when there is none. */
  function LastIndexOf(s: string, c: char): (r: int)
    ensures -1 <= r < |s|
    ensures r >= 0 ==> s[r] == c
    ensures forall k :: r < k < |s| ==> s[k] != c
  {
    LastIndexBefore(s, c, |s|)
  }

  predicate AllDots(s: string) {
    forall k :: 0 <= k < |s| ==> s[k] == '.'
  }

  /**
   `os.path.splitext(p)` with `/` as separator: the extension runs from the
   last dot of the final path component to the end, provided that dot is
   preceded in the component by something other than dots (so `.bashrc`
   has none). The root is everything before the extension.
   */
  function SplitExt(p: string): (r: (string, string))
    ensures r.0 + r.1 == p
    ensures r.1 == [] || (r.1[0] == '.' && '.' !in r.1[1..] && '/' !in r.1)
    ensures r.1 != [] ==> !AllDots(p[LastIndexOf(p, '/') + 1..|r.0|])
    ensures r.1 == [] ==> LeadingDotsOnly(p)
  {
    var sep := LastIndexOf(p, '/');
    var dot := LastIndexOf(p, '.');
    if dot > sep && !AllDots(p[sep + 1..dot]) then
      ExtensionShape(p, sep, dot);
      (p[..dot], p[dot..])
    else
      NoExtension(p, sep, dot);
      (p, "")
  }

  /** Cutting at the last dot, which lies after the last separator, leaves an extension with no other dot or separator. */
  lemma ExtensionShape(p: string, sep: int, dot: int)
    requires -1 <= sep < dot < |p| && p[dot] == '.'
    requires forall k :: dot < k < |p| ==> p[k] != '.'
    requires forall k :: sep < k < |p| ==> p[k] != '/'
    ensures p[..dot] + p[dot..] == p
    ensures p[dot..][0] == '.' && '.' !in p[dot..][1..] && '/' !in p[dot..]
  {
  }

  /**
   Every dot in the final path component has only dots before it within
   the component: the component has no extension to split off.
   */
  predicate LeadingDotsOnly(p: string) {
    forall d :: LastIndexOf(p, '/') < d < |p| && p[d] == '.' ==> AllDots(p[LastIndexOf(p, '/') + 1..d])
  }

  /**
   When the last dot of `p` comes before position `sep + 1`, or only dots
   lie between `sep` and it, every dot after `sep` has only dots between
   `sep` and itself.
   */
  lemma NoExtension(p: string, sep: int, dot: int)
    requires -1 <= sep < |p| && -1 <= dot < |p|
    requires forall k :: dot < k < |p| ==> p[k] != '.'
    requires dot <= sep || AllDots(p[sep + 1..dot])
    ensures forall d :: sep < d < |p| && p[d] == '.' ==> AllDots(p[sep + 1..d])
  {
    forall d | sep < d < |p| && p[d] == '.'
      ensures AllDots(p[sep + 1..d])
    {
      assert d <= dot;
      var whole, part := p[sep + 1..dot], p[sep + 1..d];
      forall k | 0 <= k < |part|
        ensures part[k] == '.'
      {
        assert part[k] == p[sep + 1 + k] == whole[k];
      }
    }
  }

  /** The name the loader gives a component: the component without its extension. */
  function Stem(component: string): string {
    SplitExt(component).0
  }

  /** A component without a dot is its own stem. */
  lemma StemWithoutDot()
    ensures Stem("index") == "index"
  {
  }

  /** Only the last extension is removed. */
  lemma StemDoubleExtension()
    ensures Stem("archive.tar.gz") == "archive.tar"
  {
    var p := "archive.tar.gz";
    assert LastIndexOf(p, '/') == -1 by {
      assert forall k :: 0 <= k < |p| ==> p[k] != '/';
    }
    assert LastIndexOf(p, '.') == 11 by {
      assert p[11] == '.' && forall k :: 11 < k < |p| ==> p[k] != '.';
    }
    assert !AllDots(p[0..11]) by {
      assert p[0..11][0] == 'a';
    }
    assert p[..11] == "archive.tar";
  }

  /** A leading dot does not start an extension. */
  lemma StemHiddenFile()
    ensures Stem(".profile") == ".profile"
  {
  }
}
