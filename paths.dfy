/** The parts of pathlib's pure-path semantics the compressor relies on, over
    '/'-separated, already normalised path strings: the final component, its
    suffix, suffix replacement, joining and relative paths. */
module Paths {
  import opened Common

  datatype PathError = InvalidSuffix(suffix: string) | EmptyName(path: string)

  /** Index of the last occurrence of `c` in `s`, or -1. */
  function LastIndexOf(s: string, c: char): (i: int)
    ensures -1 <= i < |s|
    ensures i >= 0 ==> s[i] == c
    ensures forall j :: i < j < |s| ==> s[j] != c
  {
    if s == [] then -1
    else if s[|s| - 1] == c then |s| - 1
    else LastIndexOf(s[..|s| - 1], c)
  }

  /** The last occurrence of `c` in `a + b` is the one in `b` if there is one. */
  lemma LastIndexOfAppend(a: string, b: string, c: char)
    ensures LastIndexOf(a + b, c) ==
      (if LastIndexOf(b, c) >= 0 then |a| + LastIndexOf(b, c) else LastIndexOf(a, c))
  {
    var i, ia, ib := LastIndexOf(a + b, c), LastIndexOf(a, c), LastIndexOf(b, c);
    if ib >= 0 {
      assert (a + b)[|a| + ib] == c;
    } else if ia >= 0 {
      assert (a + b)[ia] == c;
      assert forall j :: |a| <= j < |a + b| ==> (a + b)[j] == b[j - |a|];
    } else {
      assert forall j :: 0 <= j < |a + b| ==> (a + b)[j] == if j < |a| then a[j] else b[j - |a|];
    }
  }

  /** The final path component (pathlib's `name`). */
  function Name(p: string): (n: string)
    ensures forall k :: 0 <= k < |n| ==> n[k] != '/'
  {
    p[LastIndexOf(p, '/') + 1..]
  }

  /** Everything before the final component, including the last separator. */
  function Parent(p: string): (d: string)
    ensures d + Name(p) == p
    ensures LastIndexOf(d, '/') == |d| - 1
  {
    var k := LastIndexOf(p, '/') + 1;
    assert p[..k] + p[k..] == p;
    assert k > 0 ==> p[..k][k - 1] == '/';
    p[..k]
  }

  /** pathlib's `suffix`: the name from its last dot on, provided that dot is
      neither the first nor the last character of the name; otherwise empty. */
  function Suffix(p: string): (s: string)
  {
    var n := Name(p);
    var i := LastIndexOf(n, '.');
    if 0 < i < |n| - 1 then n[i..] else ""
  }

  /** The name without its suffix. */
  function Stem(p: string): string
  {
    var n := Name(p);
    n[..|n| - |Suffix(p)|]
  }

  /** A suffix is either empty or a dot, at least one further character and no
      other dot or separator; a suffix never takes the whole name. */
  lemma SuffixShape(p: string)
    ensures Suffix(p) == "" || (|Suffix(p)| >= 2 && Suffix(p)[0] == '.')
    ensures forall k :: 0 < k < |Suffix(p)| ==> Suffix(p)[k] != '.' && Suffix(p)[k] != '/'
    ensures Name(p) == Stem(p) + Suffix(p)
    ensures Name(p) != "" ==> Stem(p) != ""
  {
    var n := Name(p);
    var i := LastIndexOf(n, '.');
    if 0 < i < |n| - 1 {
      assert forall k :: 0 < k < |n[i..]| ==> n[i..][k] == n[i + k];
    }
  }

  /** pathlib's `with_suffix`: replace the suffix of the final component (or
      append one), refusing malformed suffixes and paths without a name. */
  function WithSuffix(p: string, suffix: string): Result<string, PathError>
  {
    if '/' in suffix || (suffix != "" && suffix[0] != '.') || suffix == "." then
      Err(InvalidSuffix(suffix))
    else if Name(p) == "" then
      Err(EmptyName(p))
    else
      Ok(Parent(p) + Stem(p) + suffix)
  }

  /** A format tag is usable as an extension when it is non-empty and holds
      neither a dot nor a separator. */
  predicate PlainTag(tag: string)
  {
    tag != [] && forall k :: 0 <= k < |tag| ==> tag[k] != '.' && tag[k] != '/'
  }

  /** A path made of a parent ending in a separator (or empty) and a tail
      without separators has that tail as its name and that parent. */
  lemma NameOfTail(d: string, tail: string)
    requires LastIndexOf(d, '/') == |d| - 1
    requires forall k :: 0 <= k < |tail| ==> tail[k] != '/'
    ensures Name(d + tail) == tail && Parent(d + tail) == d
  {
    LastIndexOfAppend(d, tail, '/');
    assert LastIndexOf(tail, '/') == -1;
    assert (d + tail)[|d|..] == tail;
    assert (d + tail)[..|d|] == d;
  }

  /** The last dot of stem + "." + tag is the one before the tag. */
  lemma {:induction false} LastDotBeforeTag(stem: string, tag: string)
    requires PlainTag(tag)
    ensures LastIndexOf(stem + ("." + tag), '.') == |stem|
  {
    var s := "." + tag;
    assert forall k :: 0 < k < |s| ==> s[k] == tag[k - 1];
    assert s[0] == '.';
    assert LastIndexOf(s, '.') == 0;
    LastIndexOfAppend(stem, s, '.');
  }

  /** A path whose name is a non-empty stem followed by a dot and a tag has
      that stem and suffix. */
  lemma {:induction false} StemAndSuffixOf(q: string, stem: string, tag: string)
    requires PlainTag(tag) && stem != [] && Name(q) == stem + ("." + tag)
    ensures Suffix(q) == "." + tag && Stem(q) == stem
  {
    var s := "." + tag;
    LastDotBeforeTag(stem, tag);
    assert (stem + s)[|stem|..] == s;
    assert (stem + s)[..|stem|] == stem;
  }

  /** Replacing the suffix by "." + tag succeeds on any named path, leaves the
      directory and the stem alone, and the new path has exactly that suffix. */
  lemma {:induction false} WithSuffixSets(p: string, tag: string)
    requires PlainTag(tag) && Name(p) != ""
    ensures WithSuffix(p, "." + tag).Ok?
    ensures Parent(WithSuffix(p, "." + tag).value) == Parent(p)
    ensures Stem(WithSuffix(p, "." + tag).value) == Stem(p)
    ensures Suffix(WithSuffix(p, "." + tag).value) == "." + tag
  {
    var s := "." + tag;
    assert '/' !in s by {
      assert forall k :: 0 < k < |s| ==> s[k] == tag[k - 1];
    }
    SuffixShape(p);
    var d, stem := Parent(p), Stem(p);
    var q := d + stem + s;
    assert WithSuffix(p, s) == Ok(q);
    assert Name(q) == stem + s && Parent(q) == d by {
      assert forall k :: 0 <= k < |stem| ==> stem[k] == Name(p)[k];
      assert q == d + (stem + s);
      NameOfTail(d, stem + s);
    }
    StemAndSuffixOf(q, stem, tag);
  }

  /** Joining a relative path onto a directory. */
  function Join(dir: string, rel: string): string
  {
    dir + "/" + rel
  }

  /** pathlib's `relative_to`: the part of `p` below `dir`, if `p` is below it. */
  function RelativeTo(p: string, dir: string): Option<string>
  {
    if |dir| + 1 <= |p| && p[..|dir| + 1] == dir + "/" then Some(p[|dir| + 1..]) else None
  }

  /** Taking a joined path relative to its directory gives the relative part back. */
  lemma RelativeToJoin(dir: string, rel: string)
    ensures RelativeTo(Join(dir, rel), dir) == Some(rel)
  {
    var p := Join(dir, rel);
    assert p[..|dir| + 1] == dir + "/";
    assert p[|dir| + 1..] == rel;
  }

  /** The last separator of a joined path is the relative part's last one,
      or the joining separator when the relative part has none. */
  lemma {:induction false} JoinLastSeparator(dir: string, rel: string)
    ensures LastIndexOf(Join(dir, rel), '/') == |dir| + 1 + LastIndexOf(rel, '/')
  {
    LastIndexOfAppend(dir + "/", rel, '/');
    if LastIndexOf(rel, '/') < 0 {
      LastIndexOfAppend(dir, "/", '/');
      assert LastIndexOf("/", '/') == 0;
    }
  }

  /** A joined path has the final component, and so the suffix, of its
      relative part. */
  lemma {:induction false} NameOfJoin(dir: string, rel: string)
    ensures Name(Join(dir, rel)) == Name(rel)
    ensures Suffix(Join(dir, rel)) == Suffix(rel)
  {
    var p, i := Join(dir, rel), LastIndexOf(rel, '/');
    var j := |dir| + 1 + i + 1;
    assert Name(p) == Name(rel) by {
      JoinLastSeparator(dir, rel);
      assert Name(p) == p[j..];
      assert Name(rel) == rel[i + 1..];
      assert p[j..] == rel[i + 1..];
    }
    SameNameSameSuffix(p, rel);
  }

  /** The suffix depends on the final component only. */
  lemma SameNameSameSuffix(p: string, q: string)
    requires Name(p) == Name(q)
    ensures Suffix(p) == Suffix(q)
  {
  }
}
