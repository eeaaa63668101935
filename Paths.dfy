/** The POSIX `path.basename`, `path.extname` and `path.join` behaviour
    the core relies on. */
module Paths {
  import opened Wrappers

  /** The text after the last `/` of `p` (all of `p` when it has none). */
  function LastSegment(p: string): (r: string)
    ensures '/' !in r
    ensures |r| <= |p| && r == p[|p| - |r|..]
    ensures |r| < |p| ==> p[|p| - |r| - 1] == '/'
  {
    if |p| == 0 || p[|p| - 1] == '/' then ""
    else LastSegment(p[..|p| - 1]) + [p[|p| - 1]]
  }

  /** `path.basename(p)`: trailing slashes are ignored, then the last
      segment is taken (so `"/"` and `""` give `""`). */
  function Basename(p: string): (r: string)
    ensures '/' !in r
  {
    if |p| > 0 && p[|p| - 1] == '/' then Basename(p[..|p| - 1]) else LastSegment(p)
  }

  /** The index of the last `.` in `b`. */
  function LastDot(b: string): (r: Option<nat>)
    ensures r.None? ==> '.' !in b
    ensures r.Some? ==> r.value < |b| && b[r.value] == '.' && '.' !in b[r.value + 1..]
  {
    if |b| == 0 then None
    else if b[|b| - 1] == '.' then Some(|b| - 1)
    else
      var r := LastDot(b[..|b| - 1]);
      assert b == b[..|b| - 1] + [b[|b| - 1]];
      r
  }

  /** Where `path.extname` of a basename starts: at its last `.`, unless
      there is none, it is the first character (a dot-file such as
      `.bashrc`), or the basename is `..`. */
  function ExtensionStart(b: string): Option<nat>
  {
    match LastDot(b)
    case None => None
    case Some(i) => if i == 0 || b == ".." then None else Some(i)
  }

  /** `path.basename(p, path.extname(p))`: the basename without its
      extension. */
  function Stem(p: string): string
  {
    var b := Basename(p);
    match ExtensionStart(b)
    case None => b
    case Some(i) => b[..i]
  }

  /** `path.join(dir, name)` for a separator-free `name`, without the
      normalisation of `.`/`..` segments and repeated slashes. */
  function JoinPath(dir: string, name: string): string
  {
    dir + "/" + name
  }

  /** The last segment of `dir/name` is `name`. */
  lemma {:induction false} LastSegmentOfJoin(dir: string, name: string)
    requires '/' !in name
    ensures LastSegment(JoinPath(dir, name)) == name
    decreases |name|
  {
    var p := JoinPath(dir, name);
    if |name| > 0 {
      var init := name[..|name| - 1];
      assert p[..|p| - 1] == JoinPath(dir, init);
      assert '/' !in init by {
        assert forall k :: 0 <= k < |init| ==> init[k] == name[k];
      }
      LastSegmentOfJoin(dir, init);
      assert init + [name[|name| - 1]] == name;
    }
  }

  /** The basename of `dir/name` is `name`, for a non-empty `name` without
      slashes. */
  lemma BasenameOfJoin(dir: string, name: string)
    requires name != "" && '/' !in name
    ensures Basename(JoinPath(dir, name)) == name
  {
    LastSegmentOfJoin(dir, name);
  }

  /** The stem of `dir/stem.ext` is `stem`, whatever dots `stem` holds,
      when `ext` has no dot or slash (the name `..` excepted). */
  lemma StemOfJoin(dir: string, stem: string, ext: string)
    requires stem != "" && '/' !in stem
    requires '/' !in ext && '.' !in ext
    requires stem + "." + ext != ".."
    ensures Stem(JoinPath(dir, stem + "." + ext)) == stem
  {
    var name := stem + "." + ext;
    NoSlashInName(stem, ext);
    BasenameOfJoin(dir, name);
    ExtensionOfName(stem, ext);
  }

  /** The extension of the basename `stem.ext` starts at the dot before
      `ext`. */
  lemma ExtensionOfName(stem: string, ext: string)
    requires stem != "" && '.' !in ext && stem + "." + ext != ".."
    ensures ExtensionStart(stem + "." + ext) == Some(|stem|)
    ensures (stem + "." + ext)[..|stem|] == stem
  {
    LastDotBeforeExtension(stem, ext);
  }

  /** `stem.ext` has no slash when neither part has one. */
  lemma NoSlashInName(stem: string, ext: string)
    requires '/' !in stem && '/' !in ext
    ensures '/' !in stem + "." + ext
  {
    var name := stem + "." + ext;
    forall k | 0 <= k < |name|
      ensures name[k] != '/'
    {
      if k < |stem| {
        assert name[k] == stem[k];
      } else if k > |stem| {
        assert name[k] == ext[k - |stem| - 1];
      }
    }
  }

  /** The last dot of `a.ext` is the one before `ext` when `ext` has none. */
  lemma {:induction false} LastDotBeforeExtension(a: string, ext: string)
    requires '.' !in ext
    ensures LastDot(a + "." + ext) == Some(|a|)
    decreases |ext|
  {
    if |ext| > 0 {
      var init := ext[..|ext| - 1];
      assert '.' !in init by {
        assert forall k :: 0 <= k < |init| ==> init[k] == ext[k];
      }
      LastDotBeforeExtension(a, init);
      var name := a + "." + ext;
      assert name[..|name| - 1] == a + "." + init;
    }
  }

  /** A name whose only dot, if any, is its first character is its own
      stem: `login.md` loses `.md`, `.md` keeps it. */
  lemma StemWithoutExtension(dir: string, name: string)
    requires name != "" && '/' !in name && '.' !in name[1..]
    ensures Stem(JoinPath(dir, name)) == name
  {
    BasenameOfJoin(dir, name);
    assert LastDot(name).None? || LastDot(name).value == 0;
  }
}
