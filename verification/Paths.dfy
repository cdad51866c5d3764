/** Path strings: taking them apart at the slashes. */
module Paths {
  import opened Bytes

  type Name = seq<byte>

  const SLASH: byte := 0x2F

  /** No byte is the terminating zero, so that the sequence is a C string without its end. */
  predicate NulFree(s: seq<byte>) { forall i :: 0 <= i < |s| ==> s[i] != 0 }

  predicate SlashFree(s: seq<byte>) { forall i :: 0 <= i < |s| ==> s[i] != SLASH }

  /** `find_filename_end`: the length of the first component. */
  function FilenameEnd(path: seq<byte>): (end: nat)
    ensures end <= |path|
    ensures SlashFree(path[..end])
    ensures end < |path| ==> path[end] == SLASH
    decreases |path|
  {
    if path == [] || path[0] == SLASH then 0 else 1 + FilenameEnd(path[1..])
  }

  /** The components of a path. A path of n slashes has n + 1 of them, some possibly empty. */
  function Split(path: seq<byte>): (names: seq<Name>)
    ensures names != []
    decreases |path|
  {
    var end := FilenameEnd(path);
    if end == |path| then [path] else [path[..end]] + Split(path[end + 1..])
  }

  function Join(names: seq<Name>): seq<byte>
    decreases |names|
  {
    if names == [] then []
    else if |names| == 1 then names[0]
    else names[0] + [SLASH] + Join(names[1..])
  }

  /** Splitting is the inverse of joining with slashes, on pieces that have none. */
  lemma {:induction false} JoinSplit(path: seq<byte>)
    ensures Join(Split(path)) == path
    ensures forall i :: 0 <= i < |Split(path)| ==> SlashFree(Split(path)[i])
    decreases |path|
  {
    var end := FilenameEnd(path);
    if end < |path| {
      JoinSplit(path[end + 1..]);
      assert path == path[..end] + [SLASH] + path[end + 1..];
    } else {
      assert path[..end] == path;
    }
  }

  lemma {:induction false} FilenameEndAppend(p: seq<byte>, q: seq<byte>)
    ensures FilenameEnd(p + [SLASH] + q) == FilenameEnd(p)
    decreases |p|
  {
    if p == [] {
      assert (p + [SLASH] + q)[0] == SLASH;
    } else {
      assert (p + [SLASH] + q)[1..] == p[1..] + [SLASH] + q;
      FilenameEndAppend(p[1..], q);
    }
  }

  lemma {:induction false} SplitAppend(p: seq<byte>, q: seq<byte>)
    ensures Split(p + [SLASH] + q) == Split(p) + Split(q)
    decreases |p|
  {
    var path, end := p + [SLASH] + q, FilenameEnd(p);
    FilenameEndAppend(p, q);
    if end == |p| {
      assert path[..end] == p && path[end + 1..] == q;
    } else {
      assert path[..end] == p[..end];
      assert path[end + 1..] == p[end + 1..] + [SLASH] + q;
      SplitAppend(p[end + 1..], q);
    }
  }

  lemma SplitName(name: Name)
    requires SlashFree(name)
    ensures Split(name) == [name]
  {
    assert FilenameEnd(name) == |name|;
  }

  /** The C string that starts with these bytes. */
  function CString(s: seq<byte>): seq<byte>
    decreases |s|
  {
    if s == [] || s[0] == 0 then [] else [s[0]] + CString(s[1..])
  }

  lemma {:induction false} CStringNulFree(s: seq<byte>)
    requires NulFree(s)
    ensures CString(s) == s
    decreases |s|
  {
    if s != [] {
      CStringNulFree(s[1..]);
    }
  }

  /** `strncmp(..., |s|) == 0` between the image at p and s: both may end at a common zero. */
  predicate StrnEqual(m: Memory, p: nat, s: seq<byte>)
    decreases |s|
  {
    s == [] || (m(p) == s[0] && (s[0] == 0 || StrnEqual(m, p + 1, s[1..])))
  }

  lemma {:induction false} StrnEqualIff(m: Memory, p: nat, s: seq<byte>)
    requires NulFree(s)
    ensures StrnEqual(m, p, s) <==> Slice(m, p, |s|) == s
    decreases |s|
  {
    if s != [] {
      StrnEqualIff(m, p + 1, s[1..]);
      var here, next := Slice(m, p, |s|), Slice(m, p + 1, |s| - 1);
      assert here == [m(p)] + next;
      assert s == [s[0]] + s[1..];
    } else {
      assert Slice(m, p, 0) == [];
    }
  }

  /** A trailing slash adds an empty component. */
  lemma TrailingSlash(path: seq<byte>)
    ensures Split(path + [SLASH]) == Split(path) + [[]]
  {
    assert path + [SLASH] == path + [SLASH] + [];
    SplitAppend(path, []);
  }
}
