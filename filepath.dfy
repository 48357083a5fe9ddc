/**
 * Go's `filepath.Base` on a Unix-like system (the follower is built for
 * FreeBSD, OpenBSD and NetBSD): the last element of a path, after trailing
 * separators are dropped; "." for the empty path and "/" for a path made of
 * separators only.
 */
module Filepath {

  const Separator: char := '/'

  /** The path with every trailing separator removed. */
  function TrimTrailing(path: string): (r: string)
    ensures |r| <= |path| && r == path[..|r|]
    ensures r == [] || r[|r| - 1] != Separator
    ensures forall k :: |r| <= k < |path| ==> path[k] == Separator
  {
    if path != [] && path[|path| - 1] == Separator then TrimTrailing(path[..|path| - 1]) else path
  }

  /** The part of the path after its last separator (the whole path when it has none). */
  function LastElement(path: string): (r: string)
    ensures Separator !in r
    ensures |r| <= |path| && r == path[|path| - |r|..]
    ensures |r| < |path| ==> path[|path| - |r| - 1] == Separator
  {
    if path == [] || path[|path| - 1] == Separator then []
    else LastElement(path[..|path| - 1]) + [path[|path| - 1]]
  }

  /** The last element of `path`, as `filepath.Base` computes it. */
  function Base(path: string): (r: string)
    ensures r != []
    ensures r == [Separator] || Separator !in r
    ensures path != [] && path[|path| - 1] != Separator ==> r == LastElement(path)
  {
    if path == [] then "."
    else
      var t := TrimTrailing(path);
      if t == [] then [Separator] else LastElement(t)
  }

  /** A name without separators, placed after a directory prefix, is the last element of the whole. */
  lemma {:induction false} LastElementAfterSeparator(prefix: string, name: string)
    requires prefix == [] || prefix[|prefix| - 1] == Separator
    requires Separator !in name
    ensures LastElement(prefix + name) == name
  {
    if name != [] {
      var init := name[..|name| - 1];
      assert (prefix + name)[..|prefix + name| - 1] == prefix + init;
      LastElementAfterSeparator(prefix, init);
      assert init + [name[|name| - 1]] == name;
    } else {
      assert prefix + name == prefix;
    }
  }

  /**
   * The base of "dir/name" is the name, and so is the base of the bare name:
   * this is how an event's path is matched against the followed log's name.
   */
  lemma BaseOfEntry(dir: string, name: string)
    requires name != [] && Separator !in name
    ensures Base(dir + [Separator] + name) == name
    ensures Base(name) == name
  {
    LastElementAfterSeparator(dir + [Separator], name);
    LastElementAfterSeparator([], name);
    assert [] + name == name;
    assert name[|name| - 1] in name;
    var full := dir + [Separator] + name;
    assert full[|full| - 1] == name[|name| - 1];
  }
}
