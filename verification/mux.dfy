/**
  The path canonicalisation net/http's ServeMux performs before it calls the engine's handler
  (`cleanPath` and `path.Clean`): a request whose path is not canonical is answered with a 301
  redirect to the canonical path and never reaches the handler. CONNECT requests are exempt.
 */
module Mux {
  import opened GoStrings

  /** A segment that path.Clean removes: an empty one (a doubled slash), "." or "..". */
  predicate Dropped(segment: string) {
    segment == "" || segment == "." || segment == ".."
  }

  /**
    path.Clean on the segments of a rooted path, left to right: an empty or "." segment
    vanishes, ".." removes the segment kept before it (and nothing at the root).
   */
  function Resolve(segments: seq<string>): (kept: seq<string>)
    ensures forall i :: 0 <= i < |kept| ==> kept[i] != ""
    decreases |segments|
  {
    if |segments| == 0 then []
    else
      var done := Resolve(segments[..|segments| - 1]);
      var s := segments[|segments| - 1];
      if s == "" || s == "." then done
      else if s == ".." then (if |done| > 0 then done[..|done| - 1] else done)
      else done + [s]
  }

  /**
    cleanPath: a slash is put in front when missing, the segments are resolved, and a trailing
    slash of the request path is put back unless the result is the root.
   */
  function CanonicalPath(p: string): (c: string)
    ensures |c| > 0 && c[0] == '/'
  {
    if p == "" then "/"
    else
      var q := if p[0] != '/' then "/" + p else p;
      var np := "/" + Join(Resolve(Split(q, '/')[1..]), "/");
      if q[|q| - 1] == '/' && np != "/" then np + "/" else np
  }

  /** A rooted path in which no segment is "." or "..", and only the last may be empty. */
  predicate Canonical(p: string) {
    && |p| > 0 && p[0] == '/'
    && var segments := Split(p, '/')[1..];
       forall i :: 0 <= i < |segments| ==> !Dropped(segments[i]) || (segments[i] == "" && i == |segments| - 1)
  }

  /** The length of "/" + the join of the segments by "/": each segment with its slash. */
  function Size(segments: seq<string>): nat
    decreases |segments|
  {
    if |segments| == 0 then 0 else Size(segments[..|segments| - 1]) + |segments[|segments| - 1]| + 1
  }

  lemma {:induction false} SizeOfJoin(segments: seq<string>)
    requires |segments| > 0
    ensures |"/" + Join(segments, "/")| == Size(segments)
    decreases |segments|
  {
    var n := |segments| - 1;
    if n > 0 {
      SizeOfJoin(segments[..n]);
      JoinSnoc(segments[..n], segments[n], "/");
      assert segments[..n] + [segments[n]] == segments;
    }
  }

  /** A rooted path is a slash and the join of the segments after its first slash. */
  lemma RootedSplit(p: string)
    requires |p| > 0 && p[0] == '/'
    ensures |Split(p, '/')| >= 2
    ensures Split(p, '/')[1..] == Split(p[1..], '/')
    ensures p == "/" + Join(Split(p, '/')[1..], "/")
  {
    JoinSplit(p[1..], '/');
    assert p == [p[0]] + p[1..];
  }

  /** The join ends with its last part. */
  lemma JoinEndsWithLast(parts: seq<string>)
    requires |parts| > 0
    ensures |Join(parts, "/")| >= |parts[|parts| - 1]|
    ensures Join(parts, "/")[|Join(parts, "/")| - |parts[|parts| - 1]|..] == parts[|parts| - 1]
  {
    var n := |parts| - 1;
    if n > 0 {
      JoinSnoc(parts[..n], parts[n], "/");
      assert parts[..n] + [parts[n]] == parts;
    }
  }

  /** Segments none of which is dropped are kept as they are. */
  lemma {:induction false} ResolveKeeps(segments: seq<string>)
    requires forall i :: 0 <= i < |segments| ==> !Dropped(segments[i])
    ensures Resolve(segments) == segments
    decreases |segments|
  {
    var n := |segments|;
    if n > 0 {
      ResolveKeeps(segments[..n - 1]);
      assert segments[..n - 1] + [segments[n - 1]] == segments;
    }
  }

  /** Resolving never lengthens the path, and shortens it when some segment is dropped. */
  lemma {:induction false} ResolveShrinks(segments: seq<string>)
    ensures Size(Resolve(segments)) <= Size(segments)
    ensures (exists i :: 0 <= i < |segments| && Dropped(segments[i])) ==> Size(Resolve(segments)) < Size(segments)
    decreases |segments|
  {
    var n := |segments|;
    if n > 0 {
      var prefix := segments[..n - 1];
      ResolveShrinks(prefix);
      assert forall i :: 0 <= i < n - 1 ==> prefix[i] == segments[i];
      var done := Resolve(prefix);
      var s := segments[n - 1];
      if s == ".." && |done| > 0 {
        assert Size(done) == Size(done[..|done| - 1]) + |done[|done| - 1]| + 1;
      } else if !Dropped(s) {
        assert (done + [s])[..|done|] == done;
      }
    }
  }

  /** Segments without a dropped one, and the path ending in a slash, are resolved to themselves. */
  lemma {:induction false} FixesWithTrailingSlash(p: string, kept: seq<string>)
    requires |p| > 0 && p[0] == '/'
    requires Split(p, '/')[1..] == kept + [""]
    requires p == "/" + Join(kept + [""], "/")
    requires forall i :: 0 <= i < |kept| ==> !Dropped(kept[i])
    ensures CanonicalPath(p) == p
  {
    ResolveKeeps(kept);
    assert (kept + [""])[..|kept|] == kept;
    assert Resolve(kept + [""]) == kept;
    var np := "/" + Join(kept, "/");
    if |kept| > 0 {
      JoinSnoc(kept, "", "/");
      assert p == np + "/";
      SizeOfJoin(kept);
      assert |np| >= 2;
    }
  }

  /** Segments without a dropped one, the last not empty, are resolved to themselves. */
  lemma FixesWithoutTrailingSlash(p: string, segments: seq<string>)
    requires |p| > 0 && p[0] == '/'
    requires Split(p, '/')[1..] == segments && |segments| > 0
    requires p == "/" + Join(segments, "/")
    requires forall i :: 0 <= i < |segments| ==> !Dropped(segments[i]) && '/' !in segments[i]
    ensures CanonicalPath(p) == p
  {
    var last := segments[|segments| - 1];
    ResolveKeeps(segments);
    JoinEndsWithLast(segments);
    assert p[|p| - 1] == last[|last| - 1];
  }

  /** A canonical path is left as it is. */
  lemma CanonicalPathFixes(p: string)
    requires Canonical(p)
    ensures CanonicalPath(p) == p
  {
    RootedSplit(p);
    var segments := Split(p, '/')[1..];
    var n := |segments|;
    assert forall i :: 0 <= i < n ==> '/' !in segments[i] by {
      assert forall i :: 0 <= i < n ==> segments[i] == Split(p, '/')[i + 1];
    }
    if segments[n - 1] == "" {
      var kept := segments[..n - 1];
      assert segments == kept + [""];
      assert forall i :: 0 <= i < n - 1 ==> kept[i] == segments[i];
      FixesWithTrailingSlash(p, kept);
    } else {
      FixesWithoutTrailingSlash(p, segments);
    }
  }

  /** With a trailing slash, a dropped segment before it makes the path shorter. */
  lemma {:induction false} MovesWithTrailingSlash(p: string, prefix: seq<string>, i: int)
    requires |p| > 0 && p[0] == '/'
    requires Split(p, '/')[1..] == prefix + [""]
    requires p == "/" + Join(prefix + [""], "/")
    requires 0 <= i < |prefix| && Dropped(prefix[i])
    ensures CanonicalPath(p) != p
  {
    assert (prefix + [""])[..|prefix|] == prefix;
    var kept := Resolve(prefix);
    assert Resolve(prefix + [""]) == kept;
    ResolveShrinks(prefix);
    JoinSnoc(prefix, "", "/");
    SizeOfJoin(prefix);
    if |kept| > 0 {
      SizeOfJoin(kept);
    }
  }

  /** Without a trailing slash, a dropped segment makes the path shorter. */
  lemma {:induction false} MovesWithoutTrailingSlash(p: string, segments: seq<string>, i: int)
    requires |p| > 0 && p[0] == '/'
    requires Split(p, '/')[1..] == segments && |segments| > 0
    requires p == "/" + Join(segments, "/")
    requires segments[|segments| - 1] != "" && '/' !in segments[|segments| - 1]
    requires 0 <= i < |segments| && Dropped(segments[i])
    ensures CanonicalPath(p) != p
  {
    var last := segments[|segments| - 1];
    var kept := Resolve(segments);
    ResolveShrinks(segments);
    SizeOfJoin(segments);
    if |kept| > 0 {
      SizeOfJoin(kept);
    }
    JoinEndsWithLast(segments);
    assert p[|p| - 1] == last[|last| - 1];
  }

  /** A path that is not canonical is changed, so the ServeMux redirects it. */
  lemma CanonicalPathMoves(p: string)
    requires !Canonical(p)
    ensures CanonicalPath(p) != p
  {
    if p != "" && p[0] == '/' {
      RootedSplit(p);
      var segments := Split(p, '/')[1..];
      var n := |segments|;
      var i :| 0 <= i < n && Dropped(segments[i]) && !(segments[i] == "" && i == n - 1);
      if segments[n - 1] == "" {
        var prefix := segments[..n - 1];
        assert segments == prefix + [""];
        assert prefix[i] == segments[i];
        MovesWithTrailingSlash(p, prefix, i);
      } else {
        assert segments[n - 1] == Split(p, '/')[n];
        MovesWithoutTrailingSlash(p, segments, i);
      }
    }
  }

  /** The ServeMux serves a path unchanged exactly when it is canonical. */
  lemma CanonicalIff(p: string)
    ensures CanonicalPath(p) == p <==> Canonical(p)
  {
    if Canonical(p) {
      CanonicalPathFixes(p);
    } else {
      CanonicalPathMoves(p);
    }
  }

  /** The segments of the two example paths. */
  lemma ExampleSegments()
    ensures Split("/a//5", '/')[1..] == ["a", "", "5"]
    ensures Split("/a//", '/')[1..] == ["a", "", ""]
  {
    SplitAtFirst("", '/', "a//5");
    SplitAtFirst("a", '/', "/5");
    SplitAtFirst("", '/', "5");
    SplitNoSeparator("5", '/');
    assert "/a//5" == "" + ['/'] + "a//5" && "a//5" == "a" + ['/'] + "/5" && "/5" == "" + ['/'] + "5";
    SplitAtFirst("", '/', "a//");
    SplitAtFirst("a", '/', "/");
    SplitAtFirst("", '/', "");
    assert "/a//" == "" + ['/'] + "a//" && "a//" == "a" + ['/'] + "/" && "/" == "" + ['/'] + "";
  }

  /** The empty segment between "a" and what follows is dropped. */
  lemma ExampleResolve()
    ensures Resolve(["a", "", "5"]) == ["a", "5"]
    ensures Resolve(["a", "", ""]) == ["a"]
  {
    assert ["a"][..0] == [];
    assert Resolve(["a"]) == ["a"];
    assert ["a", ""][..1] == ["a"];
    assert Resolve(["a", ""]) == ["a"];
    assert ["a", "", "5"][..2] == ["a", ""];
    assert ["a", "", ""][..2] == ["a", ""];
  }

  /** A doubled slash before the id is redirected to the path without it. */
  lemma DoubledSlashBeforeIdRedirects()
    ensures CanonicalPath("/a//5") == "/a/5" && !Canonical("/a//5")
  {
    ExampleSegments();
    ExampleResolve();
    assert Join(["a", "5"], "/") == "a/5";
    CanonicalIff("/a//5");
  }

  /** A doubled slash at the end is redirected to the path with a single trailing slash. */
  lemma DoubledTrailingSlashRedirects()
    ensures CanonicalPath("/a//") == "/a/" && !Canonical("/a//")
  {
    ExampleSegments();
    ExampleResolve();
    CanonicalIff("/a//");
  }
}
