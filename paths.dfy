/**
 * Dotted field paths: how a field's path is built from its parent's path
 * and its own name, and how a chain of field names becomes a path.
 */
module Paths {

  /** `x` is a prefix of `s`. */
  predicate Extends(s: string, x: string)
  {
    |x| <= |s| && s[..|x|] == x
  }

  /** What precedes a child's name in its path: nothing at the root, the parent and a dot below it. */
  function ParentPrefix(parentPath: string): string
  {
    if parentPath == "" then "" else parentPath + "."
  }

  /**
   * `buildFieldPath`: the path of field `fieldName` under `parentPath`. The
   * path starts with the parent path, a dot separates the two unless the
   * parent is the root, and it ends with the field name.
   */
  function BuildFieldPath(parentPath: string, fieldName: string): string
  {
    if parentPath == "" then fieldName else parentPath + "." + fieldName
  }

  /** Index of the last dot in `s`, or -1 when it has none. */
  function LastDot(s: string): (k: int)
    ensures -1 <= k < |s|
    ensures k >= 0 ==> s[k] == '.'
    ensures forall j | k < j < |s| :: s[j] != '.'
  {
    if s == [] then -1
    else if s[|s| - 1] == '.' then |s| - 1
    else LastDot(s[..|s| - 1])
  }

  /** The inverse of `BuildFieldPath`: cuts a path at its last dot into parent path and field name. */
  function SplitFieldPath(path: string): (string, string)
  {
    var k := LastDot(path);
    if k < 0 then ("", path) else (path[..k], path[k + 1..])
  }

  /** A Go field name is a non-empty identifier; all the walk needs is that it is non-empty and has no dot. */
  predicate ValidFieldName(name: string)
  {
    name != "" && '.' !in name
  }

  /**
   * The path reached from `parentPath` by descending through the fields
   * named in `route`, one `BuildFieldPath` per level, as the walk does.
   */
  function JoinFrom(parentPath: string, route: seq<string>): string
    decreases |route|
  {
    if route == [] then parentPath else JoinFrom(BuildFieldPath(parentPath, route[0]), route[1..])
  }

  /** The names of `route` separated by dots: an independent definition of a dotted path. */
  function Join(route: seq<string>): string
    decreases |route|
  {
    if route == [] then ""
    else if |route| == 1 then route[0]
    else route[0] + "." + Join(route[1..])
  }

  /** A field name can be recovered from its path: the last segment is the name, the rest is the parent. */
  lemma SplitBuildRoundTrip(parentPath: string, fieldName: string)
    requires '.' !in fieldName
    ensures SplitFieldPath(BuildFieldPath(parentPath, fieldName)) == (parentPath, fieldName)
  {
    var path := BuildFieldPath(parentPath, fieldName);
    var k := LastDot(path);
    if parentPath == "" {
      assert path == fieldName;
    } else {
      var d := |parentPath|;
      assert path == parentPath + "." + fieldName;
      assert path[d] == '.';
      assert k == d;
      assert path[..d] == parentPath;
      assert path[d + 1..] == fieldName;
    }
  }

  /**
   * Descending from a non-root path through at least one more field keeps
   * that path and a dot as a prefix.
   */
  lemma {:induction false} JoinFromExtends(parentPath: string, route: seq<string>)
    requires parentPath != "" && route != []
    ensures Extends(JoinFrom(parentPath, route), parentPath + ".")
    decreases |route|
  {
    var next := BuildFieldPath(parentPath, route[0]);
    assert Extends(next, parentPath + ".") by {
      assert next == parentPath + "." + route[0];
      assert next[..|parentPath + "."|] == parentPath + ".";
    }
    if route[1..] != [] {
      JoinFromExtends(next, route[1..]);
      var s := JoinFrom(next, route[1..]);
      assert s[..|next|] == next;
      assert s[..|parentPath + "."|] == next[..|parentPath + "."|];
    }
  }

  /**
   * Path construction: from the root, a chain of non-empty names becomes
   * the names joined by dots, with no leading dot; below a non-root parent
   * it becomes the parent, a dot, and that joined chain.
   */
  lemma {:induction false} JoinFromIsDottedJoin(parentPath: string, route: seq<string>)
    requires forall k | 0 <= k < |route| :: route[k] != ""
    ensures parentPath == "" ==> JoinFrom(parentPath, route) == Join(route)
    ensures parentPath != "" && route != [] ==> JoinFrom(parentPath, route) == parentPath + "." + Join(route)
    decreases |route|
  {
    if route != [] {
      var next := BuildFieldPath(parentPath, route[0]);
      var rest := route[1..];
      assert next != "";
      JoinFromIsDottedJoin(next, rest);
      if rest == [] {
        assert route == [route[0]];
      } else {
        assert JoinFrom(parentPath, route) == next + "." + Join(rest);
        assert Join(route) == route[0] + "." + Join(rest);
        if parentPath == "" {
          assert next == route[0];
        } else {
          assert next == parentPath + "." + route[0];
          assert next + "." + Join(rest) == parentPath + "." + (route[0] + "." + Join(rest));
        }
      }
    }
  }

  /** Two paths under the same parent are equal only when the field names are. */
  lemma BuildFieldPathInjective(parentPath: string, a: string, b: string)
    requires BuildFieldPath(parentPath, a) == BuildFieldPath(parentPath, b)
    ensures a == b
  {
    var pre := ParentPrefix(parentPath);
    assert a == (pre + a)[|pre|..];
    assert b == (pre + b)[|pre|..];
  }

  /** Where a dot-free name followed by a dot sits in a string that starts with it. */
  lemma SegmentEnd(s: string, prefix: string, name: string)
    requires '.' !in name
    requires Extends(s, prefix + name + ".")
    ensures |prefix| + |name| < |s| && s[|prefix| + |name|] == '.'
    ensures forall j | |prefix| <= j < |prefix| + |name| :: s[j] != '.'
    ensures s[|prefix|..|prefix| + |name|] == name
  {
    var n := |prefix|;
    var head := s[..n + |name| + 1];
    assert head == prefix + name + ".";
    assert head[n + |name|] == '.';
    assert head[n..n + |name|] == name;
    assert s[n..n + |name|] == head[n..n + |name|];
    forall j | n <= j < n + |name| ensures s[j] != '.' {
      assert s[j] == name[j - n];
    }
  }

  /**
   * Within one parent, two dot-free names whose paths, each followed by a
   * dot, are both prefixes of the same string are the same name.
   */
  lemma SameSegment(s: string, parentPath: string, a: string, b: string)
    requires '.' !in a && '.' !in b
    requires Extends(s, BuildFieldPath(parentPath, a) + ".")
    requires Extends(s, BuildFieldPath(parentPath, b) + ".")
    ensures a == b
  {
    var prefix := ParentPrefix(parentPath);
    SegmentEnd(s, prefix, a);
    SegmentEnd(s, prefix, b);
    assert |a| == |b|;
  }

  /** The path of a dot-free name never continues, past another name of the same parent, with a dot. */
  lemma NoSegmentBeyondName(parentPath: string, a: string, b: string)
    requires '.' !in a && '.' !in b
    ensures !Extends(BuildFieldPath(parentPath, b), BuildFieldPath(parentPath, a) + ".")
  {
    var prefix := ParentPrefix(parentPath);
    var s := BuildFieldPath(parentPath, b);
    forall j | |prefix| <= j < |s| ensures s[j] != '.' {
      assert s[j] == b[j - |prefix|];
    }
    if Extends(s, BuildFieldPath(parentPath, a) + ".") {
      SegmentEnd(s, prefix, a);
    }
  }
}
