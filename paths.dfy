/** The parts of Go's `path/filepath` the core uses, for slash-separated
    (Unix) paths. */
module Paths {
  import Strings

  const Separator: char := '/'

  /** Index where the last element of `path` begins: just past its last
      separator, or 0 when there is none. */
  function LastElementStart(path: string): (k: nat)
    ensures k <= |path|
    ensures k > 0 ==> path[k - 1] == Separator
    ensures Separator !in path[k..]
  {
    if path == [] || path[|path| - 1] == Separator then |path|
    else LastElementStart(path[..|path| - 1])
  }

  /** `filepath.Ext`: the suffix of `path` that starts at the last `.` of its
      last element, or empty when that element has no `.`. */
  function Ext(path: string): (r: string)
    ensures |r| <= |path| && r == path[|path| - |r|..]
    ensures r != [] ==> r[0] == '.'
    ensures |path| - |r| >= LastElementStart(path)
    ensures forall i :: 1 <= i < |r| ==> r[i] != '.'
    ensures r == [] ==> '.' !in path[LastElementStart(path)..]
  {
    if path == [] then ""
    else
      var c := path[|path| - 1];
      if c == Separator then ""
      else if c == '.' then "."
      else
        var e := Ext(path[..|path| - 1]);
        if e == "" then "" else e + [c]
  }

  /** `filepath.Join(dir, name)` for a name without separators: an empty
      directory contributes nothing, otherwise exactly one separator stands
      between the two. */
  function Join(dir: string, name: string): string {
    if dir == [] then name
    else if dir[|dir| - 1] == Separator then dir + name
    else dir + [Separator] + name
  }

  /** A joined path ends with the name. */
  lemma JoinEndsWithName(dir: string, name: string) returns (prefix: string)
    ensures Join(dir, name) == prefix + name
  {
    prefix := if dir == [] then []
              else if dir[|dir| - 1] == Separator then dir
              else dir + [Separator];
  }

  /** Joined to the same directory, names keep their lexical order. */
  lemma JoinOrder(dir: string, a: string, b: string)
    ensures Strings.Less(Join(dir, a), Join(dir, b)) <==> Strings.Less(a, b)
  {
    var prefix := if dir == [] then []
                  else if dir[|dir| - 1] == Separator then dir
                  else dir + [Separator];
    assert Join(dir, a) == prefix + a && Join(dir, b) == prefix + b;
    Strings.LessPrefix(prefix, a, b);
  }

  /** Past a `.`, a character that is neither `.` nor the separator extends
      the extension. */
  lemma ExtSnoc(path: string, c: char)
    requires c != '.' && c != Separator && Ext(path) != ""
    ensures Ext(path + [c]) == Ext(path) + [c]
  {
    assert (path + [c])[..|path|] == path;
  }

  lemma AppendSnoc(a: string, b: string, c: char)
    ensures a + (b + [c]) == (a + b) + [c]
  {
  }

  /** A path that ends in `.` followed by characters that are neither `.` nor
      the separator has exactly that ending as its extension. */
  lemma {:induction false} ExtOfEnding(prefix: string, tail: string)
    requires forall i :: 0 <= i < |tail| ==> tail[i] != '.' && tail[i] != Separator
    ensures Ext(prefix + "." + tail) == "." + tail
    decreases |tail|
  {
    if tail == [] {
      var p := prefix + ".";
      assert p[|p| - 1] == '.';
    } else {
      var init, c := tail[..|tail| - 1], tail[|tail| - 1];
      assert tail == init + [c];
      ExtOfEnding(prefix, init);
      ExtSnoc(prefix + "." + init, c);
      AppendSnoc(prefix + ".", init, c);
      AppendSnoc(".", init, c);
    }
  }
}
