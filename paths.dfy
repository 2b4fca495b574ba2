/**
 * POSIX paths as pathlib parses them: an anchor and a list of components.
 * Parsing drops empty components (repeated or trailing slashes) and "."
 * components; exactly two leading slashes are kept as the anchor "//",
 * one or three and more become "/". ".." is an ordinary component.
 */
module Paths {
  import opened Text

  /** A pure path: anchor "", "/" or "//", then its components. */
  datatype PurePath = PurePath(anchor: string, parts: seq<string>)

  /** What can stand as a component once a path is parsed. */
  predicate Component(s: string) {
    s != "" && s != "." && NoChar(s, '/')
  }

  predicate WellFormed(p: PurePath) {
    && (p.anchor == "" || p.anchor == "/" || p.anchor == "//")
    && forall k :: 0 <= k < |p.parts| ==> Component(p.parts[k])
  }

  /** The anchor pathlib reads from the leading slashes. */
  function Anchor(s: string): (a: string)
    ensures a == "" || a == "/" || a == "//"
  {
    if |s| >= 2 && s[0] == '/' && s[1] == '/' && (|s| == 2 || s[2] != '/') then "//"
    else if |s| >= 1 && s[0] == '/' then "/"
    else ""
  }

  /** The pieces between slashes that are components, in order. */
  function Components(pieces: seq<string>): (r: seq<string>)
    requires forall k :: 0 <= k < |pieces| ==> NoChar(pieces[k], '/')
    ensures forall k :: 0 <= k < |r| ==> Component(r[k])
    ensures |r| <= |pieces|
  {
    if pieces == [] then []
    else (if Component(pieces[0]) then [pieces[0]] else []) + Components(pieces[1..])
  }

  /** `PurePosixPath(s)`. */
  function Parse(s: string): (p: PurePath)
    ensures WellFormed(p)
  {
    PurePath(Anchor(s), Components(Split(s, '/')))
  }

  /** `str(p)`: the anchor and the components joined by '/', or "." for the empty path. */
  function Str(p: PurePath): string {
    if p.anchor == "" && p.parts == [] then "." else p.anchor + Join("/", p.parts)
  }

  /** `p.name`: the last component, or "" when there is none. */
  function Name(p: PurePath): string {
    if p.parts == [] then "" else p.parts[|p.parts| - 1]
  }

  /** `p.parent`: the path without its last component; an anchor or "." is its own parent. */
  function Parent(p: PurePath): PurePath {
    if p.parts == [] then p else PurePath(p.anchor, p.parts[..|p.parts| - 1])
  }

  /** `p / name` for a name without '/': "" and "." add nothing. */
  function Child(p: PurePath, name: string): (r: PurePath)
    requires NoChar(name, '/')
    ensures WellFormed(p) ==> WellFormed(r)
  {
    PurePath(p.anchor, p.parts + Components([name]))
  }

  /** A component added to a path becomes its name, and the path its parent. */
  lemma ChildName(p: PurePath, name: string)
    requires Component(name)
    ensures Name(Child(p, name)) == name && Parent(Child(p, name)) == p
  {
    assert Components([name]) == [name] by {
      assert [name][1..] == [];
    }
    assert (p.parts + [name])[..|p.parts|] == p.parts;
  }

  lemma {:induction false} ComponentsAppend(a: seq<string>, b: seq<string>)
    requires forall k :: 0 <= k < |a| ==> NoChar(a[k], '/')
    requires forall k :: 0 <= k < |b| ==> NoChar(b[k], '/')
    ensures Components(a + b) == Components(a) + Components(b)
    decreases |a|
  {
    if a != [] {
      assert (a + b)[0] == a[0] && (a + b)[1..] == a[1..] + b;
      ComponentsAppend(a[1..], b);
    } else {
      assert a + b == b;
    }
  }

  /** Components that are all components already are kept as they are. */
  lemma {:induction false} ComponentsFixed(ps: seq<string>)
    requires forall k :: 0 <= k < |ps| ==> Component(ps[k])
    ensures forall k :: 0 <= k < |ps| ==> NoChar(ps[k], '/')
    ensures Components(ps) == ps
    decreases |ps|
  {
    assert forall k :: 0 <= k < |ps| ==> NoChar(ps[k], '/') by {
      forall k | 0 <= k < |ps| ensures NoChar(ps[k], '/') {
        assert Component(ps[k]);
      }
    }
    if ps != [] {
      ComponentsFixed(ps[1..]);
    }
  }

  /** Splitting what was joined with '/' gives the pieces back. */
  lemma {:induction false} SplitJoin(ps: seq<string>)
    requires |ps| > 0 && forall k :: 0 <= k < |ps| ==> NoChar(ps[k], '/')
    ensures Split(Join("/", ps), '/') == ps
    decreases |ps|
  {
    if |ps| > 1 {
      assert ps == [ps[0]] + ps[1..];
      JoinCons("/", ps[0], ps[1..]);
      SplitCons(ps[0], '/', Join("/", ps[1..]));
      SplitJoin(ps[1..]);
    }
  }

  /** The text of a non-empty list of components starts with the first one's first character. */
  lemma {:induction false} JoinStarts(ps: seq<string>)
    requires |ps| > 0 && |ps[0]| > 0
    ensures |Join("/", ps)| > 0 && Join("/", ps)[0] == ps[0][0]
    decreases |ps|
  {
    if |ps| > 1 {
      assert ps == [ps[0]] + ps[1..];
      JoinCons("/", ps[0], ps[1..]);
    }
  }

  /** The components of a well-formed path's text are its components. */
  lemma PartsOfStr(ps: seq<string>)
    requires forall k :: 0 <= k < |ps| ==> Component(ps[k])
    ensures Components(Split(Join("/", ps), '/')) == ps
  {
    if ps == [] {
      assert Split("", '/') == [""];
    } else {
      SplitJoin(ps);
      ComponentsFixed(ps);
    }
  }

  /** Splitting at a '/' splits each side on its own. */
  lemma {:induction false} SplitAppend(f: string, e: string)
    ensures Split(f + "/" + e, '/') == Split(f, '/') + Split(e, '/')
    decreases |f|
  {
    var i := IndexOf(f, '/');
    if i == |f| {
      assert f[..i] == f;
      SplitCons(f, '/', e);
    } else {
      var a, rest := f[..i], f[i + 1..];
      SplitAppend(rest, e);
      SliceAround(f, i);
      assert f + "/" + e == a + "/" + (rest + "/" + e);
      SplitAppendStep(a, '/', rest, e, f, f + "/" + e);
    }
  }

  /** The step of `SplitAppend`: `s1` is `a + [c] + rest` and `s` is `s1 + [c] + e`. */
  lemma SplitAppendStep(a: string, c: char, rest: string, e: string, s1: string, s: string)
    requires NoChar(a, c)
    requires s1 == a + [c] + rest && s == a + [c] + (rest + [c] + e)
    requires Split(rest + [c] + e, c) == Split(rest, c) + Split(e, c)
    ensures Split(s, c) == Split(s1, c) + Split(e, c)
  {
    SplitCons(a, c, rest);
    SplitCons(a, c, rest + [c] + e);
    ConsAppend(a, Split(rest, c), Split(e, c));
  }

  lemma ConsAppend<T>(a: T, x: seq<T>, y: seq<T>)
    ensures [a] + (x + y) == [a] + x + y
  {
  }

  /** The anchor of a path's text is the path's anchor. */
  lemma AnchorOfStr(p: PurePath)
    requires WellFormed(p)
    ensures Anchor(Str(p)) == p.anchor
  {
    if p.parts != [] {
      JoinStarts(p.parts);
    }
  }

  /** A leading '/' adds an empty first piece. */
  lemma SplitSlash(j: string)
    ensures Split("/" + j, '/') == [""] + Split(j, '/')
  {
    assert "/" + j == "" + ['/'] + j;
    SplitCons("", '/', j);
  }

  /** An empty piece is not a component. */
  lemma ComponentsEmptyFirst(x: seq<string>)
    requires forall k :: 0 <= k < |x| ==> NoChar(x[k], '/')
    ensures Components([""] + x) == Components(x)
  {
    assert ([""] + x)[1..] == x;
  }

  /** The components of a path's text are the path's components. */
  lemma ComponentsOfStr(p: PurePath)
    requires WellFormed(p)
    ensures Components(Split(Str(p), '/')) == p.parts
  {
    var j := Join("/", p.parts);
    PartsOfStr(p.parts);
    if p.anchor == "" && p.parts == [] {
      assert Split(".", '/') == ["."];
      assert ["."][1..] == [];
    } else if p.anchor == "" {
      assert Str(p) == j;
    } else if p.anchor == "/" {
      assert Str(p) == "/" + j;
      SplitSlash(j);
      ComponentsEmptyFirst(Split(j, '/'));
    } else {
      assert Str(p) == "/" + ("/" + j);
      SplitSlash("/" + j);
      SplitSlash(j);
      ComponentsEmptyFirst([""] + Split(j, '/'));
      ComponentsEmptyFirst(Split(j, '/'));
    }
  }

  /** Parsing the text of a well-formed path gives the path back. */
  lemma ParseStr(p: PurePath)
    requires WellFormed(p)
    ensures Parse(Str(p)) == p
  {
    AnchorOfStr(p);
    ComponentsOfStr(p);
  }

  /** Some character of `f` is not a '/'. */
  predicate HasName(f: string) {
    exists j :: 0 <= j < |f| && f[j] != '/'
  }

  /** After a character other than '/', more text does not change the anchor. */
  lemma AnchorAppend(f: string, e: string)
    requires HasName(f)
    ensures Anchor(f + e) == Anchor(f)
  {
    var j :| 0 <= j < |f| && f[j] != '/';
    assert (f + e)[j] == f[j];
    if j > 2 {
      assert (f + e)[2] == f[2] && (f + e)[1] == f[1] && (f + e)[0] == f[0];
    }
  }

  /** Parsing `f + "/" + e` parses `f` and then the components of `e`. */
  lemma ParseAppend(f: string, e: string)
    requires HasName(f)
    ensures Parse(f + "/" + e) == PurePath(Parse(f).anchor, Parse(f).parts + Components(Split(e, '/')))
  {
    AnchorAppend(f, "/" + e);
    assert f + "/" + e == f + ("/" + e);
    SplitAppend(f, e);
    ComponentsAppend(Split(f, '/'), Split(e, '/'));
  }

  /** A trailing '/' or a trailing "." component does not change the path. */
  lemma ParseTrailing(f: string)
    requires HasName(f)
    ensures Parse(f + "/") == Parse(f)
    ensures Parse(f + "/.") == Parse(f)
  {
    ParseAppend(f, "");
    assert f + "/" == f + "/" + "";
    assert Split("", '/') == [""];
    assert Components([""]) == [] by {
      assert [""][1..] == [];
    }
    ParseAppend(f, ".");
    assert f + "/." == f + "/" + ".";
    assert Split(".", '/') == ["."];
    assert Components(["."]) == [] by {
      assert ["."][1..] == [];
    }
  }

  /** The name of `dir/name` is `name`, whatever `dir` is. */
  lemma NameOfJoin(dir: string, name: string)
    requires Component(name)
    ensures Name(Parse(dir + "/" + name)) == name
  {
    SplitAppend(dir, name);
    assert Split(name, '/') == [name];
    ComponentsAppend(Split(dir, '/'), [name]);
    assert Components([name]) == [name] by {
      assert [name][1..] == [];
    }
  }

  /** A path with a name is its parent with that name added. */
  lemma ParentChildName(p: PurePath)
    requires WellFormed(p) && p.parts != []
    ensures Component(Name(p)) && Child(Parent(p), Name(p)) == p
  {
    assert Components([Name(p)]) == [Name(p)] by {
      assert [Name(p)][1..] == [];
    }
    assert p.parts[..|p.parts| - 1] + [Name(p)] == p.parts;
  }
}
