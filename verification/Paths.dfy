/** How the session cuts a path into walk components and into parent and basename. */
module Paths {
  import opened Types

  const SLASH: u8 := 47

  /** Position of the first slash, or the length. */
  function FirstSlash(path: Bytes): (i: nat)
    ensures i <= |path|
    ensures forall k :: 0 <= k < i ==> path[k] != SLASH
    ensures i < |path| ==> path[i] == SLASH
  {
    if path == [] || path[0] == SLASH then 0 else 1 + FirstSlash(path[1..])
  }

  /** The non-empty stretches between slashes, in order. */
  function Components(path: Bytes): seq<Bytes>
    decreases |path|
  {
    if path == [] then []
    else
      var i := FirstSlash(path);
      var rest := if i < |path| then Components(path[i + 1..]) else [];
      if i == 0 then rest else [path[..i]] + rest
  }

  predicate IsComponent(name: Bytes) {
    name != [] && SLASH !in name
  }

  function Join(names: seq<Bytes>): Bytes {
    if names == [] then []
    else if |names| == 1 then names[0]
    else names[0] + [SLASH] + Join(names[1..])
  }

  /** The component loop of Walk. */
  method SplitPath(path: Bytes) returns (names: seq<Bytes>)
    ensures names == Components(path)
  {
    hide *;
    NoComponents();
    names := [];
    if path == [] || path == [SLASH] {
      return;
    }
    var pos := 0;
    assert path[0..] == path;
    while pos < |path|
      invariant 0 <= pos <= |path|
      invariant names + Components(path[pos..]) == Components(path)
    {
      var end := pos;
      while end < |path| && path[end] != SLASH
        invariant pos <= end <= |path|
        invariant forall k :: pos <= k < end ==> path[k] != SLASH
      {
        end := end + 1;
      }
      NextComponent(path, pos, end);
      ghost var seen := names;
      var component := path[pos..end];
      if component != [] {
        names := names + [component];
      }
      ghost var from := pos;
      pos := if end < |path| then end + 1 else end;
      assert names == seen + if from == end then [] else [component];
    }
    assert path[pos..] == [];
  }

  lemma NextComponent(path: Bytes, pos: nat, end: nat)
    requires pos <= end <= |path| && pos < |path|
    requires (forall k :: pos <= k < end ==> path[k] != SLASH) && (end < |path| ==> path[end] == SLASH)
    ensures Components(path[pos..]) ==
            (if pos == end then [] else [path[pos..end]]) + Components(path[if end < |path| then end + 1 else end..])
  {
    hide *;
    var rest, i := path[pos..], end - pos;
    FirstComponent(rest, i);
    assert rest[..i] == path[pos..end];
    if end < |path| {
      assert rest[i + 1..] == path[end + 1..];
    } else {
      assert path[end..] == [];
      NoComponents();
    }
  }

  lemma FirstComponent(path: Bytes, i: nat)
    requires i <= |path| && (forall k :: 0 <= k < i ==> path[k] != SLASH) && (i < |path| ==> path[i] == SLASH)
    requires path != []
    ensures Components(path) ==
            (if i == 0 then [] else [path[..i]]) + (if i < |path| then Components(path[i + 1..]) else [])
  {
    FirstSlashIs(path, i);
    hide FirstSlash;
  }

  lemma NoComponents()
    ensures Components([]) == [] && Components([SLASH]) == []
  {
    FirstSlashIs([SLASH], 0);
    assert [SLASH][1..] == [];
  }

  lemma FirstSlashIs(path: Bytes, i: nat)
    requires i <= |path| && (forall k :: 0 <= k < i ==> path[k] != SLASH) && (i < |path| ==> path[i] == SLASH)
    ensures FirstSlash(path) == i
  {}

  /** The rfind split of WalkParent. */
  method SplitParent(path: Bytes) returns (parent: Bytes, basename: Bytes)
    ensures SLASH !in basename
    ensures (path == basename && parent == []) || path == parent + [SLASH] + basename
  {
    var pos := |path|;
    while pos > 0 && path[pos - 1] != SLASH
      invariant 0 <= pos <= |path|
      invariant forall k :: pos <= k < |path| ==> path[k] != SLASH
    {
      pos := pos - 1;
    }
    if pos == 0 {
      return [], path;
    }
    parent, basename := path[..pos - 1], path[pos..];
    assert path == path[..pos - 1] + [path[pos - 1]] + path[pos..];
  }

  lemma {:induction false} ComponentsAreNames(path: Bytes)
    ensures forall name <- Components(path) :: IsComponent(name)
    decreases |path|
  {
    if path != [] {
      var i := FirstSlash(path);
      var rest := if i < |path| then Components(path[i + 1..]) else [];
      if i < |path| { ComponentsAreNames(path[i + 1..]); }
      FirstComponent(path, i);
      hide Components, FirstSlash;
      forall name | name in Components(path) ensures IsComponent(name) {
        if name !in rest { assert i > 0 && name == path[..i]; }
      }
    }
  }

  /** A slash, which is byte 47, between two paths concatenates their components. */
  lemma {:induction false} ComponentsConcat(a: Bytes, b: Bytes)
    ensures Components(a + [47] + b) == Components(a) + Components(b)
    decreases |a|
  {
    var path := a + [SLASH] + b;
    var i := FirstSlash(a);
    FirstSlashIs(path, i);
    assert path[..i] == a[..i];
    if i < |a| {
      assert path[i + 1..] == a[i + 1..] + [SLASH] + b;
      ComponentsConcat(a[i + 1..], b);
      assert Components(path[i + 1..]) == Components(a[i + 1..]) + Components(b);
    } else {
      assert path[i + 1..] == b;
    }
  }

  lemma SingleComponent(name: Bytes)
    requires SLASH !in name
    ensures Components(name) == if name == [] then [] else [name]
  {
    FirstSlashIs(name, |name|);
    assert name[..|name|] == name;
  }

  /** Splitting the joined components gives them back. */
  lemma {:induction false} JoinThenSplit(names: seq<Bytes>)
    requires forall name <- names :: IsComponent(name)
    ensures Components(Join(names)) == names
  {
    hide Components, FirstSlash;
    if names == [] {
      NoComponents();
    } else {
      assert IsComponent(names[0]);
      SingleComponent(names[0]);
      if |names| > 1 {
        JoinThenSplit(names[1..]);
        ComponentsConcat(names[0], Join(names[1..]));
      }
    }
  }

  predicate EndsInName(path: Bytes) {
    path != [] && path[|path| - 1] != SLASH
  }

  lemma LastByte(path: Bytes, parent: Bytes, basename: Bytes)
    requires SLASH !in basename
    requires (path == basename && parent == []) || path == parent + [SLASH] + basename
    ensures EndsInName(path) <==> basename != []
    ensures EndsInName(path) <==> path != [] && path[|path| - 1] != 47
  {
    if basename != [] { assert path[|path| - 1] == basename[|basename| - 1]; }
  }

  /** Main result: whatever the path, the parent the session walks to and the basename it
      sends are the walk components of the whole path, cut before the last. */
  lemma ParentAndBasename(path: Bytes, parent: Bytes, basename: Bytes)
    requires SLASH !in basename && basename != []
    requires (path == basename && parent == []) || path == parent + [SLASH] + basename
    ensures Components(path) == Components(parent) + [basename]
    ensures Components(Join(Components(path))) == Components(path)
  {
    SingleComponent(basename);
    if path == parent + [SLASH] + basename {
      ComponentsConcat(parent, basename);
    }
    ComponentsAreNames(path);
    JoinThenSplit(Components(path));
  }

  /** The cut is unique: there is only one way to write a path as WalkParent does. */
  lemma ParentIsUnique(path: Bytes, p1: Bytes, b1: Bytes, p2: Bytes, b2: Bytes)
    requires SLASH !in b1 && SLASH !in b2
    requires path == p1 + [SLASH] + b1 == p2 + [SLASH] + b2
    ensures p1 == p2 && b1 == b2
  {
    LastSlash(p1, b1, |p2|);
    LastSlash(p2, b2, |p1|);
    assert p1 == path[..|p1|] && b1 == path[|p1| + 1..];
    assert p2 == path[..|p2|] && b2 == path[|p2| + 1..];
  }

  lemma LastSlash(parent: Bytes, basename: Bytes, k: nat)
    requires SLASH !in basename
    ensures k < |parent + [SLASH] + basename| && (parent + [SLASH] + basename)[k] == SLASH ==> k <= |parent|
  {
    if |parent| < k < |parent + [SLASH] + basename| {
      assert (parent + [SLASH] + basename)[k] == basename[k - |parent| - 1];
    }
  }
}
