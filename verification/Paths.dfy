/** Slash-separated names and the folder paths they imply (helpers of
    crates/farewell_format/src/vault.rs). */
module Paths {
  import opened Bytes
  import opened Wrappers
  import opened Manifests

  const SLASH: Byte := 0x2F

  function FirstSlash(s: seq<Byte>): (i: nat)
    ensures i <= |s| && SLASH !in s[..i] && (i < |s| ==> s[i] == SLASH)
  {
    if s == [] || s[0] == SLASH then 0 else 1 + FirstSlash(s[1..])
  }

  /** The non-empty components of a path. */
  function Components(s: seq<Byte>): (cs: seq<seq<Byte>>)
    ensures Proper(cs)
  {
    var i := FirstSlash(s);
    (if i > 0 then [s[..i]] else []) + (if i < |s| then Components(s[i + 1..]) else [])
  }

  function Join(cs: seq<seq<Byte>>): seq<Byte> {
    if cs == [] then [] else if |cs| == 1 then cs[0] else cs[0] + [SLASH] + Join(cs[1..])
  }

  predicate Proper(cs: seq<seq<Byte>>) {
    forall i | 0 <= i < |cs| :: cs[i] != [] && SLASH !in cs[i]
  }

  /** A path with no leading, trailing or doubled slash. */
  predicate Tidy(s: seq<Byte>) {
    s == Join(Components(s))
  }

  lemma FirstSlashAt(c: seq<Byte>, rest: seq<Byte>)
    requires SLASH !in c
    ensures FirstSlash(c + [SLASH] + rest) == |c|
    ensures FirstSlash(c) == |c|
    decreases |c|
  {
    if c != [] {
      assert (c + [SLASH] + rest)[1..] == c[1..] + [SLASH] + rest;
      FirstSlashAt(c[1..], rest);
    }
  }

  lemma {:induction false} ComponentsOfJoin(cs: seq<seq<Byte>>)
    requires Proper(cs)
    ensures Components(Join(cs)) == cs
  {
    if |cs| == 1 {
      FirstSlashAt(cs[0], []);
      assert cs[0][..|cs[0]|] == cs[0];
    } else if |cs| > 1 {
      var s := Join(cs);
      FirstSlashAt(cs[0], Join(cs[1..]));
      assert s[..|cs[0]|] == cs[0] && s[|cs[0]| + 1..] == Join(cs[1..]);
      ComponentsOfJoin(cs[1..]);
    }
  }

  function Single(c: seq<Byte>): seq<seq<Byte>> {
    if c == [] then [] else [c]
  }

  lemma ComponentsHead(c: seq<Byte>, rest: seq<Byte>)
    requires SLASH !in c
    ensures Components(c + [SLASH] + rest) == Single(c) + Components(rest)
    ensures Components(c) == Single(c)
  {
    FirstSlashAt(c, rest);
    var s := c + [SLASH] + rest;
    assert s[..|c|] == c && s[|c| + 1..] == rest && c[..|c|] == c;
  }

  /** Cutting a path at any slash cuts its component list. */
  lemma {:induction false} ComponentsSplit(a: seq<Byte>, b: seq<Byte>)
    ensures Components(a + [SLASH] + b) == Components(a) + Components(b)
    decreases |a|
  {
    hide Components;
    var i := FirstSlash(a);
    if i == |a| {
      assert a[..i] == a;
      ComponentsHead(a, b);
    } else {
      var head, rest := a[..i], a[i + 1..];
      assert a == head + [SLASH] + rest;
      assert a + [SLASH] + b == head + [SLASH] + (rest + [SLASH] + b);
      ComponentsHead(head, rest + [SLASH] + b);
      ComponentsHead(head, rest);
      ComponentsSplit(rest, b);
    }
  }

  lemma {:induction false} JoinSplit(a: seq<seq<Byte>>, b: seq<seq<Byte>>)
    requires a != [] && b != []
    ensures Join(a + b) == Join(a) + [SLASH] + Join(b)
  {
    if |a| == 1 {
      assert (a + b)[1..] == b;
    } else {
      assert (a + b)[1..] == a[1..] + b;
      JoinSplit(a[1..], b);
    }
  }

  // ---- normalization, parents, ancestors ----

  /** Drops redundant slashes; rejects an empty result and control characters. */
  function NormalizeFolder(path: seq<Byte>): Option<seq<Byte>> {
    var cs := Components(path);
    if cs == [] || exists c | c in cs :: exists b | b in c :: Control(b) then None else Some(Join(cs))
  }

  function LastSlash(s: seq<Byte>): (i: int)
    ensures -1 <= i < |s|
    ensures i >= 0 ==> s[i] == SLASH
  {
    if s == [] then -1
    else if s[|s| - 1] == SLASH then |s| - 1
    else LastSlash(s[..|s| - 1])
  }

  function ParentFolder(name: seq<Byte>): Option<seq<Byte>> {
    var i := LastSlash(name);
    if i < 0 then None else Some(name[..i])
  }

  /** All ancestors of a folder path including itself, root first. */
  function Ancestors(path: seq<Byte>): seq<seq<Byte>> {
    var cs := Components(path);
    seq(|cs|, i requires 0 <= i < |cs| => Join(cs[..i + 1]))
  }

  /** The accumulator loop that lists the ancestors. */
  method AncestorPaths(path: seq<Byte>) returns (out: seq<seq<Byte>>)
    ensures out == Ancestors(path)
  {
    var cs := Components(path);
    out := [];
    var acc: seq<Byte> := [];
    for i := 0 to |cs|
      invariant acc == Join(cs[..i])
      invariant out == Ancestors(path)[..i]
    {
      JoinSnoc(cs[..i], cs[i]);
      assert cs[..i] + [cs[i]] == cs[..i + 1];
      if acc != [] {
        acc := acc + [SLASH];
      }
      acc := acc + cs[i];
      out := out + [acc];
    }
  }

  lemma JoinSnoc(cs: seq<seq<Byte>>, c: seq<Byte>)
    requires Proper(cs)
    ensures Join(cs + [c]) == if Join(cs) == [] then c else Join(cs) + [SLASH] + c
    ensures Join(cs) == [] <==> cs == []
  {
    if cs != [] {
      JoinSplit(cs, [c]);
      assert cs[0] in cs;
    } else {
      assert cs + [c] == [c];
    }
  }

  /** p is the folder f or one of its ancestors, as a tidy path. */
  predicate AtOrAbove(p: seq<Byte>, f: seq<Byte>) {
    Tidy(p) && Components(p) != [] && Components(p) <= Components(f)
  }

  lemma AncestorAt(f: seq<Byte>, i: nat)
    requires i < |Components(f)|
    ensures AtOrAbove(Ancestors(f)[i], f)
  {
    hide Components, Join;
    ComponentsOfJoin(Components(f)[..i + 1]);
  }

  lemma AboveIsAncestor(p: seq<Byte>, f: seq<Byte>)
    requires AtOrAbove(p, f)
    ensures p in Ancestors(f)
  {
    hide Components, Join;
    var n := |Components(p)|;
    assert Components(p) == Components(f)[..n];
    assert Ancestors(f)[n - 1] == p;
  }

  lemma AncestorsAre(p: seq<Byte>, f: seq<Byte>)
    ensures p in Ancestors(f) <==> AtOrAbove(p, f)
  {
    hide Components, Join, AtOrAbove;
    if p in Ancestors(f) {
      var i :| 0 <= i < |Ancestors(f)| && Ancestors(f)[i] == p;
      AncestorAt(f, i);
    }
    if AtOrAbove(p, f) {
      AboveIsAncestor(p, f);
    }
  }
}
