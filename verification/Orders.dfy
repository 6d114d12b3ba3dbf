/** Byte order on paths and ascending lists without repeats: the ordered set in which the
    folders of a vault are collected (crates/farewell_format/src/vault.rs, `folders`). */
module Orders {
  import opened Bytes

  /** Strictly before, byte by byte; a proper prefix comes first. */
  predicate Before(a: seq<Byte>, b: seq<Byte>) {
    b != [] && (a == [] || a[0] < b[0] || (a[0] == b[0] && Before(a[1..], b[1..])))
  }

  predicate Ascending(list: seq<seq<Byte>>) {
    forall i, j | 0 <= i < j < |list| :: Before(list[i], list[j])
  }

  function Members(list: seq<seq<Byte>>): set<seq<Byte>> {
    set p | p in list
  }

  lemma {:induction false} BeforeIsOneWay(a: seq<Byte>, b: seq<Byte>)
    ensures !(Before(a, b) && Before(b, a))
    ensures a != b ==> Before(a, b) || Before(b, a)
  {
    if a != [] && b != [] && a[0] == b[0] {
      BeforeIsOneWay(a[1..], b[1..]);
      assert a == [a[0]] + a[1..] && b == [b[0]] + b[1..];
    }
  }

  lemma {:induction false} BeforeChains(a: seq<Byte>, b: seq<Byte>, c: seq<Byte>)
    requires Before(a, b) && Before(b, c)
    ensures Before(a, c)
  {
    if a != [] && a[0] == b[0] == c[0] {
      BeforeChains(a[1..], b[1..], c[1..]);
    }
  }

  /** A set has one ascending listing only. */
  lemma {:induction false} ListingIsUnique(a: seq<seq<Byte>>, b: seq<seq<Byte>>)
    requires Ascending(a) && Ascending(b) && Members(a) == Members(b)
    ensures a == b
  {
    EmptyListing(a);
    EmptyListing(b);
    if a != [] {
      SameFirst(a, b);
      SameRest(a, b);
      ListingIsUnique(a[1..], b[1..]);
      assert a == [a[0]] + a[1..] && b == [b[0]] + b[1..];
    }
  }

  lemma EmptyListing(a: seq<seq<Byte>>)
    ensures Members(a) == {} <==> a == []
    ensures a == [] ==> Ascending(a)
  {
    if a != [] {
      assert a[0] in Members(a);
    }
  }

  lemma SameFirst(a: seq<seq<Byte>>, b: seq<seq<Byte>>)
    requires Ascending(a) && Ascending(b) && Members(a) == Members(b) && a != [] && b != []
    ensures a[0] == b[0]
  {
    assert a[0] in Members(a) && b[0] in Members(b);
    var i :| 0 <= i < |b| && b[i] == a[0];
    var j :| 0 <= j < |a| && a[j] == b[0];
    BeforeIsOneWay(a[0], b[0]);
  }

  lemma SameRest(a: seq<seq<Byte>>, b: seq<seq<Byte>>)
    requires Ascending(a) && Ascending(b) && Members(a) == Members(b) && a != [] && b != [] && a[0] == b[0]
    ensures Members(a[1..]) == Members(b[1..])
  {
    FirstApart(a);
    FirstApart(b);
  }

  lemma FirstApart(a: seq<seq<Byte>>)
    requires Ascending(a) && a != []
    ensures a[0] !in a[1..] && Members(a[1..]) == Members(a) - {a[0]}
  {
    BeforeIsOneWay(a[0], a[0]);
    assert a == [a[0]] + a[1..];
  }

  lemma LaterIsNew(list: seq<seq<Byte>>, i: nat)
    requires Ascending(list) && i < |list|
    ensures list[i] !in list[..i]
  {
    BeforeIsOneWay(list[i], list[i]);
  }

  /** Puts p into its place, unless it is there already. */
  method Insert(list: seq<seq<Byte>>, p: seq<Byte>) returns (out: seq<seq<Byte>>)
    requires Ascending(list)
    ensures Ascending(out) && Members(out) == Members(list) + {p}
  {
    var i := 0;
    while i < |list| && Before(list[i], p)
      invariant i <= |list| && forall k | 0 <= k < i :: Before(list[k], p)
    {
      i := i + 1;
    }
    if i < |list| && list[i] == p {
      return list;
    }
    BeforeIsOneWay(if i < |list| then list[i] else [], p);
    out := list[..i] + [p] + list[i..];
    PlacedBetween(list, i, p);
    assert forall q :: q in out <==> q in list[..i] || q == p || q in list[i..];
    assert list == list[..i] + list[i..];
  }

  lemma PlacedBetween(list: seq<seq<Byte>>, i: nat, p: seq<Byte>)
    requires Ascending(list) && i <= |list|
    requires forall k | 0 <= k < i :: Before(list[k], p)
    requires i < |list| ==> Before(p, list[i])
    ensures Ascending(list[..i] + [p] + list[i..])
  {
    hide Before;
    forall k | i < k < |list| ensures Before(p, list[k]) {
      BeforeChains(p, list[i], list[k]);
    }
  }

  method InsertAll(list: seq<seq<Byte>>, paths: seq<seq<Byte>>) returns (out: seq<seq<Byte>>)
    requires Ascending(list)
    ensures Ascending(out) && Members(out) == Members(list) + Members(paths)
  {
    hide Ascending;
    out := list;
    for i := 0 to |paths|
      invariant Ascending(out) && Members(out) == Members(list) + Members(paths[..i])
    {
      out := Insert(out, paths[i]);
      assert paths[..i + 1] == paths[..i] + [paths[i]];
    }
    assert paths[..|paths|] == paths;
  }
}
