/** Folders of a manifest: the closure reported to callers, and what creating, deleting and
    renaming a folder does to a manifest (crates/farewell_format/src/vault.rs). */
module Folders {
  import opened Bytes
  import opened Texts
  import opened Wrappers
  import opened Manifests
  import opened ManifestCodec
  import opened Orders
  import opened Paths

  // ---- paths stay well-formed text ----

  lemma {:induction false} ComponentsAreText(s: seq<Byte>)
    requires Utf8(s)
    ensures forall i | 0 <= i < |Components(s)| :: Utf8(Components(s)[i])
    decreases |s|
  {
    var i := FirstSlash(s);
    if i < |s| {
      assert s == s[..i] + [SLASH] + s[i + 1..];
      Utf8Cut(s[..i], SLASH, s[i + 1..]);
      ComponentsAreText(s[i + 1..]);
    } else {
      assert s[..i] == s;
    }
  }

  lemma NothingIsText()
    ensures Utf8([])
  {}

  lemma SlashThenText(rest: seq<Byte>)
    requires Utf8(rest)
    ensures Utf8([SLASH] + rest)
  {
    assert ([SLASH] + rest)[1..] == rest;
  }

  lemma {:induction false} JoinIsText(cs: seq<seq<Byte>>)
    requires forall i | 0 <= i < |cs| :: Utf8(cs[i])
    ensures Utf8(Join(cs))
  {
    hide Utf8;
    NothingIsText();
    if |cs| > 1 {
      JoinIsText(cs[1..]);
      SlashThenText(Join(cs[1..]));
      Utf8Concat(cs[0], [SLASH] + Join(cs[1..]));
      assert Join(cs) == cs[0] + ([SLASH] + Join(cs[1..]));
    }
  }

  function Normalized(path: Text): (r: Option<Text>)
    ensures r.Some? ==> Tidy(r.value) && r.value != []
  {
    var cs := Components(path);
    ComponentsAreText(path);
    JoinIsText(cs);
    ComponentsOfJoin(cs);
    JoinIsEmpty(cs);
    NormalizeFolder(path)
  }

  lemma JoinIsEmpty(cs: seq<seq<Byte>>)
    requires Proper(cs)
    ensures Join(cs) == [] <==> cs == []
  {}

  // ---- the folder closure ----

  function ExplicitSet(folders: seq<Text>): set<seq<Byte>> {
    set f, p | f in folders && p in Ancestors(f) :: p
  }

  function ParentAncestors(name: seq<Byte>): seq<seq<Byte>> {
    var parent := ParentFolder(name);
    if parent.Some? then Ancestors(parent.value) else []
  }

  function ImpliedSet(entries: seq<FileEntry>): set<seq<Byte>> {
    set e, p | e in entries && p in ParentAncestors(e.name) :: p
  }

  function FolderSet(m: Manifest): set<seq<Byte>> {
    ExplicitSet(m.folders) + ImpliedSet(m.entries)
  }

  lemma ExplicitSnoc(folders: seq<Text>, f: Text)
    ensures ExplicitSet(folders + [f]) == ExplicitSet(folders) + Members(Ancestors(f))
  {
    assert forall g :: g in folders + [f] <==> g in folders || g == f;
  }

  lemma NothingImplied()
    ensures ImpliedSet([]) == {}
  {}

  lemma ImpliedSnoc(entries: seq<FileEntry>, e: FileEntry)
    ensures ImpliedSet(entries + [e]) == ImpliedSet(entries) + Members(ParentAncestors(e.name))
  {
    assert forall g :: g in entries + [e] <==> g in entries || g == e;
  }

  /** A folder is reported exactly when it is, or is above, an explicit folder or a file's parent. */
  lemma FolderSetIsClosure(m: Manifest, p: seq<Byte>)
    ensures p in FolderSet(m) <==>
            || (exists f | f in m.folders :: AtOrAbove(p, f))
            || (exists e | e in m.entries :: ParentFolder(e.name).Some? && AtOrAbove(p, ParentFolder(e.name).value))
  {
    forall f | f in m.folders ensures p in Ancestors(f) <==> AtOrAbove(p, f) {
      AncestorsAre(p, f);
    }
    forall e | e in m.entries
      ensures p in ParentAncestors(e.name) <==> ParentFolder(e.name).Some? && AtOrAbove(p, ParentFolder(e.name).value)
    {
      if ParentFolder(e.name).Some? {
        AncestorsAre(p, ParentFolder(e.name).value);
      }
    }
    assert p in ImpliedSet(m.entries) <==> exists e | e in m.entries :: p in ParentAncestors(e.name);
  }

  /** Making every reported folder explicit changes nothing: the closure is idempotent. */
  lemma ClosureIsIdempotent(m: Manifest, m': Manifest)
    requires Names(m'.entries) == Names(m.entries)
    requires forall p: seq<Byte> :: p in m'.folders <==> p in FolderSet(m)
    ensures FolderSet(m') == FolderSet(m)
  {
    hide FolderSet, Components;
    forall p: seq<Byte> ensures p in FolderSet(m') <==> p in FolderSet(m) {
      FolderSetIsClosure(m, p);
      FolderSetIsClosure(m', p);
      if p in FolderSet(m) {
        TidyIsAboveItself(m, p);
        assert p in m'.folders;
      }
      if f :| f in m'.folders && AtOrAbove(p, f) {
        AboveIsTransitive(m, p, f);
      }
      if e :| e in m'.entries && ParentFolder(e.name).Some? && AtOrAbove(p, ParentFolder(e.name).value) {
        assert e.name in Names(m'.entries);
        var e' :| e' in m.entries && e'.name == e.name;
      }
    }
  }

  lemma TidyIsAboveItself(m: Manifest, p: seq<Byte>)
    requires p in FolderSet(m)
    ensures AtOrAbove(p, p)
  {
    FolderSetIsClosure(m, p);
  }

  lemma AboveIsTransitive(m: Manifest, p: seq<Byte>, f: seq<Byte>)
    requires AtOrAbove(p, f) && f in FolderSet(m)
    ensures p in FolderSet(m)
  {
    FolderSetIsClosure(m, f);
    FolderSetIsClosure(m, p);
    if g :| g in m.folders && AtOrAbove(f, g) {
      assert AtOrAbove(p, g);
    } else {
      var e :| e in m.entries && ParentFolder(e.name).Some? && AtOrAbove(f, ParentFolder(e.name).value);
      assert AtOrAbove(p, ParentFolder(e.name).value);
    }
  }

  // ---- under a folder ----

  function Prefix(folder: seq<Byte>): seq<Byte> {
    folder + [SLASH]
  }

  /** `starts_with(folder + "/")`. */
  predicate Under(name: seq<Byte>, folder: seq<Byte>) {
    Prefix(folder) <= name
  }

  function Rest(name: seq<Byte>, folder: seq<Byte>): seq<Byte>
    requires Under(name, folder)
  {
    name[|folder| + 1..]
  }

  /** A name moved from folder `from` to folder `to`; other names stay. */
  function Moved(name: Text, from: Text, to: Text): Text {
    if Under(name, from) then
      MovedIsText(name, from, to);
      Prefix(to) + Rest(name, from)
    else name
  }

  lemma MovedIsText(name: Text, from: Text, to: Text)
    requires Under(name, from)
    ensures Utf8(Prefix(to) + Rest(name, from))
  {
    hide Utf8;
    var rest := Rest(name, from);
    assert name == from + [SLASH] + rest;
    Utf8Cut(from, SLASH, rest);
    SlashThenText(rest);
    Utf8Concat(to, [SLASH] + rest);
    assert Prefix(to) + rest == to + ([SLASH] + rest);
  }

  function MovedFolder(f: Text, from: Text, to: Text): Text {
    if f == from then to else Moved(f, from, to)
  }

  function MovedEntries(entries: seq<FileEntry>, from: Text, to: Text): (r: seq<FileEntry>)
    ensures |r| == |entries|
  {
    seq(|entries|, i requires 0 <= i < |entries| =>
      FileEntry(Moved(entries[i].name, from, to), entries[i].size, entries[i].chunks))
  }

  function MovedFolders(folders: seq<Text>, from: Text, to: Text): (r: seq<Text>)
    ensures |r| == |folders|
  {
    seq(|folders|, i requires 0 <= i < |folders| => MovedFolder(folders[i], from, to))
  }

  /** The manifest after `rename_folder`. */
  function FolderRenamed(m: Manifest, from: Text, to: Text): Manifest {
    m.(entries := MovedEntries(m.entries, from, to), folders := MovedFolders(m.folders, from, to), counter := Tick(m.counter))
  }

  /** Some file would land on the name of an existing file. */
  predicate Collides(entries: seq<FileEntry>, from: Text, to: Text) {
    exists e | e in entries :: Under(e.name, from) && Moved(e.name, from, to) in Names(entries)
  }

  lemma RestDetermines(a: seq<Byte>, b: seq<Byte>, from: seq<Byte>)
    requires Under(a, from) && Under(b, from) && Rest(a, from) == Rest(b, from)
    ensures a == b
  {
    assert a == Prefix(from) + Rest(a, from) && b == Prefix(from) + Rest(b, from);
  }

  lemma MovedIsInjective(a: Text, b: Text, from: Text, to: Text)
    requires Under(a, from) && Under(b, from) && Moved(a, from, to) == Moved(b, from, to)
    ensures a == b
  {
    hide Utf8, Under;
    assert Rest(a, from) == Moved(a, from, to)[|to| + 1..];
    assert Rest(b, from) == Moved(b, from, to)[|to| + 1..];
    RestDetermines(a, b, from);
  }

  /** Without a collision a folder rename keeps names unique. */
  lemma MovedStayUnique(entries: seq<FileEntry>, from: Text, to: Text)
    requires UniqueNames(entries) && !Collides(entries, from, to)
    ensures UniqueNames(MovedEntries(entries, from, to))
  {
    var r := MovedEntries(entries, from, to);
    forall i, j | 0 <= i < j < |r| ensures r[i].name != r[j].name {
      var a, b := entries[i], entries[j];
      assert a in entries && b in entries;
      assert a.name in Names(entries) && b.name in Names(entries);
      if Under(a.name, from) && Under(b.name, from) && r[i].name == r[j].name {
        MovedIsInjective(a.name, b.name, from, to);
      }
    }
  }

  /** Moving back undoes a move onto a path nothing was under. */
  lemma MovedBack(name: Text, from: Text, to: Text)
    requires !Under(name, to)
    ensures Moved(Moved(name, from, to), to, from) == name
  {
    if Under(name, from) {
      var moved := Moved(name, from, to);
      assert Rest(moved, to) == Rest(name, from);
      assert name == Prefix(from) + Rest(name, from);
    }
  }

  /** Renaming a folder back restores every entry and explicit folder when nothing was at or
      under the new path before. */
  lemma RenameFolderUndone(m: Manifest, from: Text, to: Text)
    requires forall e | e in m.entries :: !Under(e.name, to)
    requires forall f | f in m.folders :: f != to && !Under(f, to)
    ensures FolderRenamed(FolderRenamed(m, from, to), to, from).entries == m.entries
    ensures FolderRenamed(FolderRenamed(m, from, to), to, from).folders == m.folders
  {
    var back := FolderRenamed(FolderRenamed(m, from, to), to, from);
    forall i | 0 <= i < |m.entries| ensures back.entries[i] == m.entries[i] {
      assert m.entries[i] in m.entries;
      MovedBack(m.entries[i].name, from, to);
    }
    forall i | 0 <= i < |m.folders| ensures back.folders[i] == m.folders[i] {
      var f := m.folders[i];
      assert f in m.folders;
      MovedBack(f, from, to);
      if f != from && Under(f, from) {
        assert Moved(f, from, to) != to;
      }
    }
  }

  // ---- reported folders are already normal ----

  predicate Printable(s: seq<Byte>) {
    forall b | b in s :: !Control(b)
  }

  lemma {:induction false} JoinIsPrintable(cs: seq<seq<Byte>>)
    requires forall i | 0 <= i < |cs| :: Printable(cs[i])
    ensures Printable(Join(cs))
  {
    if |cs| > 1 {
      JoinIsPrintable(cs[1..]);
      forall b | b in Join(cs) ensures !Control(b) {
        assert b in cs[0] || b == SLASH || b in Join(cs[1..]);
      }
    }
  }

  lemma {:induction false} ComponentsAreShort(s: seq<Byte>)
    requires Printable(s)
    ensures |Join(Components(s))| <= |s|
    ensures forall i | 0 <= i < |Components(s)| :: Printable(Components(s)[i])
    decreases |s|
  {
    var i := FirstSlash(s);
    assert forall b | b in s[..i] :: b in s;
    if i < |s| {
      var rest := s[i + 1..];
      assert forall b | b in rest :: b in s;
      ComponentsAreShort(rest);
      assert s == s[..i] + [SLASH] + rest;
      ComponentsHead(s[..i], rest);
      if i > 0 && Components(rest) != [] {
        JoinSplit([s[..i]], Components(rest));
      } else {
        assert i == 0 ==> Components(s) == Components(rest);
      }
    } else {
      assert s[..i] == s;
      ComponentsHead(s, []);
    }
  }

  lemma JoinPrefixIsShort(cs: seq<seq<Byte>>, n: nat)
    requires n <= |cs|
    ensures |Join(cs[..n])| <= |Join(cs)|
  {
    if 0 < n < |cs| {
      JoinSplit(cs[..n], cs[n..]);
      assert cs[..n] + cs[n..] == cs;
    } else if n == |cs| {
      assert cs[..n] == cs;
    }
  }

  lemma TidyIsNormal(p: Text)
    requires Tidy(p) && Components(p) != []
    requires forall i | 0 <= i < |Components(p)| :: Printable(Components(p)[i])
    ensures Normalized(p) == Some(p)
  {
    hide Utf8, Components;
    forall c | c in Components(p) ensures Printable(c) {}
  }

  lemma AboveIsNormal(p: seq<Byte>, f: Text)
    requires AtOrAbove(p, f) && Printable(f)
    ensures Utf8(p) && Normalized(p) == Some(p) && Printable(p) && 0 < |p| <= |f|
  {
    hide Utf8, Components, Normalized, Printable, Join;
    var cs, n := Components(f), |Components(p)|;
    assert Components(p) == cs[..n];
    ComponentsAreText(f);
    ComponentsAreShort(f);
    JoinIsText(cs[..n]);
    JoinIsPrintable(cs[..n]);
    JoinPrefixIsShort(cs, n);
    JoinIsEmpty(cs[..n]);
    TidyIsNormal(p);
  }

  lemma ParentIsText(name: Text)
    requires Printable(name) && ParentFolder(name).Some?
    ensures Utf8(ParentFolder(name).value) && Printable(ParentFolder(name).value) && |ParentFolder(name).value| <= |name|
  {
    var i := LastSlash(name);
    assert name == name[..i] + [SLASH] + name[i + 1..];
    Utf8Cut(name[..i], SLASH, name[i + 1..]);
    assert forall b | b in name[..i] :: b in name;
  }

  /** Every folder a publishable manifest reports is valid, normalized text. */
  lemma ReportedIsNormal(m: Manifest, p: seq<Byte>)
    requires ValidTexts(m) && p in FolderSet(m)
    ensures Utf8(p) && Normalized(p) == Some(p) && ValidFolderPath(p)
  {
    hide Normalized, Components;
    FolderSetIsClosure(m, p);
    if f :| f in m.folders && AtOrAbove(p, f) {
      assert ValidFolderPath(f);
      AboveIsNormal(p, f);
    } else {
      var e :| e in m.entries && ParentFolder(e.name).Some? && AtOrAbove(p, ParentFolder(e.name).value);
      assert ValidName(e.name);
      ParentIsText(e.name);
      AboveIsNormal(p, ParentFolder(e.name).value);
    }
  }
}
