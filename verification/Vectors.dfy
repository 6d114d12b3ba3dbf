/** Worked examples of the formats, byte by byte: what a reader of the layout documentation would
    write down (crates/farewell_format/src/manifest.rs, slot.rs; crates/farewell_license/src). */
module Vectors {
  import opened Bytes
  import opened Wrappers
  import opened Texts
  import opened Codecs
  import opened Manifests
  import M = ManifestCodec
  import opened Octets
  import opened Labels
  import opened SlotSpec
  import opened Base32
  import opened LicenseKeys
  import P = LicensePayloads

  // ---- the manifest ----

  lemma Letters()
    ensures Utf8([0x66]) && Utf8([0x64]) && Utf8([0x6F])
  {}

  lemma LittleEndian()
    ensures Le(0, 2) == [0, 0] && Le(1, 2) == [1, 0] && Le(3, 2) == [3, 0] && Le(4, 2) == [4, 0] && Le(1, 1) == [1]
    ensures Le(1, 4) == [1, 0, 0, 0] && Le(7, 4) == [7, 0, 0, 0]
    ensures Le(5, 8) == [5, 0, 0, 0, 0, 0, 0, 0]
  {}

  lemma WideLittleEndian()
    ensures Le(0x0102030405060708, 8) == [8, 7, 6, 5, 4, 3, 2, 1]
  {
    assert Le(0x01020304, 4) == [4, 3, 2, 1];
    assert Le(0x0102030405060708, 8) == [8, 7, 6, 5] + Le(0x01020304, 4);
  }

  /** One file "f" of five bytes on chunk 7, one child slot, one folder "d", the owner "o". */
  function Sample(): Manifest {
    Letters();
    Manifest(0x0102030405060708, [FileEntry([0x66], 5, [7])], [9], [[0x64]], Some([0x6F]))
  }

  const MAGIC4: seq<Byte> := [0x4D, 0x46, 0x53, 0x54, 4, 0]
  const HEAD: seq<Byte> := [0, 0, 8, 7, 6, 5, 4, 3, 2, 1, 1, 0, 0, 0]
  const ENTRY: seq<Byte> := [1, 0x66, 5, 0, 0, 0, 0, 0, 0, 0, 1, 0, 0, 0, 7, 0, 0, 0]
  const TAIL: seq<Byte> := [1, 9, 1, 0, 1, 0, 0x64]
  const OWNER: seq<Byte> := [1, 0, 0x6F]

  lemma ManifestVector()
    ensures M.Print(Sample()) == MAGIC4 + HEAD + ENTRY + (TAIL + OWNER)
    ensures M.Serialized(Sample()) == Success(MAGIC4 + HEAD + ENTRY + (TAIL + OWNER))
  {
    hide Le, PrintAll, M.PrintHead, M.PrintTail, M.PrintEntry;
    var m := Sample();
    HeadVector();
    EntryVector();
    TailVector();
    OneEntry(m.entries[0]);
  }

  lemma HeadVector()
    ensures M.PrintHead(Sample()) == MAGIC4 + HEAD
  {
    hide Le;
    LittleEndian();
    WideLittleEndian();
  }

  lemma OneEntry(e: FileEntry)
    ensures PrintAll(M.PrintEntry, [e]) == M.PrintEntry(e)
  {
    assert PrintAll(M.PrintEntry, [e]) == M.PrintEntry(e) + PrintAll(M.PrintEntry, []);
  }

  lemma EntryVector()
    ensures M.PrintEntry(Sample().entries[0]) == ENTRY
  {
    hide Le;
    LittleEndian();
    assert PrintAll(M.PrintChunk, [7]) == M.PrintChunk(7) + PrintAll(M.PrintChunk, []);
  }

  lemma TailVector()
    ensures M.PrintTail(Sample()) == TAIL + OWNER
  {
    hide Le;
    LittleEndian();
    var m := Sample();
    assert PrintAll(M.PrintFolder, m.folders) == M.PrintFolder(m.folders[0]) + PrintAll(M.PrintFolder, []);
  }

  /** The same manifest as version 3 wrote it. */
  lemma Version3Vector()
    ensures M.Parse([0x4D, 0x46, 0x53, 0x54, 3, 0] + HEAD + ENTRY + TAIL) == Success(Sample().(owner := None))
  {
    hide Le, PrintAll, M.PrintEntry, M.ParseManifest, M.Fits;
    var m := Sample();
    var bytes := [0x4D, 0x46, 0x53, 0x54, 3, 0] + HEAD + ENTRY + TAIL;
    HeadVector();
    EntryVector();
    TailVector();
    OneEntry(m.entries[0]);
    assert bytes == M.PrintVersion3(m, [0, 0]) + [] by {
      OldHead();
      OldTail();
    }
    SampleFits();
    M.Version3Reads(m, [0, 0], []);
  }

  lemma OldHead()
    ensures M.MAGIC + Le(3, 2) + [0, 0] + Le(Sample().counter, 8) + Le(1, 4) == [0x4D, 0x46, 0x53, 0x54, 3, 0] + HEAD
  {
    hide Le;
    LittleEndian();
    WideLittleEndian();
  }

  lemma OldTail()
    ensures var m := Sample();
            Le(|m.childSlots|, 1) + m.childSlots + Le(|m.folders|, 2) + PrintAll(M.PrintFolder, m.folders) == TAIL
  {
    hide Le;
    LittleEndian();
    var m := Sample();
    assert PrintAll(M.PrintFolder, m.folders) == M.PrintFolder(m.folders[0]) + PrintAll(M.PrintFolder, []);
  }

  lemma SampleFits()
    ensures M.Fits(Sample())
  {}

  // ---- text ----

  /** Overlong forms, surrogates and code points past the last are not UTF-8. */
  lemma NotText()
    ensures !Utf8([0xC0, 0x80]) && !Utf8([0xE0, 0x9F, 0x80]) && !Utf8([0xED, 0xA0, 0x80]) && !Utf8([0xF0, 0x8F, 0x80, 0x80])
    ensures !Utf8([0xF4, 0x90, 0x80, 0x80]) && !Utf8([0x80]) && !Utf8([0xC3]) && !Utf8([0xC3, 0x7F]) && !Utf8([0xC3, 0xC0])
  {}

  lemma IsText()
    ensures Utf8([0xC2, 0x80]) && Utf8([0xC3, 0xBF]) && Utf8([0xED, 0x9F, 0xBF]) && Utf8([0xEF, 0xBF, 0xBD]) && Utf8([0xF4, 0x8F, 0xBF, 0xBF])
  {
    assert [0xC2, 0x80][2..] == [] && [0xC3, 0xBF][2..] == [] && [0xED, 0x9F, 0xBF][3..] == [] && [0xEF, 0xBF, 0xBD][3..] == [];
    assert [0xF4, 0x8F, 0xBF, 0xBF][4..] == [];
  }

  /** A broken character is shown as one replacement for each maximal part of it. */
  lemma LossyVector()
    ensures Lossy([0xF0, 0x9F, 0x98]) == REPLACEMENT && Lossy([0xF0, 0x9F]) == REPLACEMENT && Lossy([0xE2, 0x82]) == REPLACEMENT
    ensures Lossy([0xC0, 0x80]) == REPLACEMENT + REPLACEMENT && Lossy([0xE0, 0x9F]) == REPLACEMENT + REPLACEMENT
    ensures Lossy([0xED, 0xA0]) == REPLACEMENT + REPLACEMENT && Lossy([0xF0, 0x8F]) == REPLACEMENT + REPLACEMENT
    ensures Lossy([0xF4, 0x90]) == REPLACEMENT + REPLACEMENT && Lossy([0xE2, 0x82, 0x41]) == REPLACEMENT + [0x41]
  {
    assert [0xF0, 0x9F, 0x98][3..] == [] && [0xF0, 0x9F][2..] == [] && [0xE2, 0x82][2..] == [];
    TwoBroken(0xC0, 0x80);
    TwoBroken(0xE0, 0x9F);
    TwoBroken(0xED, 0xA0);
    TwoBroken(0xF0, 0x8F);
    TwoBroken(0xF4, 0x90);
    assert [0xE2, 0x82, 0x41][2..] == [0x41] && [0x41][1..] == [] && [0x41][..1] == [0x41];
    assert Lossy([0x41]) == [0x41] + Lossy([]);
  }

  lemma TwoBroken(a: Byte, b: Byte)
    requires CharLen([a, b]) == 0 && CharLen([b]) == 0 && SubpartLen([a, b]) == 1
    ensures Lossy([a, b]) == REPLACEMENT + REPLACEMENT
  {
    assert [a, b][1..] == [b] && [b][1..] == [];
    assert Lossy([b]) == REPLACEMENT + Lossy([]);
  }

  /** What a name and a folder path may hold: up to 255 and 1024 bytes, no control characters. */
  lemma NameLimits(name: Text)
    ensures ValidName(name) <==> 1 <= |name| <= 255 && forall b | b in name :: 32 <= b && b != 127
    ensures ValidFolderPath(name) <==> 1 <= |name| <= 1024 && forall b | b in name :: 32 <= b && b != 127
  {}

  // ---- a key slot ----

  /** Where everything lies in the decrypted payload of a slot that holds c. */
  lemma PayloadLayout(inner: Inner, passKey: Key, c: Contents, i: nat)
    requires InnerHolds(inner, passKey, c) && i < |c.enrolled|
    ensures inner[0] == Plain(|c.enrolled|) && |inner| == 1195
    ensures var at := 1 + 318 * i;
            var x := c.enrolled[i];
            && Lower(inner[at..at + 2]) == [|x.cred| % 256, |x.cred| / 256]
            && Lower(inner[at + 2..at + 2 + |x.cred|]) == x.cred
            && inner[at + 270..at + 318]
               == Encrypt(Derive("farewell.combine.v5", passKey + x.hmac), inner[at + 258..at + 270],
                          "farewell.slot.hwwrap.v6", c.kwk)
    ensures inner[967..1019] == Encrypt(c.kwk, inner[955..967], "farewell.slot.master.v6", c.master + Lift([32, 0, 0, 0]))
    ensures inner[1019..1051] == c.metadata
    ensures inner[1051 + 48 * i..1099 + 48 * i] == Lift(LabelField(c.enrolled[i].name))
  {
    hide Le, FromLe, Lift, Lower, Cred, LabelField, Encrypt, Derive, AllRandom;
    assert Occupied(inner, i, passKey, c.kwk, c.enrolled[i]);
    EntryLayout(inner, passKey, c, i);
    KeyPartLayout(inner, passKey, c);
  }

  lemma EntryLayout(inner: Inner, passKey: Key, c: Contents, i: nat)
    requires i < |c.enrolled| && Occupied(inner, i, passKey, c.kwk, c.enrolled[i])
    ensures var at := 1 + 318 * i;
            var x := c.enrolled[i];
            && Lower(inner[at..at + 2]) == [|x.cred| % 256, |x.cred| / 256]
            && Lower(inner[at + 2..at + 2 + |x.cred|]) == x.cred
            && inner[at + 270..at + 318]
               == Encrypt(CombineKey(passKey, x.hmac), inner[at + 258..at + 270], "farewell.slot.hwwrap.v6", c.kwk)
  {
    hide Slice, Lift, Lower, LabelField, Encrypt, CombineKey, AllRandom;
    var at, x, entry := 1 + 318 * i, c.enrolled[i], Entry(inner, i);
    SliceOfSlice(inner, at, 318, 0, 2);
    SliceOfSlice(inner, at, 318, 2, |x.cred|);
    SliceOfSlice(inner, at, 318, 258, 12);
    SliceOfSlice(inner, at, 318, 270, 48);
    TwoBytes(Lower(inner[at..at + 2]));
  }

  lemma SliceOfSlice(s: seq<Octet>, off: nat, n: nat, at: nat, k: nat)
    requires off + n <= |s| && at + k <= n
    ensures Slice(Slice(s, off, n), at, k) == s[off + at..off + at + k]
  {
    var a, b := s[off..off + n][at..at + k], s[off + at..off + at + k];
    assert forall i | 0 <= i < k :: a[i] == b[i];
  }

  lemma TwoBytes(s: seq<Byte>)
    requires |s| == 2
    ensures s == [FromLe(s) % 256, FromLe(s) / 256]
  {
    assert FromLe(s) == s[0] + 256 * FromLe(s[1..]);
    assert FromLe(s[1..]) == s[1] + 256 * FromLe(s[1..][1..]);
  }

  lemma KeyPartLayout(inner: Inner, passKey: Key, c: Contents)
    requires KeysHold(KeyPart(inner), c)
    ensures inner[967..1019] == Encrypt(c.kwk, inner[955..967], "farewell.slot.master.v6", c.master + Lift([32, 0, 0, 0]))
    ensures inner[1019..1051] == c.metadata
  {
    hide Le, Lift, Encrypt, AllRandom, Slice;
    SliceOfSlice(inner, 955, 96, 0, 12);
    SliceOfSlice(inner, 955, 96, 12, 52);
    SliceOfSlice(inner, 955, 96, 64, 32);
    KeyLength();
  }

  lemma KeyLength()
    ensures Le(32, 4) == [32, 0, 0, 0]
  {}

  // ---- a license ----

  /** The fields of a payload in their order, for two serial numbers. */
  lemma PayloadVector(id: P.LicenseId)
    ensures Utf8([0x61])
    ensures P.PayloadBytes(P.Payload(P.Duo, 3, -2, id, [0x61], [[0x53], []]))
         == [0x46, 0x4C, 0x57, 0x31, 1, 1, 3, 0, 0, 0, 254, 255, 255, 255, 255, 255, 255, 255] + id + [1, 0, 0x61, 2, 1, 0x53, 0]
  {
    hide Le;
    assert Utf8([0x61]);
    ShortNumbers();
    MinusTwo();
    var serials: seq<seq<Byte>> := [[0x53], []];
    assert P.SerialsBytes(serials) == P.SerialBytes(serials[0]) + P.SerialsBytes(serials[1..]);
    assert P.SerialsBytes(serials[1..]) == P.SerialBytes(serials[1]) + P.SerialsBytes([]);
  }

  /** Seven bits. */
  lemma AsciiBytes(s: seq<Byte>)
    ensures P.Ascii(s) <==> forall b | b in s :: b <= 127
  {
    assert forall i | 0 <= i < |s| :: s[i] in s;
  }

  lemma ShortNumbers()
    ensures Le(0, 1) == [0] && Le(1, 1) == [1] && Le(2, 1) == [2] && Le(1, 2) == [1, 0] && Le(3, 4) == [3, 0, 0, 0]
  {}

  lemma MinusTwo()
    ensures Le(P.AsU64(-2), 8) == [254, 255, 255, 255, 255, 255, 255, 255]
  {
    assert Le(0xFFFF_FFFF, 4) == [255, 255, 255, 255];
    assert Le(0xFFFF_FFFF_FFFF_FFFE, 8) == [254, 255, 255, 255] + Le(0xFFFF_FFFF, 4);
  }

  /** The payload's length comes first, high byte first. */
  lemma ContainerVector(payload: seq<Byte>, signature: seq<Byte>)
    requires |payload| == 0x0102
    ensures Blob(payload, signature) == [1, 2] + payload + signature
  {}

  /** One payload byte 0xAB and the signature 0xCD 0xEF 0x01. */
  lemma KeyVector()
    ensures KeyOf([0xAB], [0xCD, 0xEF, 0x01]) == "000TQ-KFF04"
  {
    hide Pack, Spell;
    assert Blob([0xAB], [0xCD, 0xEF, 0x01]) == [0, 1, 0xAB, 0xCD, 0xEF, 0x01];
    PackVector();
    SpellVector();
    assert Grouped("000TQKFF04") == "000TQ" + "-" + Grouped("KFF04");
  }

  lemma PackVector()
    ensures Pack([0, 1, 0xAB, 0xCD, 0xEF, 0x01]) == [0, 0, 0, 26, 23, 19, 15, 15, 0, 4]
  {
    hide Pow2, ToDigits, Val256;
    SmallPowers();
    SixBytes();
    TenDigits();
  }

  /** The bytes as one number, most significant first. */
  lemma SixBytes()
    ensures Val256([0, 1, 0xAB, 0xCD, 0xEF, 0x01]) == 0x1_ABCD_EF01
  {
    hide Val256;
    OneMoreByte([], 0);
    OneMoreByte([0], 1);
    OneMoreByte([0, 1], 0xAB);
    OneMoreByte([0, 1, 0xAB], 0xCD);
    OneMoreByte([0, 1, 0xAB, 0xCD], 0xEF);
    OneMoreByte([0, 1, 0xAB, 0xCD, 0xEF], 0x01);
    assert [] + [0] == [0] && [0] + [1] == [0, 1] && [0, 1] + [0xAB] == [0, 1, 0xAB];
    assert [0, 1, 0xAB] + [0xCD] == [0, 1, 0xAB, 0xCD] && [0, 1, 0xAB, 0xCD] + [0xEF] == [0, 1, 0xAB, 0xCD, 0xEF];
    assert [0, 1, 0xAB, 0xCD, 0xEF] + [0x01] == [0, 1, 0xAB, 0xCD, 0xEF, 0x01];
    NoBytes();
  }

  lemma NoBytes()
    ensures Val256([]) == 0
  {}

  /** Its digits, most significant first. */
  lemma TenDigits()
    ensures ToDigits(0x6_AF37_BC04, 10) == [0, 0, 0, 26, 23, 19, 15, 15, 0, 4]
  {
    assert ToDigits(0x357, 5) == [0, 0, 0, 26, 23];
    assert ToDigits(0x357 * 1024 + 19 * 32 + 15, 7) == [0, 0, 0, 26, 23, 19, 15];
  }

  lemma SpellVector()
    ensures Spell([0, 0, 0, 26, 23, 19, 15, 15, 0, 4]) == "000TQKFF04"
  {}

  /** The 25 characters with the Unicode property White_Space. */
  lemma WhitespaceCodes(c: char)
    ensures var codes := {9, 10, 11, 12, 13, 32, 133, 160, 5760, 8192, 8193, 8194, 8195, 8196, 8197, 8198, 8199, 8200, 8201,
                          8202, 8232, 8233, 8239, 8287, 12288};
            Whitespace(c) <==> c as int in codes
  {}

  /** Where UTF-8 takes another byte. */
  lemma CharacterWidths()
    ensures Width('\U{7F}') == 1 && Width('\U{80}') == 2 && Width('\U{7FF}') == 2 && Width('\U{800}') == 3
    ensures Width('\U{FFFF}') == 3 && Width('\U{10000}') == 4
  {}

  /** A framed token: header, lines, footer, each ended by a newline. */
  lemma FramedVector()
    ensures Framed("AB") == Some("-----BEGIN FAREWELL LICENSE-----" + "\nAB\n" + "-----END FAREWELL LICENSE-----" + "\n")
    ensures Framed("") == Some("-----BEGIN FAREWELL LICENSE-----" + "\n" + "-----END FAREWELL LICENSE-----" + "\n")
  {
    var s := "AB";
    assert LicenseKeys.Cut("", 62) == Some(0);
    assert s[1..] == "B" && s[1..][1..] == "";
    assert LicenseKeys.Cut(s[1..], 63) == Some(1);
    assert LicenseKeys.Cut(s, 64) == Some(2);
    assert s[2..] == "" && s[..2] == "AB";
    assert Lines("") == Some("");
    assert "AB" + ("\n" + "") == "AB\n" && "\n" + "AB\n" == "\nAB\n";
    assert Lines(s) == Some("AB\n");
    assert BEGIN + "\n" + "AB\n" == BEGIN + ("\n" + "AB\n") && BEGIN + "\n" + "" == BEGIN + "\n";
  }
}
