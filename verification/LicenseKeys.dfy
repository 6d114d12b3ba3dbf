/** The human-facing license key and its framing (crates/farewell_license/src/key.rs, token.rs). */
module LicenseKeys {
  import opened Bytes
  import opened Base32
  import opened LicenseErrors
  import opened Wrappers

  const GROUP: nat := 5

  // ---- the container ----

  function Be16(n: nat): (s: seq<Byte>)
    ensures |s| == 2
  {
    [n / 0x100 % 0x100, n % 0x100]
  }

  function FromBe16(high: int, low: int): (n: int)
    requires high >= 0 && low >= 0
    ensures n >= 0
  {
    high * 0x100 + low
  }

  /** Length of the payload in sixteen bits, the payload, the signature. */
  function Blob(payload: seq<Byte>, signature: seq<Byte>): seq<Byte> {
    Be16(|payload|) + payload + signature
  }

  function Unblob(blob: seq<Byte>): Outcome<(seq<Byte>, seq<Byte>)> {
    if |blob| < 2 then Err(MalformedToken)
    else
      var n := FromBe16(blob[0], blob[1]);
      if |blob| <= 2 + n then Err(MalformedToken) else Ok((blob[2..2 + n], blob[2 + n..]))
  }

  lemma LengthField(n: nat)
    ensures FromBe16(Be16(n)[0], Be16(n)[1]) == n % 0x1_0000
  {
    var q, r := n / 0x1_0000, n % 0x1_0000;
    assert n == 0x100 * (0x100 * q + r / 0x100) + r % 0x100;
    assert n / 0x100 == 0x100 * q + r / 0x100;
  }

  /** The container comes apart as it was put together exactly when the length field can
      hold the payload's length and there is a signature. */
  lemma UnblobBlob(payload: seq<Byte>, signature: seq<Byte>)
    ensures Unblob(Blob(payload, signature)) == Ok((payload, signature)) <==> |payload| < 0x1_0000 && signature != []
  {
    var blob := Blob(payload, signature);
    var n := FromBe16(blob[0], blob[1]);
    LengthField(|payload|);
    assert n == |payload| % 0x1_0000;
    if n == |payload| && signature != [] {
      assert blob[2..2 + n] == payload;
      assert blob[2 + n..] == signature;
    }
  }

  // ---- grouping ----

  /** The text in groups of five with a dash between. */
  function Grouped(raw: string): string
    decreases |raw|
  {
    if |raw| <= GROUP then raw else raw[..GROUP] + "-" + Grouped(raw[GROUP..])
  }

  /** Text of the first i characters, as the loop that inserts the dashes has written it. */
  function Dashed(raw: string, i: nat): string
    requires i <= |raw|
  {
    if i == 0 then ""
    else Dashed(raw, i - 1) + (if i > 1 && (i - 1) % GROUP == 0 then "-" else "") + [raw[i - 1]]
  }

  lemma {:induction false} DashedWithin(raw: string, i: nat)
    requires i <= |raw| && i <= GROUP
    ensures Dashed(raw, i) == raw[..i]
  {
    if i > 0 {
      DashedWithin(raw, i - 1);
    }
  }

  lemma {:induction false} DashedBeyond(raw: string, i: nat)
    requires GROUP < i <= |raw|
    ensures Dashed(raw, i) == raw[..GROUP] + "-" + Dashed(raw[GROUP..], i - GROUP)
  {
    if i == GROUP + 1 {
      DashedWithin(raw, GROUP);
      assert Dashed(raw[GROUP..], 0) == "" && Dashed(raw[GROUP..], 1) == [raw[GROUP]];
    } else {
      DashedBeyond(raw, i - 1);
      var tail := raw[GROUP..];
      assert (i - 1) % GROUP == (i - GROUP - 1) % GROUP && tail[i - GROUP - 1] == raw[i - 1];
    }
  }

  lemma {:induction false} DashedIsGrouped(raw: string)
    ensures Dashed(raw, |raw|) == Grouped(raw)
    decreases |raw|
  {
    if |raw| <= GROUP {
      DashedWithin(raw, |raw|);
    } else {
      DashedBeyond(raw, |raw|);
      DashedIsGrouped(raw[GROUP..]);
    }
  }

  lemma {:induction false} GroupingIsRead(raw: string)
    ensures Read(Grouped(raw)) == Read(raw)
    decreases |raw|
  {
    if |raw| > GROUP {
      GroupingIsRead(raw[GROUP..]);
      ReadConcat(raw[..GROUP] + "-", Grouped(raw[GROUP..]));
      DashIsSkipped(raw[..GROUP]);
      ReadConcat(raw[..GROUP], raw[GROUP..]);
      assert raw == raw[..GROUP] + raw[GROUP..];
    }
  }

  lemma DashIsSkipped(s: string)
    ensures Read(s + "-") == Read(s)
  {
    assert (s + "-")[..|s|] == s;
  }

  // ---- encoding and decoding a key ----

  function KeyOf(payload: seq<Byte>, signature: seq<Byte>): string {
    Grouped(Spell(Pack(Blob(payload, signature))))
  }

  method EncodeKey(payload: seq<Byte>, signature: seq<Byte>) returns (out: string)
    ensures out == KeyOf(payload, signature)
  {
    var blob := Be16(|payload|) + payload + signature;
    var raw := Encode(blob);
    out := "";
    for i := 0 to |raw|
      invariant out == Dashed(raw, i)
    {
      if i > 0 && i % GROUP == 0 {
        out := out + "-";
      }
      out := out + [raw[i]];
    }
    DashedIsGrouped(raw);
  }

  /** What a key stands for. */
  function Decoded(key: string): Outcome<(seq<Byte>, seq<Byte>)> {
    match Read(key)
    case Unreadable => Err(MalformedToken)
    case Digits(ds) => Unblob(Unpack(ds))
  }

  method DecodeKey(key: string) returns (r: Outcome<(seq<Byte>, seq<Byte>)>)
    ensures r == Decoded(key)
  {
    var ok, blob := Decode(key);
    if !ok || |blob| < 2 {
      return Err(MalformedToken);
    }
    var n := FromBe16(blob[0], blob[1]);
    if |blob| <= 2 + n {
      return Err(MalformedToken);
    }
    return Ok((blob[2..2 + n], blob[2 + n..]));
  }

  /** A key, however respelled, decodes to exactly the payload and signature it was made from,
      if and only if the payload's length fits its field and there is a signature. */
  lemma KeyRoundTrip(payload: seq<Byte>, signature: seq<Byte>, typed: string)
    requires Respelled(KeyOf(payload, signature), typed)
    ensures Decoded(typed) == Ok((payload, signature)) <==> |payload| < 0x1_0000 && signature != []
  {
    hide Pack, Unpack, Read, Respelled, Unblob, Blob, Grouped;
    var blob := Blob(payload, signature);
    RespelledReadsTheSame(KeyOf(payload, signature), typed);
    GroupingIsRead(Spell(Pack(blob)));
    ReadSpelled(Pack(blob));
    UnpackPack(blob);
    UnblobBlob(payload, signature);
  }

  // ---- framing ----

  const BEGIN: string := "-----BEGIN FAREWELL LICENSE-----"
  const END: string := "-----END FAREWELL LICENSE-----"
  const LINE: nat := 64

  /** `char::is_whitespace`. */
  predicate Whitespace(c: char) {
    var n := c as int;
    || 0x9 <= n <= 0xD || n == 0x20 || n == 0x85 || n == 0xA0 || n == 0x1680 || 0x2000 <= n <= 0x200A
    || n == 0x2028 || n == 0x2029 || n == 0x202F || n == 0x205F || n == 0x3000
  }

  /** Bytes a character takes in UTF-8. */
  function Width(c: char): (n: nat)
    ensures 1 <= n <= 4
  {
    if c as int < 0x80 then 1 else if c as int < 0x800 then 2 else if c as int < 0x1_0000 then 3 else 4
  }

  function ByteLen(s: string): nat {
    if s == "" then 0 else Width(s[0]) + ByteLen(s[1..])
  }

  /** How many characters the first `room` bytes hold; None when they end inside one. */
  function Cut(s: string, room: nat): (n: Option<nat>)
    ensures n.Some? ==> n.value <= |s| && (s != "" && room > 0 ==> n.value > 0)
  {
    if s == "" || room == 0 then Some(0)
    else if Width(s[0]) > room then None
    else
      match Cut(s[1..], room - Width(s[0]))
      case None => None
      case Some(n) => Some(n + 1)
  }

  /** The token in lines of 64 bytes; None when a line would end inside a character. */
  function Lines(token: string): Option<string>
    decreases |token|
  {
    if token == "" then Some("")
    else
      match Cut(token, LINE)
      case None => None
      case Some(n) =>
        match Lines(token[n..])
        case None => None
        case Some(rest) => Some(token[..n] + ("\n" + rest))
  }

  function Framed(token: string): Option<string> {
    match Lines(token)
    case None => None
    case Some(lines) => Some(BEGIN + "\n" + lines + END + "\n")
  }

  /** `wrap_pem`; None stands for the panic on a line that is not UTF-8 by itself. */
  method WrapPem(token: string) returns (out: Option<string>)
    ensures out == Framed(token)
  {
    hide Cut;
    var text := BEGIN + "\n";
    var at := 0;
    while at < |token|
      invariant 0 <= at <= |token|
      invariant Lines(token).None? <==> Lines(token[at..]).None?
      invariant Lines(token).Some? ==> text + Lines(token[at..]).value == BEGIN + "\n" + Lines(token).value
    {
      var n := Cut(token[at..], LINE);
      if n.None? {
        return None;
      }
      assert token[at..][..n.value] == token[at..at + n.value];
      assert token[at..][n.value..] == token[at + n.value..];
      text := text + token[at..at + n.value] + "\n";
      at := at + n.value;
    }
    assert token[at..] == "" && text + "" == text;
    return Some(text + END + "\n");
  }

  // ---- when a line would end inside a character ----

  /** Some characters of s, from its start, take exactly `bytes` bytes. */
  predicate Boundary(s: string, bytes: nat) {
    exists n | 0 <= n <= |s| :: ByteLen(s[..n]) == bytes
  }

  lemma {:induction false} ByteLenSplit(s: string, n: nat)
    requires n <= |s|
    ensures ByteLen(s) == ByteLen(s[..n]) + ByteLen(s[n..])
  {
    if n > 0 {
      assert s[..n][1..] == s[1..][..n - 1] && s[1..][n - 1..] == s[n..];
      ByteLenSplit(s[1..], n - 1);
    }
  }

  lemma {:induction false} CutAt(s: string, room: nat)
    ensures Cut(s, room).Some? ==> ByteLen(s[..Cut(s, room).value]) == Min(room, ByteLen(s))
    ensures Cut(s, room).None? ==> room < ByteLen(s) && !Boundary(s, room)
  {
    if s != "" && room > 0 {
      if Width(s[0]) <= room {
        CutAt(s[1..], room - Width(s[0]));
        if Cut(s, room).Some? {
          assert s[..Cut(s, room).value][1..] == s[1..][..Cut(s, room).value - 1];
        }
      }
      if Cut(s, room).None? {
        forall n | 0 <= n <= |s| ensures ByteLen(s[..n]) != room {
          if n > 0 {
            assert s[..n][1..] == s[1..][..n - 1];
          }
        }
      }
    }
  }

  lemma PrefixGrows(s: string, i: nat, n: nat)
    requires i <= |s| && n <= |s|
    ensures i < n ==> ByteLen(s[..i]) < ByteLen(s[..n])
  {
    if i < n {
      ByteLenSplit(s[..n], i);
      assert s[..n][..i] == s[..i];
      ByteLenPositive(s[..n][i..]);
    }
  }

  /** A boundary past the first line is a boundary of what follows it. */
  lemma BoundaryAfter(s: string, n: nat, bytes: nat)
    requires n <= |s|
    ensures Boundary(s, ByteLen(s[..n]) + bytes) <==> Boundary(s[n..], bytes)
  {
    hide ByteLen;
    if i :| 0 <= i <= |s| && ByteLen(s[..i]) == ByteLen(s[..n]) + bytes {
      PrefixGrows(s, i, n);
      PrefixSplit(s, n, i);
      assert ByteLen(s[n..][..i - n]) == bytes;
    }
    if j :| 0 <= j <= |s[n..]| && ByteLen(s[n..][..j]) == bytes {
      PrefixSplit(s, n, n + j);
    }
  }

  lemma PrefixSplit(s: string, n: nat, i: nat)
    requires n <= i <= |s|
    ensures ByteLen(s[..i]) == ByteLen(s[..n]) + ByteLen(s[n..][..i - n])
  {
    hide ByteLen;
    ByteLenSplit(s[..i], n);
    assert s[..i][..n] == s[..n] && s[..i][n..] == s[n..][..i - n];
  }

  lemma ByteLenPositive(s: string)
    ensures ByteLen(s) > 0 <==> s != ""
  {}

  /** Framing panics exactly when some multiple of 64 bytes before the end of the token falls
      inside a character. */
  lemma {:induction false} FramedIff(token: string)
    ensures Framed(token).None? <==>
            exists k: nat | 0 < k :: 64 * k < ByteLen(token) && !Boundary(token, 64 * k)
    decreases |token|
  {
    hide ByteLen, Cut, Boundary;
    ByteLenPositive(token);
    if token != "" {
      CutAt(token, LINE);
      var cut := Cut(token, LINE);
      if cut.None? {
        assert 64 * 1 < ByteLen(token) && !Boundary(token, 64 * 1);
      } else {
        FramedIff(token[cut.value..]);
        LaterLines(token, cut.value);
      }
    }
  }

  /** 63 letters and one two-byte character: the first line would end inside it. */
  lemma SplitCharExample()
    ensures Framed(AfterLetters(63)).None?
  {
    hide Cut;
    CutInside(63);
  }

  function AfterLetters(n: nat): (s: string)
    ensures |s| == n + 1
  {
    seq(n, _ => 'A') + ['\U{00E9}']
  }

  lemma {:induction false} CutInside(n: nat)
    ensures Cut(AfterLetters(n), n + 1).None?
  {
    if n > 0 {
      CutInside(n - 1);
      assert AfterLetters(n)[1..] == AfterLetters(n - 1);
    }
  }

  lemma LaterLines(token: string, n: nat)
    requires n <= |token| && ByteLen(token[..n]) == Min(LINE, ByteLen(token))
    ensures (exists k: nat | 0 < k :: 64 * k < ByteLen(token) && !Boundary(token, 64 * k))
       <==> (exists k: nat | 0 < k :: 64 * k < ByteLen(token[n..]) && !Boundary(token[n..], 64 * k))
  {
    hide ByteLen, Boundary;
    ByteLenSplit(token, n);
    if ByteLen(token) > LINE {
      if k: nat :| 0 < k && 64 * k < ByteLen(token) && !Boundary(token, 64 * k) {
        IsBoundary(token, n);
        BoundaryAfter(token, n, 64 * (k - 1));
        assert 64 * (k - 1) < ByteLen(token[n..]) && !Boundary(token[n..], 64 * (k - 1));
      }
      if k: nat :| 0 < k && 64 * k < ByteLen(token[n..]) && !Boundary(token[n..], 64 * k) {
        BoundaryAfter(token, n, 64 * k);
        assert 64 * (k + 1) < ByteLen(token) && !Boundary(token, 64 * (k + 1));
      }
    }
  }

  lemma IsBoundary(s: string, n: nat)
    requires n <= |s|
    ensures Boundary(s, ByteLen(s[..n]))
  {}

  lemma {:induction false} AsciiCuts(s: string, room: nat)
    requires forall i :: 0 <= i < |s| ==> s[i] as int < 0x80
    ensures Cut(s, room).Some?
  {
    if s != "" && room > 0 {
      AsciiCuts(s[1..], room - 1);
    }
  }

  lemma {:induction false} AsciiIsFramed(token: string)
    requires forall i :: 0 <= i < |token| ==> token[i] as int < 0x80
    ensures Framed(token).Some?
    decreases |token|
  {
    hide Cut;
    if token != "" {
      AsciiCuts(token, LINE);
      AsciiIsFramed(token[Cut(token, LINE).value..]);
    }
  }

  predicate At(s: string, pattern: string, i: nat) {
    i + |pattern| <= |s| && s[i..i + |pattern|] == pattern
  }

  /** `str::find`: the first occurrence at or after `from`, or -1. */
  function FindFrom(s: string, pattern: string, from: nat): (i: int)
    requires from <= |s|
    ensures i == -1 || (from <= i <= |s| && At(s, pattern, i))
    ensures forall j :: from <= j <= |s| && (i == -1 || j < i) ==> !At(s, pattern, j)
    decreases |s| - from
  {
    if At(s, pattern, from) then from
    else if from == |s| then -1
    else FindFrom(s, pattern, from + 1)
  }

  method StripPemFraming(s: string) returns (found: bool, body: string)
    ensures found == Framing(s).0 && body == Framing(s).1
  {
    var begin := FindFrom(s, BEGIN, 0);
    if begin == -1 {
      return false, s;
    }
    var start := begin + |BEGIN|;
    var end := FindFrom(s, END, 0);
    if end == -1 || end <= start {
      return false, s;
    }
    return true, s[start..end];
  }

  /** The text between the first header and the first footer, or all of it. */
  function Framing(s: string): (bool, string) {
    var begin := FindFrom(s, BEGIN, 0);
    var end := FindFrom(s, END, 0);
    if begin == -1 || end == -1 || end <= begin + |BEGIN| then (false, s) else (true, s[begin + |BEGIN|..end])
  }

  function Trimmed(s: string): string
    decreases |s|
  {
    if s != "" && Whitespace(s[0]) then Trimmed(s[1..])
    else if s != "" && Whitespace(s[|s| - 1]) then Trimmed(s[..|s| - 1])
    else s
  }

  /** `split_whitespace().collect()`. */
  function Squeezed(s: string): string {
    if s == "" then ""
    else Squeezed(s[..|s| - 1]) + (if Whitespace(s[|s| - 1]) then "" else [s[|s| - 1]])
  }

  datatype Token = Key(payload: seq<Byte>, signature: seq<Byte>) | Dotted(body: string)

  /** The key branch of `parse_token`; a dotted token is handed on. */
  method ParseToken(token: string) returns (r: Outcome<Token>)
    ensures r == Parsed(token)
  {
    var trimmed := Trimmed(token);
    var found, body := StripPemFraming(trimmed);
    body := Squeezed(body);
    if '.' in body {
      return Ok(Dotted(body));
    }
    var parts := DecodeKey(body);
    if parts.Err? {
      return Err(parts.error);
    }
    return Ok(Key(parts.value.0, parts.value.1));
  }

  function Parsed(token: string): Outcome<Token> {
    var body := Squeezed(Framing(Trimmed(token)).1);
    if '.' in body then Ok(Dotted(body))
    else
      match Decoded(body)
      case Err(e) => Err(e)
      case Ok(parts) => Ok(Key(parts.0, parts.1))
  }

  // ---- framing is transparent ----

  predicate Compact(s: string) {
    forall i :: 0 <= i < |s| ==> !Whitespace(s[i])
  }

  lemma {:induction false} SqueezedCompact(s: string)
    requires Compact(s)
    ensures Squeezed(s) == s
  {
    if s != "" {
      SqueezedCompact(s[..|s| - 1]);
    }
  }

  lemma {:induction false} SqueezedConcat(a: string, b: string)
    ensures Squeezed(a + b) == Squeezed(a) + Squeezed(b)
    decreases |b|
  {
    if b == "" {
      assert a + b == a;
    } else {
      assert (a + b)[..|a + b| - 1] == a + b[..|b| - 1];
      SqueezedConcat(a, b[..|b| - 1]);
    }
  }

  lemma {:induction false} SqueezedTrimmed(s: string)
    ensures Squeezed(Trimmed(s)) == Squeezed(s)
    decreases |s|
  {
    if s != "" && Whitespace(s[0]) {
      SqueezedTrimmed(s[1..]);
      SqueezedConcat([s[0]], s[1..]);
      assert s == [s[0]] + s[1..];
      assert Squeezed([s[0]]) == Squeezed("");
    } else if s != "" && Whitespace(s[|s| - 1]) {
      SqueezedTrimmed(s[..|s| - 1]);
    }
  }

  lemma {:induction false} LinesHaveNoSpace(token: string)
    requires ' ' !in token && Lines(token).Some?
    ensures ' ' !in Lines(token).value
    decreases |token|
  {
    hide Cut;
    if token != "" {
      LinesHaveNoSpace(token[Cut(token, LINE).value..]);
    }
  }

  lemma {:induction false} SqueezedLines(token: string)
    requires Compact(token) && Lines(token).Some?
    ensures Squeezed(Lines(token).value) == token
    decreases |token|
  {
    hide Squeezed, Cut;
    if token == "" {
      NothingSqueezes();
    } else {
      var n := Cut(token, LINE).value;
      var rest := Lines(token[n..]).value;
      SqueezedLines(token[n..]);
      SqueezedCompact(token[..n]);
      SqueezedConcat(token[..n], "\n" + rest);
      SqueezedConcat("\n", rest);
      NewlineSqueezes();
      assert token == token[..n] + token[n..];
    }
  }

  lemma NothingSqueezes()
    ensures Squeezed("") == ""
  {}

  lemma LinesOf(token: string)
    requires Compact(token) && Lines(token).Some?
    ensures var lines := Lines(token).value;
            Squeezed(lines) == token && forall i :: 0 <= i < |lines| ==> lines[i] != ' '
  {
    hide Squeezed, Lines;
    LinesHaveNoSpace(token);
    SqueezedLines(token);
  }

  /** In the text up to its own footer the footer does not occur earlier: its second word
      follows a space, and the only spaces before are the two of the header. */
  lemma FooterIsLast(middle: string, j: nat)
    requires forall i :: 0 <= i < |middle| ==> middle[i] != ' '
    requires At(BEGIN + middle + END, END, j)
    ensures j >= |BEGIN| + |middle|
  {
    var s := BEGIN + middle + END;
    assert |BEGIN| == 32 && |END| == 30;
    assert s[7] == BEGIN[7] == 'G' && s[11] == BEGIN[11] == 'F';
    FooterHas(s, j);
    SpacesIn(middle, j + 8);
  }

  lemma FooterHas(s: string, j: nat)
    requires At(s, END, j)
    ensures j + 30 <= |s| && s[j] == '-' && s[j + 5] == 'E' && s[j + 8] == ' '
  {
    var footer := s[j..j + |END|];
    assert s[j] == footer[0] && s[j + 5] == footer[5] && s[j + 8] == footer[8];
  }

  /** The spaces of a framed text are the two of the header and those of the footer. */
  lemma SpacesIn(middle: string, i: nat)
    requires i < 62 + |middle|
    requires forall k :: 0 <= k < |middle| ==> middle[k] != ' '
    ensures |BEGIN + middle + END| == 62 + |middle|
    ensures (BEGIN + middle + END)[i] == ' ' ==> i == 10 || i == 19 || i >= 40 + |middle|
  {
    var s := BEGIN + middle + END;
    if i < 32 {
      assert s[i] == BEGIN[i];
      SpacesOfHeader(i);
    } else if i < 32 + |middle| {
      assert s[i] == middle[i - 32];
    } else {
      assert s[i] == END[i - 32 - |middle|];
      SpacesOfFooter(i - 32 - |middle|);
    }
  }

  lemma SpacesOfHeader(i: nat)
    requires i < |BEGIN|
    ensures BEGIN[i] == ' ' ==> i == 10 || i == 19
  {}

  lemma SpacesOfFooter(i: nat)
    requires i < |END|
    ensures END[i] == ' ' ==> i >= 8
  {}

  lemma HasNoHeader(s: string)
    requires Compact(s)
    ensures FindFrom(s, BEGIN, 0) == -1
  {
    hide At;
    forall i | 0 <= i <= |s|
      ensures !At(s, BEGIN, i)
    {
      HeaderHasSpace(s, i);
    }
  }

  lemma HeaderHasSpace(s: string, i: nat)
    ensures At(s, BEGIN, i) ==> i + 10 < |s| && Whitespace(s[i + 10])
  {
    if At(s, BEGIN, i) {
      assert s[i + 10] == s[i..i + |BEGIN|][10] == BEGIN[10];
    }
  }

  lemma TrimmedFrame(token: string)
    requires Framed(token).Some?
    ensures Trimmed(Framed(token).value) == BEGIN + "\n" + Lines(token).value + END
  {
    hide Lines;
    var inner := BEGIN + "\n" + Lines(token).value + END;
    var s := Framed(token).value;
    assert s == inner + "\n";
    assert s[0] == BEGIN[0] == '-';
    assert s[..|s| - 1] == inner && s[|s| - 1] == '\n';
    assert inner[0] == '-' && inner[|inner| - 1] == END[29] == '-';
  }

  /** A token stored or mailed in PEM framing parses as the bare token does. */
  lemma FramingIsTransparent(token: string)
    requires Compact(token) && Framed(token).Some?
    ensures Parsed(Framed(token).value) == Parsed(token)
  {
    hide Squeezed, Trimmed, At, Decoded, Lines;
    var middle := "\n" + Lines(token).value;
    LinesOf(token);
    TrimmedFrame(token);
    assert Trimmed(Framed(token).value) == BEGIN + middle + END;
    FramingOf(middle);
    SqueezedConcat("\n", Lines(token).value);
    NewlineSqueezes();
    assert Squeezed(middle) == token;
    BareToken(token);
  }

  lemma NewlineSqueezes()
    ensures Squeezed("\n") == ""
  {
    assert Squeezed("") == "";
  }

  lemma FramingOf(middle: string)
    requires middle != "" && forall i :: 0 <= i < |middle| ==> middle[i] != ' '
    ensures Framing(BEGIN + middle + END) == (true, middle)
  {
    var s := BEGIN + middle + END;
    assert At(s, BEGIN, 0);
    assert At(s, END, |BEGIN| + |middle|);
    FooterIsLast(middle, FindFrom(s, END, 0));
    assert s[|BEGIN|..|BEGIN| + |middle|] == middle;
  }

  lemma BareToken(token: string)
    requires Compact(token)
    ensures Squeezed(Framing(Trimmed(token)).1) == token
  {
    assert Trimmed(token) == token;
    HasNoHeader(token);
    SqueezedCompact(token);
  }

  /** Whitespace around and inside an unframed token does not matter. */
  lemma WhitespaceIsIgnored(s: string)
    requires FindFrom(Trimmed(s), BEGIN, 0) == -1
    ensures Parsed(s) == Parsed(Squeezed(s))
  {
    SqueezedTrimmed(s);
    SqueezedIsCompact(s);
    BareToken(Squeezed(s));
  }

  lemma {:induction false} SqueezedIsCompact(s: string)
    ensures Compact(Squeezed(s))
  {
    if s != "" {
      SqueezedIsCompact(s[..|s| - 1]);
    }
  }

  predicate KeyChar(c: char) {
    c == '-' || '0' <= c <= '9' || 'A' <= c <= 'Z'
  }

  lemma {:induction false} GroupedChars(raw: string)
    requires forall i :: 0 <= i < |raw| ==> KeyChar(raw[i])
    ensures forall i :: 0 <= i < |Grouped(raw)| ==> KeyChar(Grouped(raw)[i])
    decreases |raw|
  {
    hide KeyChar;
    if |raw| > GROUP {
      GroupedChars(raw[GROUP..]);
      assert KeyChar('-') by {
        DashIsKeyChar();
      }
    }
  }

  lemma DashIsKeyChar()
    ensures KeyChar('-')
  {}

  lemma SpelledChars(ds: seq<Digit>)
    ensures forall i :: 0 <= i < |Spell(ds)| ==> KeyChar(Spell(ds)[i])
  {
    forall i | 0 <= i < |Spell(ds)| ensures KeyChar(Spell(ds)[i]) {
      LetterHasCode(ds[i]);
      CodeIsKeyChar(ds[i], Spell(ds)[i]);
    }
  }

  lemma CodeIsKeyChar(d: Digit, c: char)
    requires c as int == LetterCode(d)
    ensures KeyChar(c)
  {}

  /** A rendered key is plain ASCII without whitespace or dots. */
  lemma KeyIsPlain(payload: seq<Byte>, signature: seq<Byte>)
    ensures var key := KeyOf(payload, signature);
            Compact(key) && '.' !in key && forall i :: 0 <= i < |key| ==> key[i] as int < 0x80
  {
    hide Grouped, Pack;
    var digits := Pack(Blob(payload, signature));
    SpelledChars(digits);
    GroupedChars(Spell(digits));
    var key := KeyOf(payload, signature);
    forall i | 0 <= i < |key|
      ensures !Whitespace(key[i]) && key[i] != '.' && key[i] as int < 0x80
    {
      assert KeyChar(key[i]);
    }
  }

  /** A key kept in a license file in PEM framing yields the payload and signature it was made from. */
  lemma FramedKeyRoundTrip(payload: seq<Byte>, signature: seq<Byte>)
    ensures Framed(KeyOf(payload, signature)).Some?
    ensures Parsed(Framed(KeyOf(payload, signature)).value) == Ok(Key(payload, signature))
       <==> |payload| < 0x1_0000 && signature != []
  {
    hide KeyOf, Decoded, Framed, Trimmed, Squeezed, Framing, Respelled, Compact;
    var key := KeyOf(payload, signature);
    KeyIsPlain(payload, signature);
    AsciiIsFramed(key);
    FramingIsTransparent(key);
    BareToken(key);
    RespelledAsIs(key);
    KeyRoundTrip(payload, signature, key);
  }
}
