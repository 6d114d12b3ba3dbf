/** The signed license payload (crates/farewell_license/src/payload.rs). */
module LicensePayloads {
  import opened Bytes
  import opened Texts
  import opened Base32
  import opened LicenseErrors
  import opened LicenseKeys

  const MAGIC: seq<Byte> := [0x46, 0x4C, 0x57, 0x31]
  const PAYLOAD_VERSION: Byte := 1

  type I64 = x: int | -0x8000_0000_0000_0000 <= x < 0x8000_0000_0000_0000
  type LicenseId = s: seq<Byte> | |s| == 16 witness seq(16, _ => 0)

  datatype LicenseType = Single | Duo | Quintet | Grant {
    function Code(): Byte {
      match this
      case Single => 0
      case Duo => 1
      case Quintet => 2
      case Grant => 3
    }
  }

  function FromCode(code: Byte): Outcome<LicenseType> {
    match code
    case 0 => Ok(Single)
    case 1 => Ok(Duo)
    case 2 => Ok(Quintet)
    case 3 => Ok(Grant)
    case _ => Err(UnknownLicenseType(code))
  }

  /** The bound serial numbers are ASCII, hence text, whenever a payload is encodable. */
  datatype Payload = Payload(
    tier: LicenseType,
    major: U32,
    purchased: I64,
    id: LicenseId,
    email: Text,
    serials: seq<seq<Byte>>)

  /** Two's complement. */
  function AsU64(x: I64): U64 {
    if x >= 0 then x else x + U64_MAX + 1
  }

  function AsI64(x: U64): I64 {
    if x < 0x8000_0000_0000_0000 then x else x - U64_MAX - 1
  }

  predicate Ascii(s: seq<Byte>) {
    forall i :: 0 <= i < |s| ==> s[i] < 0x80
  }

  // ---- the layout ----

  function SerialBytes(s: seq<Byte>): seq<Byte> {
    Le(|s|, 1) + s
  }

  function SerialsBytes(serials: seq<seq<Byte>>): seq<Byte> {
    if serials == [] then [] else SerialBytes(serials[0]) + SerialsBytes(serials[1..])
  }

  function HeadBytes(p: Payload): (s: seq<Byte>)
    ensures |s| == 34
  {
    MAGIC + [PAYLOAD_VERSION] + [p.tier.Code()] + Le(p.major, 4) + Le(AsU64(p.purchased), 8) + p.id
  }

  function PayloadBytes(p: Payload): seq<Byte> {
    HeadBytes(p) + Le(|p.email|, 2) + p.email + Le(|p.serials|, 1) + SerialsBytes(p.serials)
  }

  function SerialsRefusal(serials: seq<seq<Byte>>): Outcome<()> {
    if serials == [] then Ok(())
    else if !Ascii(serials[0]) then Err(SerialNotAscii)
    else if |serials[0]| > 0xFF then Err(Truncated)
    else SerialsRefusal(serials[1..])
  }

  predicate SerialsFit(serials: seq<seq<Byte>>) {
    forall s :: s in serials ==> Ascii(s) && |s| <= 0xFF
  }

  predicate Encodable(p: Payload) {
    |p.email| < 0x1_0000 && |p.serials| <= 0xFF && SerialsFit(p.serials)
  }

  lemma {:induction false} RefusesUnlessFit(serials: seq<seq<Byte>>)
    ensures SerialsRefusal(serials).Ok? <==> SerialsFit(serials)
  {
    if serials != [] {
      RefusesUnlessFit(serials[1..]);
      assert serials == [serials[0]] + serials[1..];
    }
  }

  lemma {:induction false} SerialsSnoc(done: seq<seq<Byte>>, s: seq<Byte>)
    ensures SerialsBytes(done + [s]) == SerialsBytes(done) + SerialBytes(s)
    ensures SerialsRefusal(done + [s]) == if SerialsRefusal(done).Ok? then SerialsRefusal([s]) else SerialsRefusal(done)
  {
    if done == [] {
      assert done + [s] == [s];
      assert SerialsBytes([s]) == SerialBytes(s) + SerialsBytes([]);
    } else {
      assert (done + [s])[1..] == done[1..] + [s];
      SerialsSnoc(done[1..], s);
    }
  }

  lemma {:induction false} FirstRefusalStands(done: seq<seq<Byte>>, rest: seq<seq<Byte>>)
    requires SerialsRefusal(done).Err?
    ensures SerialsRefusal(done + rest) == SerialsRefusal(done)
  {
    assert (done + rest)[1..] == done[1..] + rest;
    if SerialsRefusal(done[1..]).Err? {
      FirstRefusalStands(done[1..], rest);
    }
  }

  function Refusal(p: Payload): Outcome<()> {
    if |p.email| > 0xFFFF || |p.serials| > 0xFF then Err(Truncated) else SerialsRefusal(p.serials)
  }

  lemma RefusesUnlessEncodable(p: Payload)
    ensures Refusal(p).Ok? <==> Encodable(p)
  {
    RefusesUnlessFit(p.serials);
  }

  /** `Payload::to_bytes`: writes the layout field by field. */
  method ToBytes(p: Payload) returns (r: Outcome<seq<Byte>>)
    ensures r == match Refusal(p)
                 case Ok(_) => Ok(PayloadBytes(p))
                 case Err(e) => Err(e)
  {
    hide Le, Ascii, SerialsBytes, SerialsRefusal;
    var out := MAGIC;
    out := out + [PAYLOAD_VERSION];
    out := out + [p.tier.Code()];
    out := out + Le(p.major, 4);
    out := out + Le(AsU64(p.purchased), 8);
    out := out + p.id;
    if |p.email| > 0xFFFF {
      return Err(Truncated);
    }
    out := out + Le(|p.email|, 2);
    out := out + p.email;
    if |p.serials| > 0xFF {
      return Err(Truncated);
    }
    out := out + Le(|p.serials|, 1);
    var serials := WriteSerials(p.serials);
    if serials.Err? {
      return Err(serials.error);
    }
    return Ok(out + serials.value);
  }

  method WriteSerials(serials: seq<seq<Byte>>) returns (r: Outcome<seq<Byte>>)
    ensures r == match SerialsRefusal(serials)
                 case Ok(_) => Ok(SerialsBytes(serials))
                 case Err(e) => Err(e)
  {
    hide Le, Ascii, SerialsBytes;
    var out: seq<Byte> := [];
    SerialsEmpty();
    for i := 0 to |serials|
      invariant SerialsRefusal(serials[..i]).Ok?
      invariant out == SerialsBytes(serials[..i])
    {
      var s := serials[i];
      SerialsSnoc(serials[..i], s);
      assert serials[..i + 1] == serials[..i] + [s];
      assert serials == serials[..i + 1] + serials[i + 1..];
      if !Ascii(s) {
        FirstRefusalStands(serials[..i + 1], serials[i + 1..]);
        return Err(SerialNotAscii);
      }
      if |s| > 0xFF {
        FirstRefusalStands(serials[..i + 1], serials[i + 1..]);
        return Err(Truncated);
      }
      out := out + Le(|s|, 1);
      out := out + s;
    }
    assert serials[..|serials|] == serials;
    return Ok(out);
  }

  lemma SerialsEmpty()
    ensures SerialsBytes([]) == [] && SerialsRefusal([]).Ok?
  {}

  // ---- reading ----

  function Joined(done: seq<seq<Byte>>, rest: Outcome<seq<seq<Byte>>>): Outcome<seq<seq<Byte>>> {
    match rest
    case Err(e) => Err(e)
    case Ok(more) => Ok(done + more)
  }

  function ReadSerials(b: seq<Byte>, pos: nat, k: nat): Outcome<seq<seq<Byte>>>
    requires pos <= |b|
    decreases k
  {
    if k == 0 then Ok([])
    else if pos == |b| || pos + 1 + b[pos] > |b| then Err(Truncated)
    else
      var s := b[pos + 1..pos + 1 + b[pos]];
      if !Ascii(s) then Err(SerialNotAscii)
      else Joined([s], ReadSerials(b, pos + 1 + b[pos], k - 1))
  }

  /** The fields in order; whatever follows the last serial is ignored. */
  function ReadPayload(b: seq<Byte>): Outcome<Payload> {
    if |b| < 4 then Err(Truncated)
    else if b[..4] != MAGIC then Err(BadMagic(b[..4]))
    else if |b| < 5 then Err(Truncated)
    else if b[4] != PAYLOAD_VERSION then Err(PayloadVersion(b[4]))
    else if |b| < 6 then Err(Truncated)
    else if FromCode(b[5]).Err? then Err(UnknownLicenseType(b[5]))
    else if |b| < 36 then Err(Truncated)
    else
      var emailEnd := 36 + FromLe(b[34..36]);
      if |b| < emailEnd then Err(Truncated)
      else if !Utf8(b[36..emailEnd]) then Err(EmailNotUtf8)
      else if |b| == emailEnd then Err(Truncated)
      else
        FixedWidths(b);
        match ReadSerials(b, emailEnd + 1, b[emailEnd])
        case Err(e) => Err(e)
        case Ok(serials) =>
          Ok(Payload(FromCode(b[5]).value, FromLe(b[6..10]), AsI64(FromLe(b[10..18])), b[18..34], b[36..emailEnd], serials))
  }

  lemma FixedWidths(b: seq<Byte>)
    requires |b| >= 36
    ensures FromLe(b[6..10]) <= U32_MAX && FromLe(b[10..18]) <= U64_MAX
  {
    Widths();
    FromLeBound(b[6..10]);
    FromLeBound(b[10..18]);
  }

  /** `read_exact` on the cursor. */
  method Take(b: seq<Byte>, pos: nat, n: nat) returns (r: Outcome<seq<Byte>>)
    requires pos <= |b|
    ensures r == if pos + n <= |b| then Ok(b[pos..pos + n]) else Err(Truncated)
  {
    if pos + n > |b| {
      return Err(Truncated);
    }
    return Ok(b[pos..pos + n]);
  }

  method FromBytes(b: seq<Byte>) returns (r: Outcome<Payload>)
    ensures r == ReadPayload(b)
  {
    hide FromLe, Utf8, AsI64;
    var magic := Take(b, 0, 4);
    if magic.Err? {
      return Err(Truncated);
    }
    if magic.value != MAGIC {
      return Err(BadMagic(magic.value));
    }
    var version := Take(b, 4, 1);
    if version.Err? {
      return Err(Truncated);
    }
    if version.value[0] != PAYLOAD_VERSION {
      return Err(PayloadVersion(version.value[0]));
    }
    var code := Take(b, 5, 1);
    if code.Err? {
      return Err(Truncated);
    }
    var tier := FromCode(code.value[0]);
    if tier.Err? {
      return Err(tier.error);
    }
    var major := Take(b, 6, 4);
    if major.Err? {
      return Err(Truncated);
    }
    var purchased := Take(b, 10, 8);
    if purchased.Err? {
      return Err(Truncated);
    }
    var id := Take(b, 18, 16);
    if id.Err? {
      return Err(Truncated);
    }
    var emailLen := Take(b, 34, 2);
    if emailLen.Err? {
      return Err(Truncated);
    }
    FixedWidths(b);
    var email := Take(b, 36, FromLe(emailLen.value));
    if email.Err? {
      return Err(Truncated);
    }
    if !Utf8(email.value) {
      return Err(EmailNotUtf8);
    }
    var pos := 36 + |email.value|;
    var count := Take(b, pos, 1);
    if count.Err? {
      return Err(Truncated);
    }
    var serials := TakeSerials(b, pos + 1, count.value[0]);
    if serials.Err? {
      return Err(serials.error);
    }
    return Ok(Payload(tier.value, FromLe(major.value), AsI64(FromLe(purchased.value)), id.value, email.value, serials.value));
  }

  method TakeSerials(b: seq<Byte>, start: nat, k: nat) returns (r: Outcome<seq<seq<Byte>>>)
    requires start <= |b|
    ensures r == ReadSerials(b, start, k)
  {
    hide Ascii, Utf8;
    var serials: seq<seq<Byte>> := [];
    var pos: nat := start;
    assert ReadSerials(b, start, k).Ok? ==> [] + ReadSerials(b, start, k).value == ReadSerials(b, start, k).value;
    for i := 0 to k
      invariant pos <= |b|
      invariant ReadSerials(b, start, k) == Joined(serials, ReadSerials(b, pos, k - i))
    {
      var len := Take(b, pos, 1);
      if len.Err? {
        return Err(Truncated);
      }
      var bytes := Take(b, pos + 1, len.value[0]);
      if bytes.Err? {
        return Err(Truncated);
      }
      if !Ascii(bytes.value) {
        return Err(SerialNotAscii);
      }
      ghost var rest := ReadSerials(b, pos + 1 + len.value[0], k - i - 1);
      assert rest.Ok? ==> serials + ([bytes.value] + rest.value) == serials + [bytes.value] + rest.value;
      serials := serials + [bytes.value];
      pos := pos + 1 + len.value[0];
    }
    assert serials + [] == serials;
    return Ok(serials);
  }

  // ---- round trips ----

  /** One serial at the head of what is left to read. */
  lemma SerialAt(b: seq<Byte>, pos: nat, s: seq<Byte>, more: seq<Byte>)
    requires |s| <= 0xFF && pos <= |b| && SerialBytes(s) + more <= b[pos..]
    ensures pos + 1 + |s| <= |b| && b[pos] == |s| && b[pos + 1..pos + 1 + |s|] == s && more <= b[pos + 1 + |s|..]
  {
    LeOne(|s|);
    var left := SerialBytes(s) + more;
    assert left[0] == |s| && left[1..1 + |s|] == s && left[1 + |s|..] == more;
    assert b[pos..][0] == |s| && b[pos..][1..1 + |s|] == s && more <= b[pos..][1 + |s|..];
    assert b[pos..][1 + |s|..] == b[pos + 1 + |s|..];
  }

  lemma {:induction false} ReadSerialsBytes(b: seq<Byte>, pos: nat, serials: seq<seq<Byte>>)
    requires SerialsFit(serials) && pos <= |b| && SerialsBytes(serials) <= b[pos..]
    ensures ReadSerials(b, pos, |serials|) == Ok(serials)
    decreases |serials|
  {
    hide SerialBytes, Ascii, Utf8, ReadSerials;
    if serials == [] {
      ReadNone(b, pos);
    } else {
      var s := serials[0];
      assert s in serials;
      SerialAt(b, pos, s, SerialsBytes(serials[1..]));
      ReadSerialsBytes(b, pos + 1 + |s|, serials[1..]);
      ReadOneMore(b, pos, |serials| - 1);
      assert serials == [s] + serials[1..];
    }
  }

  lemma ReadNone(b: seq<Byte>, pos: nat)
    requires pos <= |b|
    ensures ReadSerials(b, pos, 0) == Ok([])
  {}

  lemma ReadOneMore(b: seq<Byte>, pos: nat, k: nat)
    requires pos < |b| && pos + 1 + b[pos] <= |b| && Ascii(b[pos + 1..pos + 1 + b[pos]])
    ensures ReadSerials(b, pos, k + 1) == Joined([b[pos + 1..pos + 1 + b[pos]]], ReadSerials(b, pos + 1 + b[pos], k))
  {
    hide Ascii;
  }

  lemma {:induction false} SerialsBytesOfRead(b: seq<Byte>, pos: nat, k: nat)
    requires pos <= |b| && ReadSerials(b, pos, k).Ok?
    ensures var serials := ReadSerials(b, pos, k).value;
            |serials| == k && SerialsFit(serials) && SerialsBytes(serials) <= b[pos..]
    decreases k
  {
    hide SerialBytes, Ascii, Utf8;
    if k > 0 {
      var end := pos + 1 + b[pos];
      var s := b[pos + 1..end];
      SerialsBytesOfRead(b, end, k - 1);
      var rest := ReadSerials(b, end, k - 1).value;
      assert ReadSerials(b, pos, k).value[1..] == rest;
      SerialOf(b, pos);
    }
  }

  lemma SerialOf(b: seq<Byte>, pos: nat)
    requires pos < |b| && pos + 1 + b[pos] <= |b|
    ensures b[pos..] == SerialBytes(b[pos + 1..pos + 1 + b[pos]]) + b[pos + 1 + b[pos]..]
  {
    LeOne(b[pos]);
  }

  /** Exactly the encodable payloads come back from their bytes, whatever follows them, and a
      buffer parses only if it begins with the bytes of the payload it parses to. */
  lemma ParsesExactlyItsBytes(b: seq<Byte>, p: Payload)
    ensures ReadPayload(b) == Ok(p) <==> Encodable(p) && PayloadBytes(p) <= b
  {
    hide ReadPayload, PayloadBytes, Encodable;
    if ReadPayload(b) == Ok(p) {
      BytesOfParsed(b);
    }
    if Encodable(p) && PayloadBytes(p) <= b {
      assert b == PayloadBytes(p) + b[|PayloadBytes(p)|..];
      ParsePrinted(p, b[|PayloadBytes(p)|..]);
    }
  }

  lemma ParsePrinted(p: Payload, rest: seq<Byte>)
    requires Encodable(p)
    ensures ReadPayload(PayloadBytes(p) + rest) == Ok(p)
  {
    hide Le, FromLe, Utf8, SerialsBytes, ReadSerials, SerialsFit;
    var b := PayloadBytes(p) + rest;
    Widths();
    LeRoundTrip(p.major, 4);
    LeRoundTrip(AsU64(p.purchased), 8);
    LeRoundTrip(|p.email|, 2);
    LeOne(|p.serials|);
    var head := HeadBytes(p);
    var tail := Le(|p.email|, 2) + p.email + Le(|p.serials|, 1) + SerialsBytes(p.serials) + rest;
    assert b == head + tail;
    HeadParts(p, tail);
    assert b[34..] == tail;
    assert b[34..36] == tail[..2] == Le(|p.email|, 2);
    var end := 36 + |p.email|;
    assert b[36..end] == tail[2..2 + |p.email|] == p.email && b[end] == tail[2 + |p.email|] == |p.serials|;
    assert b[end + 1..] == SerialsBytes(p.serials) + rest;
    ReadSerialsBytes(b, end + 1, p.serials);
  }

  // ---- buffers that are refused ----

  /** The first field that is wrong decides the error. */
  lemma FirstWrongField(b: seq<Byte>)
    ensures |b| >= 4 && b[..4] != MAGIC ==> ReadPayload(b) == Err(BadMagic(b[..4]))
    ensures |b| >= 5 && b[..4] == MAGIC && b[4] != 1 ==> ReadPayload(b) == Err(PayloadVersion(b[4]))
    ensures |b| >= 6 && b[..4] == MAGIC && b[4] == 1 && b[5] > 3 ==> ReadPayload(b) == Err(UnknownLicenseType(b[5]))
  {
    hide Utf8, FromLe, ReadSerials;
  }

  /** Every proper prefix of a written payload is reported as truncated. */
  lemma PrefixIsTruncated(p: Payload, k: nat)
    requires Encodable(p) && k < |PayloadBytes(p)|
    ensures ReadPayload(PayloadBytes(p)[..k]) == Err(Truncated)
  {
    hide Le, FromLe, Utf8, SerialsBytes, ReadSerials, SerialsFit, HeadBytes;
    var full := PayloadBytes(p);
    var b := full[..k];
    var end := 36 + |p.email|;
    WrittenParts(p);
    if k >= 4 {
      assert b[..4] == full[..4];
    }
    if k >= 36 {
      assert b[34..36] == full[34..36];
      if k >= end {
        assert b[36..end] == full[36..end];
      }
      if k > end {
        SerialsCutShort(b, end + 1, full, p.serials);
      }
    }
  }

  lemma WrittenParts(p: Payload)
    requires Encodable(p)
    ensures var b := PayloadBytes(p);
            var end := 36 + |p.email|;
            && |b| >= end + 1 && b[..4] == MAGIC && b[4] == PAYLOAD_VERSION && b[5] == p.tier.Code()
            && FromLe(b[34..36]) == |p.email| && b[36..end] == p.email && b[end] == |p.serials|
            && b[end + 1..] == SerialsBytes(p.serials)
  {
    hide Le, FromLe, Utf8, SerialsBytes, SerialsFit;
    Widths();
    LeRoundTrip(|p.email|, 2);
    LeOne(|p.serials|);
    var b, end := PayloadBytes(p), 36 + |p.email|;
    var tail := Le(|p.email|, 2) + p.email + Le(|p.serials|, 1) + SerialsBytes(p.serials);
    assert b == HeadBytes(p) + tail;
    HeadParts(p, tail);
    assert b[34..] == tail;
    assert b[34..36] == tail[..2] == Le(|p.email|, 2);
    assert b[36..end] == tail[2..2 + |p.email|] == p.email && b[end] == tail[2 + |p.email|] == |p.serials|;
    assert b[end + 1..] == tail[3 + |p.email|..] == SerialsBytes(p.serials);
  }

  lemma {:induction false} SerialsCutShort(b: seq<Byte>, pos: nat, full: seq<Byte>, serials: seq<seq<Byte>>)
    requires SerialsFit(serials) && pos <= |b| < |full| && b == full[..|b|] && full[pos..] == SerialsBytes(serials)
    ensures ReadSerials(b, pos, |serials|) == Err(Truncated)
    decreases |serials|
  {
    hide SerialBytes, Ascii;
    assert |SerialsBytes(serials)| > 0;
    var s := serials[0];
    assert s in serials;
    SerialAt(full, pos, s, SerialsBytes(serials[1..]));
    var next := pos + 1 + |s|;
    SerialOf(full, pos);
    if next <= |b| {
      assert b[pos + 1..next] == full[pos + 1..next] == s;
      assert SerialBytes(s) + full[next..] == SerialBytes(s) + SerialsBytes(serials[1..]);
      assert full[next..] == SerialsBytes(serials[1..]);
      SerialsCutShort(b, next, full, serials[1..]);
    }
  }

  lemma HeadParts(p: Payload, tail: seq<Byte>)
    ensures var b := HeadBytes(p) + tail;
            && b[..4] == MAGIC && b[4] == PAYLOAD_VERSION && b[5] == p.tier.Code()
            && b[6..10] == Le(p.major, 4) && b[10..18] == Le(AsU64(p.purchased), 8) && b[18..34] == p.id
  {
    hide Le;
    var a := MAGIC + [PAYLOAD_VERSION] + [p.tier.Code()];
    assert |a| == 6 && a[..4] == MAGIC && a[4] == PAYLOAD_VERSION && a[5] == p.tier.Code();
    var b := HeadBytes(p) + tail;
    assert b == a + (Le(p.major, 4) + (Le(AsU64(p.purchased), 8) + (p.id + tail)));
    assert b[..6] == a && b[..4] == b[..6][..4];
  }

  lemma HeadOf(b: seq<Byte>)
    requires |b| >= 34
    ensures b[..34] == b[..4] + [b[4]] + [b[5]] + b[6..10] + b[10..18] + b[18..34]
  {}

  lemma LeOne(n: nat)
    requires n <= 0xFF
    ensures Le(n, 1) == [n]
  {}

  lemma {:induction false} LeOfFromLe(s: seq<Byte>)
    ensures Le(FromLe(s), |s|) == s
  {
    if s != [] {
      LeOfFromLe(s[1..]);
      assert FromLe(s) == s[0] + 0x100 * FromLe(s[1..]);
      assert FromLe(s) % 0x100 == s[0] && FromLe(s) / 0x100 == FromLe(s[1..]);
    }
  }

  lemma BytesOfParsed(b: seq<Byte>)
    requires ReadPayload(b).Ok?
    ensures var p := ReadPayload(b).value; Encodable(p) && PayloadBytes(p) <= b
  {
    hide Le, FromLe, Utf8, SerialsBytes, ReadSerials, SerialsFit;
    var p := ReadPayload(b).value;
    var end := 36 + |p.email|;
    Widths();
    FromLeBound(b[34..36]);
    FixedWidths(b);
    LeOfFromLe(b[6..10]);
    LeOfFromLe(b[10..18]);
    LeOfFromLe(b[34..36]);
    SerialsBytesOfRead(b, end + 1, b[end]);
    LeOne(|p.serials|);
    HeadOf(b);
    assert HeadBytes(p) == b[..34];
    assert PayloadBytes(p) == b[..34] + b[34..36] + b[36..end] + [b[end]] + SerialsBytes(p.serials);
    assert b == b[..34] + b[34..36] + b[36..end] + [b[end]] + b[end + 1..];
  }

  /** Issue to purchase and back: a payload written, put in a key with a signature, respelled by
      the buyer and read again is the same payload with the same signature. */
  lemma LicenseRoundTrip(p: Payload, signature: seq<Byte>, typed: string)
    requires Encodable(p) && |PayloadBytes(p)| < 0x1_0000 && signature != []
    requires Respelled(KeyOf(PayloadBytes(p), signature), typed)
    ensures Decoded(typed) == Ok((PayloadBytes(p), signature))
    ensures ReadPayload(PayloadBytes(p)) == Ok(p)
  {
    hide Respelled, Decoded, ReadPayload, KeyOf, Encodable, PayloadBytes;
    KeyRoundTrip(PayloadBytes(p), signature, typed);
    ParsesExactlyItsBytes(PayloadBytes(p), p);
  }
}
