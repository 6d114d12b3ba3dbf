/** The fixed-width label fields of the key slot. */
module Labels {
  import opened Bytes
  import opened Texts
  import opened Octets

  const LABEL_LEN: nat := 48

  /** `str::is_char_boundary`. */
  predicate Boundary(s: Text, n: nat)
    requires n <= |s|
  {
    n == 0 || n == |s| || !Continuation(s[n])
  }

  /** Length of the longest run of whole characters at the head of s that fits in n bytes. */
  function FitLen(s: Text, n: nat): (k: nat)
    ensures k <= n && k <= |s| && Utf8(s[..k])
    decreases |s|
  {
    if s == [] || CharLen(s) > n then 0
    else
      var c := CharLen(s);
      var k := c + FitLen(s[c..], n - c);
      assert s[..k][c..] == s[c..][..k - c];
      assert CharLen(s[..k]) == c;
      k
  }

  /** The first character ends at the first boundary after 0, and later boundaries are those of the rest. */
  lemma HeadBoundary(s: Text)
    requires s != []
    ensures 0 < CharLen(s) <= |s|
    ensures forall j :: 0 < j < CharLen(s) ==> !Boundary(s, j)
    ensures forall j :: 0 <= j <= |s| - CharLen(s) ==> (Boundary(s[CharLen(s)..], j) <==> Boundary(s, j + CharLen(s)))
  {
    var c := CharLen(s);
    var rest := s[c..];
    assert forall j :: 0 < j < |rest| ==> rest[j] == s[j + c];
    if rest != [] {
      assert Utf8(rest) && s[c] == rest[0];
    }
  }

  /** Characters begin exactly at the bytes that are not continuation bytes, so the last
      boundary at or before `limit` ends the longest run of whole characters that fits. */
  lemma {:induction false} LastBoundary(s: Text, limit: nat, n: nat)
    requires n <= limit <= |s| && Boundary(s, n)
    requires forall j :: n < j <= limit ==> !Boundary(s, j)
    ensures n == FitLen(s, limit)
    decreases |s|
  {
    hide CharLen, Boundary;
    if s != [] {
      HeadBoundary(s);
      var c := CharLen(s);
      var rest := s[c..];
      assert Boundary(rest, 0) && Boundary(s, 0 + c) by {
        BoundaryAtZero(rest);
      }
      if c <= limit {
        assert n >= c;
        assert Boundary(s, (n - c) + c);
        forall j | n - c < j <= limit - c
          ensures !Boundary(rest, j)
        {
          assert !Boundary(s, j + c);
        }
        LastBoundary(rest, limit - c, n - c);
      } else {
        assert n == 0;
      }
    }
  }

  lemma BoundaryAtZero(s: Text)
    ensures Boundary(s, 0)
  {}

  function Cut(name: Text): (t: Text)
    ensures |t| <= LABEL_LEN
  {
    name[..FitLen(name, LABEL_LEN)]
  }

  function LabelField(name: Text): (f: seq<Byte>)
    ensures |f| == LABEL_LEN
  {
    Cut(name) + Zeros(LABEL_LEN - |Cut(name)|)
  }

  /** Writes a label into its field: truncated on a character boundary and zero-padded. */
  method EncodeLabel(name: Text, out: array<Octet>, off: nat)
    requires off + LABEL_LEN <= out.Length
    modifies out
    ensures out[..] == Patch(old(out[..]), off, Lift(LabelField(name)))
  {
    hide FitLen, CharLen, Patch, Lift;
    ghost var was := out[..];
    CopyInto(out, off, Lift(Zeros(LABEL_LEN)));
    var limit := Min(|name|, LABEL_LEN);
    var n := limit;
    while n > 0 && !Boundary(name, n)
      invariant 0 <= n <= limit
      invariant forall j :: n < j <= limit ==> !Boundary(name, j)
    {
      n := n - 1;
    }
    LastBoundary(name, limit, n);
    FitWithin(name, LABEL_LEN);
    CopyInto(out, off, Lift(name[..n]));
    OverZeros(was, off, name[..n]);
  }

  lemma OverZeros(s: seq<Octet>, off: nat, a: seq<Byte>)
    requires off + LABEL_LEN <= |s| && |a| <= LABEL_LEN
    ensures Patch(Patch(s, off, Lift(Zeros(LABEL_LEN))), off, Lift(a))
         == Patch(s, off, Lift(a + Zeros(LABEL_LEN - |a|)))
  {}

  lemma {:induction false} FitWithin(s: Text, n: nat)
    ensures FitLen(s, Min(|s|, n)) == FitLen(s, n)
    decreases |s|
  {
    hide CharLen;
    if s != [] && CharLen(s) <= n {
      var c := CharLen(s);
      FitWithin(s[c..], n - c);
    }
  }

  // ---- reading a label back ----

  function UpToNul(s: seq<Byte>): (t: seq<Byte>)
    ensures t <= s
  {
    if s == [] || s[0] == 0 then [] else [s[0]] + UpToNul(s[1..])
  }

  /** Bytes of an ill-formed character replaced together when decoding lossily
      (Unicode, section 3.9, substitution of maximal subparts). */
  function SubpartLen(s: seq<Byte>): (n: nat)
    requires s != []
    ensures 1 <= n <= |s|
  {
    if |s| >= 2 && Continuation(s[1]) && LeadsWith(s[0], s[1]) then
      if |s| >= 3 && s[0] >= 0xF0 && Continuation(s[2]) then 3 else 2
    else 1
  }

  predicate LeadsWith(lead: Byte, second: Byte) {
    || (0xE0 <= lead < 0xF0 && (lead == 0xE0 ==> second >= 0xA0) && (lead == 0xED ==> second < 0xA0))
    || (0xF0 <= lead < 0xF5 && (lead == 0xF0 ==> second >= 0x90) && (lead == 0xF4 ==> second < 0x90))
  }

  const REPLACEMENT: seq<Byte> := [0xEF, 0xBF, 0xBD]

  /** `String::from_utf8_lossy`. */
  function Lossy(s: seq<Byte>): (t: seq<Byte>)
    decreases |s|
  {
    if s == [] then []
    else if CharLen(s) > 0 then s[..CharLen(s)] + Lossy(s[CharLen(s)..])
    else REPLACEMENT + Lossy(s[SubpartLen(s)..])
  }

  lemma {:induction false} LossyKeepsText(s: seq<Byte>)
    requires Utf8(s)
    ensures Lossy(s) == s
    decreases |s|
  {
    if s != [] {
      LossyKeepsText(s[CharLen(s)..]);
      assert s == s[..CharLen(s)] + s[CharLen(s)..];
    }
  }

  /** What is shown is text, whatever the bytes. */
  lemma {:induction false} LossyIsText(s: seq<Byte>)
    ensures Utf8(Lossy(s))
    decreases |s|
  {
    if s != [] {
      var n := CharLen(s);
      if n > 0 {
        LossyIsText(s[n..]);
        assert CharLen(s[..n]) == n && s[..n][n..] == [];
        Utf8Concat(s[..n], Lossy(s[n..]));
      } else {
        LossyIsText(s[SubpartLen(s)..]);
        assert REPLACEMENT[3..] == [];
        Utf8Concat(REPLACEMENT, Lossy(s[SubpartLen(s)..]));
      }
    }
  }

  function ReadLabel(field: seq<Byte>): seq<Byte> {
    Lossy(UpToNul(field))
  }

  method DecodeLabel(field: seq<Byte>) returns (name: seq<Byte>)
    ensures name == ReadLabel(field)
  {
    var end := 0;
    while end < |field| && field[end] != 0
      invariant 0 <= end <= |field|
      invariant 0 !in field[..end]
    {
      end := end + 1;
    }
    UpToNulIs(field, end);
    return Lossy(field[..end]);
  }

  lemma {:induction false} UpToNulIs(s: seq<Byte>, n: nat)
    requires n <= |s| && 0 !in s[..n]
    requires n < |s| ==> s[n] == 0
    ensures UpToNul(s) == s[..n]
  {
    if n > 0 {
      assert s[..n][0] == s[0];
      assert s[1..][..n - 1] == s[..n][1..];
      UpToNulIs(s[1..], n - 1);
    }
  }

  /** What a stored label reads back as: the whole characters that fit, up to the first NUL. */
  function Shown(name: Text): seq<Byte> {
    UpToNul(Cut(name))
  }

  lemma {:induction false} UpToNulPrefix(a: seq<Byte>, b: seq<Byte>)
    requires b == [] || b[0] == 0
    ensures UpToNul(a + b) == UpToNul(a)
  {
    if a == [] {
      assert a + b == b;
    } else {
      assert (a + b)[1..] == a[1..] + b;
      UpToNulPrefix(a[1..], b);
    }
  }

  lemma {:induction false} UpToNulStops(s: seq<Byte>)
    ensures UpToNul(s) == s <==> 0 !in s
    ensures |UpToNul(s)| < |s| ==> s[|UpToNul(s)|] == 0
  {
    if s != [] && s[0] != 0 {
      UpToNulStops(s[1..]);
      assert s == [s[0]] + s[1..];
    }
  }

  /** A label field reads back as the label itself exactly when the label fits and has no NUL. */
  lemma LabelRoundTrip(name: Text)
    ensures ReadLabel(LabelField(name)) == Shown(name)
    ensures Utf8(Shown(name)) && |Shown(name)| <= LABEL_LEN
    ensures Shown(name) == name <==> |name| <= LABEL_LEN && 0 !in name
  {
    hide UpToNul, Lossy, FitLen, CharLen;
    var cut := Cut(name);
    UpToNulPrefix(cut, Zeros(LABEL_LEN - |cut|));
    var shown := UpToNul(cut);
    UpToNulStops(cut);
    if shown != cut {
      assert cut == shown + [0] + cut[|shown| + 1..];
      Utf8Cut(shown, 0, cut[|shown| + 1..]);
    }
    LossyKeepsText(shown);
    WholeFits(name, LABEL_LEN);
  }

  lemma {:induction false} WholeFits(s: Text, n: nat)
    ensures |s| <= n <==> FitLen(s, n) == |s|
    decreases |s|
  {
    if s != [] && CharLen(s) <= n {
      WholeFits(s[CharLen(s)..], n - CharLen(s));
    }
  }
}
