/** Crockford base32 through a 32-bit shift buffer (crates/farewell_license/src/key.rs). */
module Base32 {
  import opened Bytes

  type Digit = x: int | 0 <= x < 32

  const WORD: int := 0x1_0000_0000

  // ---- positional values ----

  function Pow2(n: nat): (p: nat)
    ensures p > 0
  {
    if n == 0 then 1 else 2 * Pow2(n - 1)
  }

  function Val256(s: seq<Byte>): nat {
    if s == [] then 0 else 0x100 * Val256(s[..|s| - 1]) + s[|s| - 1]
  }

  function Val32(s: seq<Digit>): nat {
    if s == [] then 0 else 32 * Val32(s[..|s| - 1]) + s[|s| - 1]
  }

  /** The n lowest base-256 digits of v, most significant first. */
  function ToBytes(v: nat, n: nat): (s: seq<Byte>)
    ensures |s| == n
  {
    if n == 0 then [] else ToBytes(v / 0x100, n - 1) + [v % 0x100]
  }

  function ToDigits(v: nat, n: nat): (s: seq<Digit>)
    ensures |s| == n
  {
    if n == 0 then [] else ToDigits(v / 32, n - 1) + [v % 32]
  }

  lemma {:induction false} BytesOfValue(s: seq<Byte>)
    ensures ToBytes(Val256(s), |s|) == s
  {
    if s != [] {
      BytesOfValue(s[..|s| - 1]);
    }
  }

  lemma {:induction false} DigitsOfValue(s: seq<Digit>)
    ensures ToDigits(Val32(s), |s|) == s
  {
    if s != [] {
      DigitsOfValue(s[..|s| - 1]);
    }
  }

  lemma {:induction false} Val256Bound(s: seq<Byte>)
    ensures Val256(s) < Pow2(8 * |s|)
  {
    if s != [] {
      var rest := s[..|s| - 1];
      Val256Bound(rest);
      Pow2Times(8 * |rest|, 8);
      SmallPowers();
    }
  }

  lemma {:induction false} ValueOfDigits(v: nat, n: nat)
    requires v < Pow2(5 * n)
    ensures Val32(ToDigits(v, n)) == v
  {
    if n > 0 {
      Pow2Times(5 * (n - 1), 5);
      SmallPowers();
      ValueOfDigits(v / 32, n - 1);
      assert ToDigits(v, n)[..n - 1] == ToDigits(v / 32, n - 1);
    }
  }

  lemma {:induction false} Pow2Times(a: nat, b: nat)
    ensures Pow2(a + b) == Pow2(a) * Pow2(b)
  {
    if b > 0 {
      Pow2Times(a, b - 1);
    }
  }

  lemma SmallPowers()
    ensures Pow2(0) == 1 && Pow2(1) == 2 && Pow2(2) == 4 && Pow2(3) == 8 && Pow2(4) == 16
    ensures Pow2(5) == 32 && Pow2(6) == 64 && Pow2(7) == 128 && Pow2(8) == 256 && Pow2(9) == 512
    ensures Pow2(10) == 1024 && Pow2(11) == 2048 && Pow2(12) == 4096
  {}

  // ---- the codec as numbers ----

  /** Number of digits for n bytes: eight bits each, rounded up to whole digits. */
  function DigitCount(n: nat): nat {
    (8 * n + 4) / 5
  }

  /** The bytes as one number, shifted left to fill the last digit. */
  function Pack(data: seq<Byte>): (ds: seq<Digit>)
    ensures |ds| == DigitCount(|data|)
  {
    ToDigits(Val256(data) * Pow2(5 * DigitCount(|data|) - 8 * |data|), DigitCount(|data|))
  }

  function Quotient(a: nat, c: nat): (q: nat)
    requires c > 0
    ensures q == a / c
  {
    a / c
  }

  /** The digits as one number, with the bits beyond the last whole byte dropped. */
  function Unpack(ds: seq<Digit>): (s: seq<Byte>)
    ensures |s| == 5 * |ds| / 8
  {
    ToBytes(Quotient(Val32(ds), Pow2(5 * |ds| % 8)), 5 * |ds| / 8)
  }

  /** Exactly the encoded bytes come back: no padding byte is gained or lost. */
  lemma UnpackPack(data: seq<Byte>)
    ensures Unpack(Pack(data)) == data
  {
    hide Val256, Val32, Pow2, ToDigits, ToBytes;
    var n := |data|;
    var count := DigitCount(n);
    var pad := 5 * count - 8 * n;
    assert 0 <= pad < 5;
    Val256Bound(data);
    Pow2Times(8 * n, pad);
    TimesLess(Val256(data), Pow2(8 * n), Pow2(pad));
    ValueOfDigits(Val256(data) * Pow2(pad), count);
    assert 5 * count % 8 == pad && 5 * count / 8 == n;
    DivTimes(Val256(data), Pow2(pad));
    BytesOfValue(data);
  }

  lemma TimesLess(a: nat, b: nat, c: nat)
    requires a < b && c > 0
    ensures a * c < b * c
  {}

  lemma DivTimes(a: nat, c: nat)
    requires c > 0
    ensures a * c / c == a
  {
    DivUnique(a * c, c, a, 0);
  }

  /** Quotient and remainder are determined by x == q * c + r. */
  lemma DivUnique(x: int, c: int, q: int, r: int)
    requires c > 0 && x == q * c + r && 0 <= r < c
    ensures x / c == q && x % c == r
  {
    var d := x / c - q;
    var e := x % c - r;
    assert x == (x / c) * c + x % c;
    assert d * c == -e;
    if d > 0 {
      TimesAtLeast(d, c);
    } else if d < 0 {
      TimesAtLeast(-d, c);
    }
  }

  lemma TimesAtLeast(d: int, c: int)
    requires d >= 1 && c > 0
    ensures d * c >= c
  {}

  // ---- the alphabet ----

  const ALPHABET: string := "0123456789ABCDEFGHJKMNPQRSTVWXYZ"

  function Letter(d: Digit): char {
    ALPHABET[d]
  }

  function Spell(ds: seq<Digit>): (s: string)
    ensures |s| == |ds|
  {
    seq(|ds|, i requires 0 <= i < |ds| => Letter(ds[i]))
  }

  // ---- the shift buffer ----

  /** What the buffer still holds below the digits or bytes already taken. */
  predicate Pending(value: int, taken: int, buffer: int, bits: nat) {
    0 <= buffer < WORD && value == taken * Pow2(bits) + buffer % Pow2(bits)
  }

  lemma ModOfWord(x: nat, c: nat, rest: nat)
    requires c > 0 && rest * c == WORD
    ensures x % WORD % c == x % c
  {
    var t, m := x / WORD, x % WORD;
    var q, r := m / c, m % c;
    assert x == t * (rest * c) + q * c + r;
    assert t * (rest * c) + q * c == (t * rest + q) * c;
    DivUnique(x, c, t * rest + q, r);
  }

  lemma ScaledMod(x: nat, c: nat, step: nat)
    requires c > 0 && step > 0 && c * step > 0
    ensures x * step % (c * step) == x % c * step
  {
    var q, r := x / c, x % c;
    assert x * step == q * (c * step) + r * step by {
      assert x == q * c + r;
    }
    TimesLess(r, c, step);
    DivUnique(x * step, c * step, q, r * step);
  }

  lemma AddLow(y: nat, c: nat, step: nat, r: nat, d: nat)
    requires c > 0 && step > 0 && c * step > 0 && y % (c * step) == r * step && r < c && d < step
    ensures (y + d) % (c * step) == r * step + d
  {
    TimesMono(r + 1, c, step);
    assert (r + 1) * step == r * step + step;
    DivUnique(y + d, c * step, y / (c * step), r * step + d);
  }

  lemma TimesMono(a: nat, b: nat, c: nat)
    requires a <= b
    ensures a * c <= b * c
  {}

  /** A multiple of `step` below a multiple of `step` leaves room for a smaller addend. */
  lemma Room(m: nat, step: nat, rest: nat, d: nat)
    requires step > 0 && rest * step == WORD && m < WORD && m % step == 0 && d < step
    ensures m + d < WORD
  {
    var k := m / step;
    assert m == k * step;
    if k + 1 > rest {
      TimesMono(rest, k, step);
    } else {
      TimesMono(k + 1, rest, step);
      assert (k + 1) * step == k * step + step;
    }
  }

  /** Shifting d into a word: modulo low * step the word holds the old low part, shifted, and d. */
  lemma ShiftedIn(buffer: nat, low: nat, step: nat, d: nat, rest: nat)
    requires low > 0 && step > 0 && low * step > 0 && rest * (low * step) == WORD && d < step
    ensures buffer * step % WORD + d < WORD
    ensures (buffer * step % WORD + d) % (low * step) == buffer % low * step + d
  {
    var x := buffer * step;
    ModOfWord(x, low * step, rest);
    ScaledMod(buffer, low, step);
    AddLow(x % WORD, low, step, buffer % low, d);
    assert (rest * low) * step == WORD;
    ModOfWord(x, step, rest * low);
    DivUnique(x, step, buffer, 0);
    Room(x % WORD, step, rest * low, d);
  }

  /** The top part of the low bits, and what is left below it. */
  lemma SplitLow(buffer: nat, low: nat, step: nat)
    requires low > 0 && step > 0 && low * step > 0
    ensures buffer % (low * step) == buffer / low % step * low + buffer % low
  {
    QuotientAndRest(buffer, low);
    QuotientAndRest(buffer / low, step);
    SplitAt(buffer, low, step, buffer / low, buffer % low, buffer / low / step, buffer / low % step);
  }

  lemma QuotientAndRest(x: nat, c: nat)
    requires c > 0
    ensures x == x / c * c + x % c && 0 <= x % c < c && x / c >= 0
  {}

  lemma SplitAt(x: nat, low: nat, step: nat, q: nat, r: nat, p: nat, d: nat)
    requires x == q * low + r && q == p * step + d && r < low && d < step
    ensures low * step > 0 && x % (low * step) == d * low + r
  {
    TimesMono(d + 1, step, low);
    Expand(d, low);
    Regrouped(low, step, r, p, d);
    DivUnique(x, low * step, p, d * low + r);
  }

  lemma Expand(d: nat, low: nat)
    ensures (d + 1) * low == d * low + low && d * low >= 0
  {}

  lemma Regrouped(low: nat, step: nat, r: nat, p: nat, d: nat)
    ensures (p * step + d) * low + r == p * (low * step) + (d * low + r)
  {}

  /** `(buffer << 8) | b` and `(buffer << 5) | v` in 32 bits; the high bits that fall off were taken long ago. */
  lemma ShiftIn(value: int, taken: int, buffer: int, bits: nat, k: nat, d: nat)
    requires Pending(value, taken, buffer, bits) && bits + k <= 32 && d < Pow2(k)
    ensures Pending(Pow2(k) * value + d, taken, buffer * Pow2(k) % WORD + d, bits + k)
  {
    hide Pow2;
    var low, step := Pow2(bits), Pow2(k);
    Pow2Times(bits, k);
    Pow2Times(32 - bits - k, bits + k);
    WordIs();
    ShiftedIn(buffer, low, step, d, Pow2(32 - bits - k));
    Regroup(value, taken, low, step, buffer % low);
  }

  lemma Regroup(value: int, taken: int, low: int, step: int, r: int)
    requires value == taken * low + r
    ensures step * value == taken * (low * step) + r * step
  {}

  lemma Ungroup(taken: int, low: int, step: int, d: int, r: int)
    ensures taken * (low * step) + (d * low + r) == (step * taken + d) * low + r
  {}

  /** `(buffer >> bits) & mask` after `bits -= k`. */
  lemma TakeOut(value: int, taken: int, buffer: int, bits: nat, k: nat)
    requires Pending(value, taken, buffer, bits) && k <= bits
    ensures Pending(value, Pow2(k) * taken + buffer / Pow2(bits - k) % Pow2(k), buffer, bits - k)
  {
    hide Pow2;
    var low, step := Pow2(bits - k), Pow2(k);
    Pow2Times(bits - k, k);
    SplitLow(buffer, low, step);
    Ungroup(taken, low, step, buffer / low % step, buffer % low);
  }

  lemma WordIs()
    ensures Pow2(32) == WORD
  {
    SmallPowers();
    Pow2Times(8, 8);
    Pow2Times(16, 16);
  }

  /** `base32_encode`. */
  method Encode(data: seq<Byte>) returns (out: string)
    ensures out == Spell(Pack(data))
  {
    hide Pending, Pow2, Pack, Val256, Val32;
    out := "";
    ghost var ds: seq<Digit> := [];
    var buffer, bits := 0, 0;
    SmallPowers();
    EmptyBuffer(data);
    for i := 0 to |data|
      invariant out == Spell(ds) && 0 <= bits < 5 && 5 * |ds| + bits == 8 * i
      invariant Pending(Val256(data[..i]), Val32(ds), buffer, bits)
    {
      ShiftIn(Val256(data[..i]), Val32(ds), buffer, bits, 8, data[i]);
      OneMoreByte(data[..i], data[i]);
      assert data[..i + 1] == data[..i] + [data[i]];
      buffer := buffer * 0x100 % WORD + data[i];
      bits := bits + 8;
      while bits >= 5
        invariant out == Spell(ds) && 0 <= bits <= 12 && 5 * |ds| + bits == 8 * (i + 1)
        invariant Pending(Val256(data[..i + 1]), Val32(ds), buffer, bits)
      {
        TakeOut(Val256(data[..i + 1]), Val32(ds), buffer, bits, 5);
        bits := bits - 5;
        OneMoreDigit(ds, buffer / Pow2(bits) % 32);
        ds := ds + [buffer / Pow2(bits) % 32];
        out := out + [ALPHABET[buffer / Pow2(bits) % 32]];
      }
    }
    assert data[..|data|] == data;
    if bits > 0 {
      LastDigit(Val256(data), Val32(ds), buffer, bits);
      OneMoreDigit(ds, buffer * Pow2(5 - bits) % WORD % 32);
      ds := ds + [buffer * Pow2(5 - bits) % WORD % 32];
      out := out + [ALPHABET[buffer * Pow2(5 - bits) % WORD % 32]];
    } else {
      NothingPending(Val256(data), Val32(ds), buffer);
    }
    IsPacked(data, ds);
  }

  lemma IsPacked(data: seq<Byte>, out: seq<Digit>)
    requires 8 * |data| <= 5 * |out| < 8 * |data| + 5
    requires Val32(out) == Val256(data) * Pow2(5 * |out| - 8 * |data|)
    ensures out == Pack(data)
  {
    hide Val256, Val32, Pow2, ToDigits;
    assert |out| == DigitCount(|data|);
    assert 5 * DigitCount(|data|) - 8 * |data| == 5 * |out| - 8 * |data|;
    DigitsOfValue(out);
  }

  lemma EmptyBuffer(data: seq<Byte>)
    ensures Pending(Val256(data[..0]), Val32([]), 0, 0)
  {}

  lemma OneMoreByte(s: seq<Byte>, b: Byte)
    ensures Val256(s + [b]) == 0x100 * Val256(s) + b
  {
    assert (s + [b])[..|s|] == s;
  }

  lemma OneMoreDigit(s: seq<Digit>, d: Digit)
    ensures Val32(s + [d]) == 32 * Val32(s) + d
  {
    assert (s + [d])[..|s|] == s;
  }

  lemma NothingPending(value: int, taken: int, buffer: int)
    requires Pending(value, taken, buffer, 0)
    ensures value == taken && value * Pow2(0) == taken
  {}

  /** The last digit holds the remaining bits, left-aligned and zero-padded. */
  lemma LastDigit(value: int, taken: int, buffer: int, bits: nat)
    requires Pending(value, taken, buffer, bits) && 0 < bits < 5
    ensures 32 * taken + buffer * Pow2(5 - bits) % WORD % 32 == value * Pow2(5 - bits)
  {
    hide Pow2;
    var low, step := Pow2(bits), Pow2(5 - bits);
    SmallPowers();
    WordIs();
    Pow2Times(bits, 5 - bits);
    Pow2Times(27, 5);
    ShiftedIn(buffer, low, step, 0, Pow2(27));
    Regroup(value, taken, low, step, buffer % low);
  }

  /** The result of taking every whole byte. */
  lemma WholeBytes(ds: seq<Digit>, out: seq<Byte>, buffer: int, bits: nat)
    requires Pending(Val32(ds), Val256(out), buffer, bits) && bits < 8 && 8 * |out| + bits == 5 * |ds|
    ensures out == Unpack(ds)
  {
    assert 5 * |ds| % 8 == bits && 5 * |ds| / 8 == |out|;
    DivUnique(Val32(ds), Pow2(bits), Val256(out), buffer % Pow2(bits));
    BytesOfValue(out);
  }

  // ---- reading ----

  datatype Symbol = Skip | Valued(d: Digit) | Bad

  function Upper(c: char): char {
    if 'a' <= c <= 'z' then (c as int - 32) as char else c
  }

  /** `c.to_ascii_uppercase() as u8`: the cast keeps the low eight bits only. */
  function Narrow(c: char): Byte {
    Upper(c) as int % 0x100
  }

  /** Position of a byte in the alphabet, its length if absent. */
  function Position(table: string, b: Byte, from: nat): (p: int)
    requires from <= |table|
    ensures from <= p <= |table|
    decreases |table| - from
  {
    if from == |table| || table[from] as int == b then from else Position(table, b, from + 1)
  }

  lemma {:induction false} PositionIsFirst(table: string, b: Byte, from: nat, i: nat)
    requires from <= i < |table| && table[i] as int == b
    ensures Position(table, b, from) <= i
    ensures table[Position(table, b, from)] as int == b
    decreases |table| - from
  {
    if table[from] as int != b {
      PositionIsFirst(table, b, from + 1, i);
    }
  }

  predicate Separator(c: char) {
    c == '-' || c == ' ' || c == '\t' || c == '\n' || c == '\r'
  }

  predicate LikeZero(c: char) {
    c == '0' || c == 'o' || c == 'O'
  }

  predicate LikeOne(c: char) {
    c == '1' || c == 'i' || c == 'I' || c == 'l' || c == 'L'
  }

  function SymbolOf(c: char): Symbol {
    if Separator(c) then Skip
    else if LikeZero(c) then Valued(0)
    else if LikeOne(c) then Valued(1)
    else if Position(ALPHABET, Narrow(c), 0) < 32 then Valued(Position(ALPHABET, Narrow(c), 0))
    else Bad
  }

  datatype Reading = Digits(ds: seq<Digit>) | Unreadable

  /** The digits a text stands for, unless some character is no symbol. */
  function Read(s: string): Reading {
    if s == [] then Digits([])
    else
      match Read(s[..|s| - 1])
      case Unreadable => Unreadable
      case Digits(ds) =>
        match SymbolOf(s[|s| - 1])
        case Skip => Digits(ds)
        case Valued(d) => Digits(ds + [d])
        case Bad => Unreadable
  }

  lemma {:induction false} ReadConcat(a: string, b: string)
    ensures Read(a + b) ==
            if Read(a).Digits? && Read(b).Digits? then Digits(Read(a).ds + Read(b).ds) else Unreadable
    decreases |b|
  {
    hide SymbolOf;
    if b == [] {
      assert a + b == a;
    } else {
      assert (a + b)[..|a + b| - 1] == a + b[..|b| - 1];
      ReadConcat(a, b[..|b| - 1]);
    }
  }

  /** `base32_decode`. */
  method Decode(s: string) returns (ok: bool, out: seq<Byte>)
    ensures ok <==> Read(s).Digits?
    ensures ok ==> out == Unpack(Read(s).ds)
  {
    hide Pending, Pow2, Unpack, Val256, Val32, SymbolOf;
    out := [];
    ghost var ds: seq<Digit> := [];
    var buffer, bits := 0, 0;
    SmallPowers();
    NothingRead();
    for i := 0 to |s|
      invariant Read(s[..i]) == Digits(ds)
      invariant 0 <= bits < 8 && 8 * |out| + bits == 5 * |ds|
      invariant Pending(Val32(ds), Val256(out), buffer, bits)
    {
      assert s[..i + 1][..i] == s[..i];
      var symbol := SymbolOf(s[i]);
      if symbol.Bad? {
        ReadConcat(s[..i + 1], s[i + 1..]);
        assert s == s[..i + 1] + s[i + 1..];
        return false, out;
      }
      if symbol.Valued? {
        ShiftIn(Val32(ds), Val256(out), buffer, bits, 5, symbol.d);
        OneMoreDigit(ds, symbol.d);
        ds := ds + [symbol.d];
        buffer := buffer * 32 % WORD + symbol.d;
        bits := bits + 5;
        if bits >= 8 {
          TakeOut(Val32(ds), Val256(out), buffer, bits, 8);
          bits := bits - 8;
          OneMoreByte(out, buffer / Pow2(bits) % 0x100);
          out := out + [buffer / Pow2(bits) % 0x100];
        }
      }
    }
    assert s[..|s|] == s;
    WholeBytes(ds, out, buffer, bits);
    return true, out;
  }

  lemma NothingRead()
    ensures Pending(Val32([]), Val256([]), 0, 0)
  {}

  /** Encoded letters read as the digits they spell. */
  lemma {:induction false} ReadSpelled(ds: seq<Digit>)
    ensures Read(Spell(ds)) == Digits(ds)
  {
    hide SymbolOf;
    if ds != [] {
      ReadSpelled(ds[..|ds| - 1]);
      assert Spell(ds)[..|ds| - 1] == Spell(ds[..|ds| - 1]);
      LetterReads(ds[|ds| - 1]);
    }
  }

  /** The letters in order: digits, then A to Z without I, L, O and U. */
  function LetterCode(d: Digit): int {
    if d < 10 then 48 + d
    else if d < 18 then 55 + d
    else if d < 20 then 56 + d
    else if d < 22 then 57 + d
    else if d < 27 then 58 + d
    else 59 + d
  }

  lemma LetterHasCode(d: Digit)
    ensures ALPHABET[d] as int == LetterCode(d)
  {}

  lemma PositionOfLetter(d: Digit)
    ensures Position(ALPHABET, LetterCode(d), 0) == d
  {
    hide Position;
    var p := Position(ALPHABET, LetterCode(d), 0);
    LetterHasCode(d);
    PositionIsFirst(ALPHABET, LetterCode(d), 0, d);
    LetterHasCode(p);
  }

  lemma LetterReads(d: Digit)
    ensures SymbolOf(Letter(d)) == Valued(d)
  {
    hide Position;
    LetterHasCode(d);
    PositionOfLetter(d);
    CodeReads(d, LetterCode(d) as char);
  }

  lemma CodeReads(d: Digit, c: char)
    requires c as int == LetterCode(d) && Position(ALPHABET, LetterCode(d), 0) == d
    ensures SymbolOf(c) == Valued(d)
  {
    hide Position;
  }

  // ---- respellings ----

  /** The code a reader hears in a character code: a capital for a small letter, 0 for the letter
      O, 1 for I and L. */
  function Heard(code: int): int {
    var capital := if 0x61 <= code <= 0x7A then code - 0x20 else code;
    if capital == 0x4F then 0x30 else if capital == 0x49 || capital == 0x4C then 0x31 else capital
  }

  /** Letters a reader may confuse or type in the other case. */
  predicate SameLetter(a: char, b: char) {
    Heard(a as int) == Heard(b as int)
  }

  /** Tab, line feed, carriage return, space and hyphen. */
  predicate Spacing(c: char) {
    c as int in {0x09, 0x0A, 0x0D, 0x20, 0x2D}
  }

  /** t is s with separators added or dropped, letters in either case, and O, I and L
      written for the digits they resemble, or the reverse. */
  predicate Respelled(s: string, t: string)
    decreases |s| + |t|
  {
    || (s == [] && t == [])
    || (s != [] && Spacing(s[|s| - 1]) && Respelled(s[..|s| - 1], t))
    || (t != [] && Spacing(t[|t| - 1]) && Respelled(s, t[..|t| - 1]))
    || (s != [] && t != [] && SameLetter(s[|s| - 1], t[|t| - 1]) && Respelled(s[..|s| - 1], t[..|t| - 1]))
  }

  lemma SameSymbol(a: char, b: char)
    requires SameLetter(a, b)
    ensures SymbolOf(a) == SymbolOf(b)
  {
    hide Position;
  }

  lemma {:induction false} RespelledReadsTheSame(s: string, t: string)
    requires Respelled(s, t)
    ensures Read(s) == Read(t)
    decreases |s| + |t|
  {
    hide SymbolOf, SameLetter;
    if s != [] && Spacing(s[|s| - 1]) && Respelled(s[..|s| - 1], t) {
      RespelledReadsTheSame(s[..|s| - 1], t);
      SeparatorSkips(s[|s| - 1]);
    } else if t != [] && Spacing(t[|t| - 1]) && Respelled(s, t[..|t| - 1]) {
      RespelledReadsTheSame(s, t[..|t| - 1]);
      SeparatorSkips(t[|t| - 1]);
    } else if s != [] && t != [] {
      RespelledReadsTheSame(s[..|s| - 1], t[..|t| - 1]);
      SameSymbol(s[|s| - 1], t[|t| - 1]);
    }
  }

  lemma SeparatorSkips(c: char)
    requires Spacing(c)
    ensures SymbolOf(c) == Skip
  {}

  /** The symbol a heard code stands for. */
  function CodeSymbol(code: int): Symbol {
    if 0x30 <= code <= 0x39 then Valued(code - 0x30)
    else if 0x41 <= code <= 0x48 then Valued(code - 0x41 + 10)
    else if 0x4A <= code <= 0x4B then Valued(code - 0x4A + 18)
    else if 0x4D <= code <= 0x4E then Valued(code - 0x4D + 20)
    else if 0x50 <= code <= 0x54 then Valued(code - 0x50 + 22)
    else if 0x56 <= code <= 0x5A then Valued(code - 0x56 + 27)
    else Bad
  }

  /** What each ASCII character stands for, by its code: the spacings nothing, the digits and the
      letters but U their values, and every other character is unreadable. */
  lemma SymbolByCode(c: char)
    requires c as int < 0x80
    ensures SymbolOf(c) == if Spacing(c) then Skip else CodeSymbol(Heard(c as int))
  {
    hide Position;
    var code := Heard(c as int);
    if CodeSymbol(code).Valued? && Narrow(c) == code {
      ValuesAreCodes(code);
      PositionOfLetter(CodeSymbol(code).d);
    } else if CodeSymbol(code).Bad? {
      NoLetter(code);
    }
  }

  lemma ValuesAreCodes(code: int)
    requires CodeSymbol(code).Valued?
    ensures LetterCode(CodeSymbol(code).d) == code
  {}

  lemma NoLetter(code: int)
    requires CodeSymbol(code).Bad? && 0 <= code < 0x100
    ensures Position(ALPHABET, code, 0) == 32
  {
    hide Position;
    var p := Position(ALPHABET, code, 0);
    PositionHolds(ALPHABET, code, 0);
    if p < 32 {
      LetterHasCode(p);
    }
  }

  lemma {:induction false} PositionHolds(table: string, b: Byte, from: nat)
    requires from <= |table|
    ensures var p := Position(table, b, from); p < |table| ==> table[p] as int == b
    decreases |table| - from
  {
    if from < |table| && table[from] as int != b {
      PositionHolds(table, b, from + 1);
    }
  }

  lemma {:induction false} RespelledAsIs(s: string)
    ensures Respelled(s, s)
  {
    if s != [] {
      RespelledAsIs(s[..|s| - 1]);
    }
  }
}
