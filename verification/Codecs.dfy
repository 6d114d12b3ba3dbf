/** Printing and parsing of length-prefixed lists, with the laws every field parser
    of the manifest obeys: it inverts its printer, it never looks past what it consumes,
    it consumes as much as its value takes to print, and at least its minimum record length. */
module Codecs {
  import opened Bytes
  import opened Wrappers

  datatype Parsed<+T> = Parsed(value: T, rest: seq<Byte>) | Rejected(error: FormatError)

  type Parser<!T> = seq<Byte> -> Parsed<T>
  type Printer<!T> = T -> seq<Byte>

  ghost predicate Inverts<T(!new)>(parse: Parser<T>, put: Printer<T>, fits: T -> bool) {
    forall x, rest :: fits(x) ==> parse(put(x) + rest) == Parsed(x, rest)
  }

  ghost predicate Local<T(!new)>(parse: Parser<T>) {
    forall s, t :: parse(s).Parsed? ==> parse(s + t) == Parsed(parse(s).value, parse(s).rest + t)
  }

  ghost predicate Consumes<T(!new)>(parse: Parser<T>, least: nat) {
    forall s :: parse(s).Parsed? ==> least + |parse(s).rest| <= |s|
  }

  ghost predicate Measures<T(!new)>(parse: Parser<T>, put: Printer<T>) {
    forall s :: parse(s).Parsed? ==> |put(parse(s).value)| + |parse(s).rest| == |s|
  }

  function PrintAll<T>(put: Printer<T>, xs: seq<T>): seq<Byte> {
    if xs == [] then [] else put(xs[0]) + PrintAll(put, xs[1..])
  }

  function ParseMany<T>(parse: Parser<T>, n: nat, s: seq<Byte>): (r: Parsed<seq<T>>)
    ensures r.Parsed? ==> |r.value| == n
  {
    if n == 0 then Parsed([], s)
    else
      match parse(s)
      case Rejected(e) => Rejected(e)
      case Parsed(x, rest) =>
        match ParseMany(parse, n - 1, rest)
        case Rejected(e) => Rejected(e)
        case Parsed(xs, rest') => Parsed([x] + xs, rest')
  }

  /** The outcome of a list parse whose first elements are already read. */
  function After<T>(xs: seq<T>, r: Parsed<seq<T>>): Parsed<seq<T>> {
    match r
    case Rejected(e) => Rejected(e)
    case Parsed(ys, rest) => Parsed(xs + ys, rest)
  }

  lemma AfterNothing<T>(r: Parsed<seq<T>>)
    ensures After([], r) == r
  {
    match r
    case Rejected(_) =>
    case Parsed(ys, _) => assert [] + ys == ys;
  }

  lemma AfterOne<T>(parse: Parser<T>, n: nat, s: seq<Byte>, xs: seq<T>)
    requires n > 0
    ensures After(xs, ParseMany(parse, n, s))
         == match parse(s)
            case Rejected(e) => Rejected(e)
            case Parsed(x, rest) => After(xs + [x], ParseMany(parse, n - 1, rest))
  {
    if parse(s).Parsed? {
      match ParseMany(parse, n - 1, parse(s).rest)
      case Rejected(_) =>
      case Parsed(ys, _) => assert xs + ([parse(s).value] + ys) == xs + [parse(s).value] + ys;
    }
  }

  lemma {:induction false} PrintAllSnoc<T>(put: Printer<T>, xs: seq<T>, x: T)
    ensures PrintAll(put, xs + [x]) == PrintAll(put, xs) + put(x)
  {
    if xs == [] {
      assert PrintAll(put, [x]) == put(x) + PrintAll(put, [x][1..]);
    } else {
      PrintAllSnoc(put, xs[1..], x);
      assert (xs + [x])[1..] == xs[1..] + [x];
    }
  }

  lemma {:induction false} PrintAllLength<T>(put: Printer<T>, least: nat, xs: seq<T>)
    requires forall x | x in xs :: least <= |put(x)|
    ensures least * |xs| <= |PrintAll(put, xs)|
  {
    if xs != [] {
      PrintAllLength(put, least, xs[1..]);
      assert least * |xs| == least * |xs[1..]| + least;
    }
  }

  lemma {:induction false} ParseManyInverts<T(!new)>(parse: Parser<T>, put: Printer<T>, fits: T -> bool,
                                                     xs: seq<T>, rest: seq<Byte>)
    requires Inverts(parse, put, fits)
    requires forall x | x in xs :: fits(x)
    ensures ParseMany(parse, |xs|, PrintAll(put, xs) + rest) == Parsed(xs, rest)
  {
    if xs != [] {
      var tail := PrintAll(put, xs[1..]) + rest;
      assert PrintAll(put, xs) + rest == put(xs[0]) + tail;
      assert fits(xs[0]);
      assert parse(put(xs[0]) + tail) == Parsed(xs[0], tail);
      ParseManyInverts(parse, put, fits, xs[1..], rest);
      assert [xs[0]] + xs[1..] == xs;
    } else {
      assert PrintAll(put, xs) + rest == rest;
    }
  }

  lemma {:induction false} ParseManyLocal<T(!new)>(parse: Parser<T>, n: nat, s: seq<Byte>, t: seq<Byte>)
    requires Local(parse)
    requires ParseMany(parse, n, s).Parsed?
    ensures ParseMany(parse, n, s + t) == Parsed(ParseMany(parse, n, s).value, ParseMany(parse, n, s).rest + t)
  {
    if n > 0 {
      assert parse(s + t) == Parsed(parse(s).value, parse(s).rest + t);
      ParseManyLocal(parse, n - 1, parse(s).rest, t);
    }
  }

  lemma {:induction false} ParseManyConsumes<T(!new)>(parse: Parser<T>, least: nat, n: nat, s: seq<Byte>)
    requires Consumes(parse, least)
    requires ParseMany(parse, n, s).Parsed?
    ensures least * n + |ParseMany(parse, n, s).rest| <= |s|
  {
    if n > 0 {
      ParseManyConsumes(parse, least, n - 1, parse(s).rest);
      assert least * n == least * (n - 1) + least;
    }
  }

  lemma {:induction false} ParseManyMeasures<T(!new)>(parse: Parser<T>, put: Printer<T>, n: nat, s: seq<Byte>)
    requires Measures(parse, put)
    requires ParseMany(parse, n, s).Parsed?
    ensures |PrintAll(put, ParseMany(parse, n, s).value)| + |ParseMany(parse, n, s).rest| == |s|
  {
    if n > 0 {
      var x, rest := parse(s).value, parse(s).rest;
      ParseManyMeasures(parse, put, n - 1, rest);
      var xs := ParseMany(parse, n - 1, rest).value;
      assert ([x] + xs)[1..] == xs;
    }
  }

  lemma {:induction false} ParseManyFits<T(!new)>(parse: Parser<T>, fits: T -> bool, n: nat, s: seq<Byte>)
    requires forall s' :: parse(s').Parsed? ==> fits(parse(s').value)
    requires ParseMany(parse, n, s).Parsed?
    ensures forall x | x in ParseMany(parse, n, s).value :: fits(x)
  {
    if n > 0 {
      ParseManyFits(parse, fits, n - 1, parse(s).rest);
    }
  }

  ghost predicate FindsMalformed<T(!new)>(parse: Parser<T>) {
    forall s :: parse(s).Rejected? ==> Malformed(parse(s).error)
  }

  lemma {:induction false} ParseManyFinds<T(!new)>(parse: Parser<T>, n: nat, s: seq<Byte>)
    requires FindsMalformed(parse)
    ensures ParseMany(parse, n, s).Rejected? ==> Malformed(ParseMany(parse, n, s).error)
  {
    if n > 0 && parse(s).Parsed? {
      ParseManyFinds(parse, n - 1, parse(s).rest);
    }
  }

  // ---- fixed-width fields ----

  function TakeBytes(n: nat, s: seq<Byte>): Parsed<seq<Byte>> {
    if n > |s| then Rejected(BadManifest("truncated")) else Parsed(s[..n], s[n..])
  }

  function TakeLe(width: nat, s: seq<Byte>): (r: Parsed<nat>)
    ensures r.Parsed? ==> r.value < Pow256(width)
  {
    match TakeBytes(width, s)
    case Rejected(e) => Rejected(e)
    case Parsed(b, rest) =>
      FromLeBound(b);
      Parsed(FromLe(b), rest)
  }

  lemma TakeBytesLaws(n: nat, b: seq<Byte>, s: seq<Byte>, t: seq<Byte>)
    ensures |b| == n ==> TakeBytes(n, b + s) == Parsed(b, s)
    ensures TakeBytes(n, s).Parsed? ==> TakeBytes(n, s + t) == Parsed(TakeBytes(n, s).value, TakeBytes(n, s).rest + t)
  {
    if |b| == n {
      assert (b + s)[..n] == b && (b + s)[n..] == s;
    }
    if n <= |s| {
      assert (s + t)[..n] == s[..n] && (s + t)[n..] == s[n..] + t;
    }
  }

  lemma TakeLeInverts(width: nat, n: nat, rest: seq<Byte>)
    requires n < Pow256(width)
    ensures TakeLe(width, Le(n, width) + rest) == Parsed(n, rest)
  {
    TakeBytesLaws(width, Le(n, width), rest, []);
    LeRoundTrip(n, width);
  }

  lemma TakeLeLocal(width: nat, s: seq<Byte>, t: seq<Byte>)
    requires TakeLe(width, s).Parsed?
    ensures TakeLe(width, s + t) == Parsed(TakeLe(width, s).value, TakeLe(width, s).rest + t)
    ensures |TakeLe(width, s).rest| + width == |s|
  {
    TakeBytesLaws(width, [], s, t);
  }
}
