/** UTF-8 text as bytes: the invariant of the original's strings, and the facts about
    cutting and joining text at ASCII characters that the path operations rely on. */
module Texts {
  import opened Bytes

  predicate Continuation(b: Byte) {
    0x80 <= b < 0xC0
  }

  /** Length of the well-formed character at the head of s, 0 if there is none
      (Unicode, table 3-7). */
  function CharLen(s: seq<Byte>): (n: nat)
    ensures n <= |s| && n <= 4
  {
    if |s| >= 1 && s[0] < 0x80 then 1
    else if |s| >= 2 && 0xC2 <= s[0] < 0xE0 && Continuation(s[1]) then 2
    else if |s| >= 3 && 0xE0 <= s[0] < 0xF0 && Continuation(s[1]) && Continuation(s[2])
            && (s[0] == 0xE0 ==> s[1] >= 0xA0) && (s[0] == 0xED ==> s[1] < 0xA0) then 3
    else if |s| >= 4 && 0xF0 <= s[0] < 0xF5 && Continuation(s[1]) && Continuation(s[2]) && Continuation(s[3])
            && (s[0] == 0xF0 ==> s[1] >= 0x90) && (s[0] == 0xF4 ==> s[1] < 0x90) then 4
    else 0
  }

  predicate Utf8(s: seq<Byte>) {
    s == [] || (CharLen(s) > 0 && Utf8(s[CharLen(s)..]))
  }

  type Text = s: seq<Byte> | Utf8(s) witness []

  /** Well-formed text can be joined, and dropping a well-formed prefix leaves well-formed text. */
  lemma {:induction false} Utf8Concat(a: seq<Byte>, b: seq<Byte>)
    requires Utf8(a)
    ensures Utf8(a + b) <==> Utf8(b)
  {
    if a == [] {
      assert a + b == b;
    } else {
      var n := CharLen(a);
      assert CharLen(a + b) == n;
      assert (a + b)[n..] == a[n..] + b;
      Utf8Concat(a[n..], b);
    }
  }

  /** An ASCII byte is never inside a longer character, so text can be cut around it. */
  lemma {:induction false} Utf8Cut(a: seq<Byte>, c: Byte, b: seq<Byte>)
    requires c < 0x80 && Utf8(a + [c] + b)
    ensures Utf8(a) && Utf8(b)
  {
    var s := a + [c] + b;
    if a == [] {
      assert s[1..] == b;
    } else {
      var n := CharLen(s);
      assert s[0] == a[0];
      assert n <= |a| by {
        assert s[|a|] == c;
      }
      assert CharLen(a) == n;
      assert s[n..] == a[n..] + [c] + b;
      Utf8Cut(a[n..], c, b);
    }
  }
}
