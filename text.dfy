/**
 * PHP strings are byte strings: `strlen`, `substr` and `str_split` count
 * bytes, and the literals of the bot's source file are UTF-8 encoded.
 * This module gives the byte type, the UTF-8 encoding used to write those
 * literals, and the two library functions the bot relies on: `implode`
 * and `str_split`.
 */
module Text {

  newtype byte = b: int | 0 <= b < 256

  type Bytes = seq<byte>

  /** UTF-8 encoding of one Unicode scalar value. */
  function EncodeChar(c: char): (r: Bytes)
    ensures 1 <= |r| <= 4
    ensures |r| == 1 <==> c as int < 0x80
    ensures |r| == 1 ==> r[0] as int == c as int
  {
    var v := c as int;
    if v < 0x80 then
      [v as byte]
    else if v < 0x800 then
      [(0xC0 + v / 0x40) as byte, (0x80 + v % 0x40) as byte]
    else if v < 0x1_0000 then
      [(0xE0 + v / 0x1000) as byte, (0x80 + v / 0x40 % 0x40) as byte, (0x80 + v % 0x40) as byte]
    else
      [(0xF0 + v / 0x4_0000) as byte, (0x80 + v / 0x1000 % 0x40) as byte,
       (0x80 + v / 0x40 % 0x40) as byte, (0x80 + v % 0x40) as byte]
  }

  predicate IsAscii(s: string) {
    forall i :: 0 <= i < |s| ==> s[i] as int < 0x80
  }

  /**
   * The bytes of an ASCII literal: byte for byte its UTF-8 encoding.
   * Literals with other characters are written as `Ascii` pieces joined
   * with `EncodeChar` of each non-ASCII character.
   */
  function Ascii(s: string): (r: Bytes)
    requires IsAscii(s)
    ensures |r| == |s|
    ensures forall i :: 0 <= i < |s| ==> r[i] as int == s[i] as int
  {
    seq(|s|, i requires 0 <= i < |s| => s[i] as int as byte)
  }

  const NEWLINE: Bytes := Ascii("\n")

  /** Concatenation of all parts, in order. */
  function Flatten(parts: seq<Bytes>): Bytes
  {
    if parts == [] then [] else parts[0] + Flatten(parts[1..])
  }

  /** `s` occurs in `t` starting at byte `k`. */
  predicate OccursAt(s: Bytes, t: Bytes, k: int) {
    0 <= k && k + |s| <= |t| && t[k..k + |s|] == s
  }

  /** `s` occurs in `t` as a contiguous block of bytes. */
  ghost predicate IsInfix(s: Bytes, t: Bytes) {
    exists k :: OccursAt(s, t, k)
  }

  lemma InfixOfSelf(s: Bytes)
    ensures IsInfix(s, s)
  {
    assert s[0..|s|] == s;
    assert OccursAt(s, s, 0);
  }

  /** Surrounding text keeps an infix an infix. */
  lemma InfixWiden(s: Bytes, t: Bytes, before: Bytes, after: Bytes)
    requires IsInfix(s, t)
    ensures IsInfix(s, before + t + after)
  {
    var k :| OccursAt(s, t, k);
    var u := before + t + after;
    var k' := |before| + k;
    assert u[k'..k' + |s|] == s by {
      forall x | 0 <= x < |s| ensures u[k' + x] == s[x] {
        assert u[k' + x] == t[k + x];
        assert t[k..k + |s|][x] == t[k + x];
      }
    }
    assert OccursAt(s, u, k');
  }

  /** PHP `implode(sep, parts)`. */
  function Join(sep: Bytes, parts: seq<Bytes>): Bytes
  {
    if |parts| == 0 then []
    else if |parts| == 1 then parts[0]
    else parts[0] + sep + Join(sep, parts[1..])
  }

  /** Every part survives `implode`. */
  lemma {:induction false} JoinHasPart(sep: Bytes, parts: seq<Bytes>, i: nat)
    requires i < |parts|
    ensures IsInfix(parts[i], Join(sep, parts))
  {
    if |parts| == 1 {
      InfixOfSelf(parts[0]);
    } else if i == 0 {
      InfixOfSelf(parts[0]);
      InfixWiden(parts[0], parts[0], [], sep + Join(sep, parts[1..]));
      assert [] + parts[0] + (sep + Join(sep, parts[1..])) == Join(sep, parts);
    } else {
      JoinHasPart(sep, parts[1..], i - 1);
      InfixWiden(parts[i], Join(sep, parts[1..]), parts[0] + sep, []);
      assert parts[0] + sep + Join(sep, parts[1..]) + [] == Join(sep, parts);
    }
  }

  /**
   * PHP `str_split(s, n)`: consecutive pieces of `n` bytes, the last one
   * possibly shorter; the empty string gives no pieces (PHP 8.2 and later).
   */
  function StrSplit(s: Bytes, n: nat): seq<Bytes>
    requires 0 < n
    decreases |s|
  {
    if s == [] then []
    else if |s| <= n then [s]
    else [s[..n]] + StrSplit(s[n..], n)
  }

  /** Joining the pieces gives the original string back. */
  lemma {:induction false} StrSplitFlatten(s: Bytes, n: nat)
    requires 0 < n
    ensures Flatten(StrSplit(s, n)) == s
    decreases |s|
  {
    if s == [] {
    } else if |s| <= n {
      assert Flatten([s]) == s + Flatten([]);
    } else {
      StrSplitFlatten(s[n..], n);
      var parts := [s[..n]] + StrSplit(s[n..], n);
      assert parts[1..] == StrSplit(s[n..], n);
      assert s[..n] + s[n..] == s;
    }
  }

  /** Every piece is non-empty and at most `n` bytes; all but the last are exactly `n`. */
  lemma {:induction false} StrSplitSizes(s: Bytes, n: nat)
    requires 0 < n
    ensures forall i :: 0 <= i < |StrSplit(s, n)| ==>
      0 < |StrSplit(s, n)[i]| <= n && (i < |StrSplit(s, n)| - 1 ==> |StrSplit(s, n)[i]| == n)
    decreases |s|
  {
    if |s| > n {
      StrSplitSizes(s[n..], n);
      var parts := StrSplit(s, n);
      assert parts == [s[..n]] + StrSplit(s[n..], n);
      forall i | 0 < i < |parts| ensures parts[i] == StrSplit(s[n..], n)[i - 1] { }
    }
  }

  /** A string of length L gives ceil(L / n) pieces: the pieces hold at least L bytes and less than L + n. */
  lemma {:induction false} StrSplitCount(s: Bytes, n: nat)
    requires 0 < n
    ensures |s| <= |StrSplit(s, n)| * n < |s| + n
    decreases |s|
  {
    if |s| > n {
      StrSplitCount(s[n..], n);
      var p := |StrSplit(s[n..], n)|;
      assert |StrSplit(s, n)| == p + 1;
      assert (p + 1) * n == p * n + n;
    }
  }

  lemma AppendAssoc<T>(a: seq<T>, b: seq<T>, c: seq<T>)
    ensures a + (b + c) == a + b + c
  {
  }

  lemma DropLast<T>(s: seq<T>)
    requires s != []
    ensures s[..|s| - 1] + [s[|s| - 1]] == s
  {
  }

  lemma TakeAll<T>(s: seq<T>)
    ensures s[..|s|] == s
  {
  }

  lemma AppendEmpty<T>(s: seq<T>)
    ensures s + [] == s
  {
  }
}
