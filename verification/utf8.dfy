/** Rust string slicing `&s[lo..hi]`: offsets count UTF-8 bytes, and the
    slice panics unless `lo <= hi`, `hi` is within the string, and both
    offsets fall on character boundaries. A Dafny `char` is a Unicode scalar
    value, so its UTF-8 width follows from its code point. */
module Utf8 {
  import opened Wrappers

  /** Number of bytes UTF-8 uses to encode `c`. */
  function Width(c: char): (w: nat)
    ensures 1 <= w <= 4
    ensures w == 1 <==> c as int < 0x80
  {
    if c as int < 0x80 then 1
    else if c as int < 0x800 then 2
    else if c as int < 0x1_0000 then 3
    else 4
  }

  /** Length of `s` in UTF-8 bytes (Rust's `str::len`). */
  function ByteLen(s: string): nat {
    if |s| == 0 then 0 else Width(s[0]) + ByteLen(s[1..])
  }

  /** Byte offset `off` lies between two characters of `s`, or at either end
      (Rust's `str::is_char_boundary`). */
  ghost predicate IsBoundary(s: string, off: nat) {
    exists i :: 0 <= i <= |s| && ByteLen(s[..i]) == off
  }

  /** `t` is the run of characters of `s` that starts at byte offset `lo`
      and ends at byte offset `hi`. */
  ghost predicate Between(s: string, lo: nat, hi: nat, t: string) {
    exists i, j :: 0 <= i <= j <= |s| && ByteLen(s[..i]) == lo && ByteLen(s[..j]) == hi && t == s[i..j]
  }

  predicate IsAscii(s: string) {
    forall i :: 0 <= i < |s| ==> s[i] as int < 0x80
  }

  lemma {:induction false} ByteLenConcat(a: string, b: string)
    ensures ByteLen(a + b) == ByteLen(a) + ByteLen(b)
    decreases |a|
  {
    if |a| == 0 {
      assert a + b == b;
    } else {
      assert (a + b)[1..] == a[1..] + b;
      ByteLenConcat(a[1..], b);
    }
  }

  /** Longer prefixes are strictly longer in bytes. */
  lemma PrefixStrictlyLonger(s: string, i: nat, j: nat)
    requires i < j <= |s|
    ensures ByteLen(s[..i]) < ByteLen(s[..j])
  {
    PrefixSplit(s, i, j);
  }

  /** Dropping the first character of `s` shifts every later boundary by its width. */
  lemma PrefixAfterFirst(s: string, i: nat)
    requires 0 < i <= |s|
    ensures ByteLen(s[..i]) == Width(s[0]) + ByteLen(s[1..][..i - 1])
  {
    assert s[..i][1..] == s[1..][..i - 1];
  }

  lemma BoundaryAfterFirst(s: string, off: nat)
    requires |s| > 0 && off > 0
    ensures IsBoundary(s, off) <==> off >= Width(s[0]) && IsBoundary(s[1..], off - Width(s[0]))
  {
    if IsBoundary(s, off) {
      var i :| 0 <= i <= |s| && ByteLen(s[..i]) == off;
      assert i > 0;
      PrefixAfterFirst(s, i);
      assert ByteLen(s[1..][..i - 1]) == off - Width(s[0]);
    }
    if off >= Width(s[0]) && IsBoundary(s[1..], off - Width(s[0])) {
      var i :| 0 <= i <= |s[1..]| && ByteLen(s[1..][..i]) == off - Width(s[0]);
      PrefixAfterFirst(s, i + 1);
      assert ByteLen(s[..i + 1]) == off;
    }
  }

  /** The character index at byte offset `off`, if `off` is a boundary. */
  function BoundaryIndex(s: string, off: nat): (r: Option<nat>)
    ensures r.Some? ==> r.value <= |s| && ByteLen(s[..r.value]) == off
    ensures r.None? ==> !IsBoundary(s, off)
    decreases |s|
  {
    if off == 0 then
      assert s[..0] == "";
      Some(0)
    else if |s| == 0 then
      None
    else
      BoundaryAfterFirst(s, off);
      if off < Width(s[0]) then None
      else match BoundaryIndex(s[1..], off - Width(s[0]))
        case Some(i) =>
          PrefixAfterFirst(s, i + 1);
          Some(i + 1)
        case None => None
  }

  /** Two boundaries in byte order are in character order, and the characters
      between them take up the bytes between them. */
  lemma SliceBetween(s: string, i: nat, j: nat)
    requires i <= |s| && j <= |s| && ByteLen(s[..i]) <= ByteLen(s[..j])
    ensures i <= j && ByteLen(s[..j]) <= ByteLen(s)
    ensures ByteLen(s[i..j]) == ByteLen(s[..j]) - ByteLen(s[..i])
  {
    if j < i {
      PrefixStrictlyLonger(s, j, i);
    }
    PrefixWithin(s, j);
    PrefixSplit(s, i, j);
  }

  lemma PrefixWithin(s: string, j: nat)
    requires j <= |s|
    ensures ByteLen(s[..j]) <= ByteLen(s)
  {
    assert s[..|s|] == s;
    if j < |s| {
      PrefixStrictlyLonger(s, j, |s|);
    }
  }

  lemma PrefixSplit(s: string, i: nat, j: nat)
    requires i <= j <= |s|
    ensures ByteLen(s[..j]) == ByteLen(s[..i]) + ByteLen(s[i..j])
  {
    assert s[..j] == s[..i] + s[i..j];
    ByteLenConcat(s[..i], s[i..j]);
  }

  /** Rust's `&s[lo..hi]`: `None` where Rust panics. */
  function Slice(s: string, lo: nat, hi: nat): (r: Option<string>)
    ensures r.Some? <==> lo <= hi && IsBoundary(s, lo) && IsBoundary(s, hi)
    ensures r.Some? ==> hi <= ByteLen(s) && ByteLen(r.value) == hi - lo
    ensures r.Some? ==> Between(s, lo, hi, r.value)
  {
    if lo > hi then None
    else match (BoundaryIndex(s, lo), BoundaryIndex(s, hi))
      case (Some(i), Some(j)) =>
        SliceBetween(s, i, j);
        Some(s[i..j])
      case _ => None
  }

  /** Byte offsets name at most one character position, so `Between` pins
      down the slice: together with its contract, `Slice` has one possible
      result. */
  lemma BetweenUnique(s: string, lo: nat, hi: nat, t: string, u: string)
    requires Between(s, lo, hi, t) && Between(s, lo, hi, u)
    ensures t == u
  {
    var i, j :| 0 <= i <= j <= |s| && ByteLen(s[..i]) == lo && ByteLen(s[..j]) == hi && t == s[i..j];
    var i', j' :| 0 <= i' <= j' <= |s| && ByteLen(s[..i']) == lo && ByteLen(s[..j']) == hi && u == s[i'..j'];
    SameOffsetSameIndex(s, i, i');
    SameOffsetSameIndex(s, j, j');
  }

  lemma SameOffsetSameIndex(s: string, i: nat, i': nat)
    requires i <= |s| && i' <= |s| && ByteLen(s[..i]) == ByteLen(s[..i'])
    ensures i == i'
  {
    if i < i' {
      PrefixStrictlyLonger(s, i, i');
    } else if i' < i {
      PrefixStrictlyLonger(s, i', i);
    }
  }

  /** Slicing past the first character is slicing the rest of the string,
      with both offsets moved back by that character's width. */
  lemma SliceAfterFirst(c: char, rest: string, lo: nat, hi: nat)
    requires Width(c) <= lo <= hi
    ensures Slice([c] + rest, lo, hi) == Slice(rest, lo - Width(c), hi - Width(c))
  {
    var s := [c] + rest;
    assert s[1..] == rest;
    BoundaryAfterFirst(s, lo);
    BoundaryAfterFirst(s, hi);
    var r := Slice(rest, lo - Width(c), hi - Width(c));
    if r.Some? {
      BetweenAfterFirst(c, rest, lo - Width(c), hi - Width(c), r.value);
      BetweenUnique(s, lo, hi, r.value, Slice(s, lo, hi).value);
    }
  }

  lemma BetweenAfterFirst(c: char, rest: string, lo: nat, hi: nat, u: string)
    requires Between(rest, lo, hi, u)
    ensures Between([c] + rest, lo + Width(c), hi + Width(c), u)
  {
    var s := [c] + rest;
    assert s[1..] == rest;
    var i, j :| 0 <= i <= j <= |rest| && ByteLen(rest[..i]) == lo && ByteLen(rest[..j]) == hi && u == rest[i..j];
    PrefixAfterFirst(s, i + 1);
    PrefixAfterFirst(s, j + 1);
    assert u == s[i + 1..j + 1];
  }

  lemma {:induction false} AsciiByteLen(s: string)
    requires IsAscii(s)
    ensures ByteLen(s) == |s|
    decreases |s|
  {
    if |s| > 0 {
      AsciiByteLen(s[1..]);
    }
  }

  /** On ASCII text, byte offsets are character offsets: every offset up to
      the length is a boundary, and a byte slice is the ordinary subsequence. */
  lemma AsciiSlice(s: string, lo: nat, hi: nat)
    requires IsAscii(s) && lo <= hi <= |s|
    ensures Slice(s, lo, hi) == Some(s[lo..hi])
  {
    AsciiByteLen(s[..lo]);
    AsciiByteLen(s[..hi]);
    var i := BoundaryIndex(s, lo).value;
    var j := BoundaryIndex(s, hi).value;
    AsciiByteLen(s[..i]);
    AsciiByteLen(s[..j]);
  }
}
