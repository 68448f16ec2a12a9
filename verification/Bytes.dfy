/** Byte strings and the few `QByteArray`/`QString` primitives that the modelled code calls. */
module Bytes {
  newtype byte = x: int | 0 <= x < 256
  type bytes = seq<byte>

  const TAB: byte := 9
  const NEWLINE: byte := 10
  const CARRIAGE_RETURN: byte := 13
  const SPACE: byte := 32
  const QUOTE: byte := 34
  const OPEN_BRACKET: byte := 91
  const BACKSLASH: byte := 92
  const CLOSE_BRACKET: byte := 93

  predicate IsIndexOf<T(==)>(s: seq<T>, c: T, from: nat, i: int) {
    && (i == -1 || (from <= i < |s| && s[i] == c))
    && forall j :: from <= j < (if i == -1 then |s| else i) ==> s[j] != c
  }

  lemma IndexOfExists<T>(s: seq<T>, c: T, from: nat)
    ensures exists i :: -1 <= i < |s| && IsIndexOf(s, c, from, i)
    decreases |s| - from
  {
    if from >= |s| {
      assert IsIndexOf(s, c, from, -1);
    } else if s[from] == c {
      assert IsIndexOf(s, c, from, from);
    } else {
      IndexOfExists(s, c, from + 1);
      var i: int :| -1 <= i < |s| && IsIndexOf(s, c, from + 1, i);
      assert IsIndexOf(s, c, from, i);
    }
  }

  /** `indexOf(c, from)`: the first index at or after `from` that holds `c`, or -1. */
  function IndexOf<T(==)>(s: seq<T>, c: T, from: nat): (i: int)
    ensures IsIndexOf(s, c, from, i)
  {
    IndexOfExists(s, c, from);
    var i :| -1 <= i < |s| && IsIndexOf(s, c, from, i);
    i
  }

  predicate IsLastIndexOf<T(==)>(s: seq<T>, c: T, i: int) {
    && (i == -1 || (0 <= i < |s| && s[i] == c))
    && forall j :: 0 <= j < |s| && i < j ==> s[j] != c
  }

  lemma LastIndexOfExists<T>(s: seq<T>, c: T)
    ensures exists i :: -1 <= i < |s| && IsLastIndexOf(s, c, i)
  {
    if s == [] {
      assert IsLastIndexOf(s, c, -1);
    } else if s[|s| - 1] == c {
      assert IsLastIndexOf(s, c, |s| - 1);
    } else {
      LastIndexOfExists(s[..|s| - 1], c);
      var i: int :| -1 <= i < |s| - 1 && IsLastIndexOf(s[..|s| - 1], c, i);
      assert IsLastIndexOf(s, c, i);
    }
  }

  /** `lastIndexOf(c)`: the last index that holds `c`, or -1. */
  function LastIndexOf<T(==)>(s: seq<T>, c: T): (i: int)
    ensures -1 <= i < |s| && IsLastIndexOf(s, c, i)
  {
    LastIndexOfExists(s, c);
    var i :| -1 <= i < |s| && IsLastIndexOf(s, c, i);
    i
  }

  /** `mid(pos, len)`: a negative length, or one that runs past the end, means "to the end". */
  function Mid<T>(s: seq<T>, pos: nat, len: int): seq<T> {
    if pos > |s| then []
    else if len < 0 || pos + len > |s| then s[pos..]
    else s[pos..pos + len]
  }

  /** Reading a non-const `QByteArray` past its end yields the NUL byte. */
  function At(s: bytes, i: nat): byte {
    if i < |s| then s[i] else 0
  }

  function Concat<T>(parts: seq<seq<T>>): seq<T> {
    if parts == [] then [] else parts[0] + Concat(parts[1..])
  }

  /** A slice that is a concatenation of two parts is two adjacent slices. */
  lemma SliceParts<T>(d: seq<T>, from: nat, to: nat, x: seq<T>, y: seq<T>)
    requires from <= to <= |d| && d[from..to] == x + y
    ensures from + |x| + |y| == to && d[from..from + |x|] == x && d[from + |x|..to] == y
  {
    assert d[from..from + |x|] == d[from..to][..|x|];
    assert d[from + |x|..to] == d[from..to][|x|..];
  }

  /** The same for what follows a position. */
  lemma TailParts<T>(d: seq<T>, from: nat, mid: nat, x: seq<T>, y: seq<T>)
    requires from <= |d| && d[from..] == x + y && mid == from + |x|
    ensures mid <= |d| && d[from..mid] == x && d[mid..] == y
  {
    assert d[from..mid] == d[from..][..|x|];
    assert d[mid..] == d[from..][|x|..];
  }

  /** Concatenation is associative: a part may be moved from what is left to what is done. */
  lemma Shift<T>(done: seq<T>, head: seq<T>, left: seq<T>)
    ensures (done + head) + left == done + (head + left)
  {
  }
}
