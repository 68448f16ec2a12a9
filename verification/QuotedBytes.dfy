/** The quoted byte strings of the old configuration format. */
module QuotedBytes {
  import opened Bytes

  const LETTER_N: byte := 110
  const LETTER_X: byte := 120

  function FromHex(c: byte): byte {
    if 48 <= c <= 57 then c - 48
    else if 65 <= c <= 70 then c - 55
    else if 97 <= c <= 102 then c - 87
    else 0
  }

  function ToHex(c: byte): byte {
    var d := c % 16;
    if d < 10 then d + 48 else d + 87
  }

  function HexPair(hi: byte, lo: byte): byte {
    FromHex(hi) * 16 + FromHex(lo)
  }

  // ---- encoding --------------------------------------------------------------------------------

  function EncodedByte(p: byte): bytes {
    if p == BACKSLASH then [BACKSLASH, BACKSLASH]
    else if p == CARRIAGE_RETURN || p == 0 then []
    else if p == NEWLINE then [BACKSLASH, LETTER_N]
    else if p == QUOTE || p < SPACE then [BACKSLASH, LETTER_X, ToHex(p / 16), ToHex(p)]
    else [p]
  }

  function Encoded(s: bytes): bytes {
    if s == [] then [] else EncodedByte(s[0]) + Encoded(s[1..])
  }

  function Quoted(s: bytes): bytes {
    [QUOTE] + Encoded(s) + [QUOTE]
  }

  lemma EncodedCons(p: byte, rest: bytes)
    ensures Encoded([p] + rest) == EncodedByte(p) + Encoded(rest)
  {
    assert ([p] + rest)[1..] == rest;
  }

  lemma {:induction false} EncodedSnoc(s: bytes, p: byte)
    ensures Encoded(s + [p]) == Encoded(s) + EncodedByte(p)
  {
    if s == [] {
      EncodedCons(p, []);
      assert s + [p] == [p] + [];
    } else {
      var head, rest := s[0], s[1..];
      EncodedSnoc(rest, p);
      EncodedCons(head, rest);
      EncodedCons(head, rest + [p]);
      assert s == [head] + rest;
      Shift([head], rest, [p]);
      Shift(EncodedByte(head), Encoded(rest), EncodedByte(p));
    }
  }

  method QuoteInternal(str: bytes) returns (res: bytes)
    ensures res == Quoted(str)
  {
    res := [QUOTE];
    for i := 0 to |str|
      invariant res == [QUOTE] + Encoded(str[..i])
    {
      var p := str[i];
      ghost var before := res;
      if p == BACKSLASH {
        res := res + [BACKSLASH, BACKSLASH];
      } else if p == CARRIAGE_RETURN {
      } else if p == NEWLINE {
        res := res + [BACKSLASH, LETTER_N];
      } else if p == QUOTE {
        res := res + [BACKSLASH, LETTER_X, ToHex(p / 16), ToHex(p)];
      } else if p >= SPACE {
        res := res + [p];
      } else if p != 0 {
        res := res + [BACKSLASH, LETTER_X, ToHex(p / 16), ToHex(p)];
      }
      assert res == before + EncodedByte(p);
      EncodedSnoc(str[..i], p);
      Shift([QUOTE], Encoded(str[..i]), EncodedByte(p));
      assert str[..i + 1] == str[..i] + [p];
    }
    assert str[..|str|] == str;
    res := res + [QUOTE];
  }

  // ---- decoding --------------------------------------------------------------------------------

  /** The length of an escape at the front, and the byte it stands for. */
  function Escape(s: bytes): (nat, byte)
    requires s != [] && s[0] == BACKSLASH
  {
    var c := At(s, 1);
    if c == BACKSLASH then (2, BACKSLASH)
    else if c == LETTER_N then (2, NEWLINE)
    else if c == LETTER_X then (4, HexPair(At(s, 2), At(s, 3)))
    else (1, BACKSLASH)
  }

  predicate Broken(s: bytes)
    requires s != [] && s[0] == BACKSLASH
  {
    At(s, 1) == LETTER_X && (At(s, 2) == 0 || At(s, 3) == 0)
  }

  /** Success, and the decoded bytes; a broken escape stops the decoding and leaves the rest as it is. */
  function Decoded(s: bytes): (bool, bytes) {
    if s == [] then (true, [])
    else if s[0] != BACKSLASH then (Decoded(s[1..]).0, [s[0]] + Decoded(s[1..]).1)
    else if Broken(s) then (false, s)
    else
      var (n, c) := Escape(s);
      (Decoded(s[n..]).0, [c] + Decoded(s[n..]).1)
  }

  function Unquote(val: bytes, str: bytes): (bool, bytes, bytes) {
    var first := IndexOf(val, QUOTE, 0);
    if first == -1 then (false, val, str)
    else
      var last := LastIndexOf(val, QUOTE);
      var (ok, res) := Decoded(Mid(val, first + 1, last - first - 1));
      (ok, val[last + 1..], res)
  }

  lemma {:induction false} DecodedSkips(s: bytes, n: nat)
    requires n <= |s| && forall j :: 0 <= j < n ==> s[j] != BACKSLASH
    ensures Decoded(s).0 == Decoded(s[n..]).0
    ensures Decoded(s).1 == s[..n] + Decoded(s[n..]).1
    decreases n
  {
    if n == 0 {
      assert s[0..] == s && s[..0] + Decoded(s).1 == Decoded(s).1;
    } else {
      var t := s[1..];
      DecodedSkips(t, n - 1);
      assert t[n - 1..] == s[n..];
      assert [s[0]] + t[..n - 1] == s[..n];
      Shift([s[0]], t[..n - 1], Decoded(s[n..]).1);
    }
  }

  /** Decoding in place: each escape is overwritten by its byte and the tail moves up. */
  method UnquoteInternal(val0: bytes, str0: bytes) returns (ok: bool, val: bytes, str: bytes)
    ensures (ok, val, str) == Unquote(val0, str0)
  {
    val, str := val0, str0;
    var idx1 := IndexOf(val, QUOTE, 0);
    if idx1 == -1 {
      return false, val, str;
    }
    idx1 := idx1 + 1;
    var idx2 := LastIndexOf(val, QUOTE);
    if idx2 == -1 {
      return false, val, str;
    }
    str := Mid(val, idx1, idx2 - idx1);
    val := Mid(val, idx2 + 1, -1);
    ok, str := DecodeInPlace(str);
  }

  method DecodeInPlace(str0: bytes) returns (ok: bool, str: bytes)
    ensures (ok, str) == Decoded(str0)
  {
    str := str0;
    var idx := 0;
    assert str[0..] == str && str[..0] + Decoded(str).1 == Decoded(str).1;
    while true
      invariant 0 <= idx <= |str|
      invariant Decoded(str0) == (Decoded(str[idx..]).0, str[..idx] + Decoded(str[idx..]).1)
      decreases |str| - idx
    {
      var next := IndexOf(str, BACKSLASH, idx);
      ghost var end := if next == -1 then |str| else next;
      SkipTo(str, idx, end);
      if next == -1 {
        assert str[end..] == [] && str[..end] + [] == str;
        return true, str;
      }
      idx := next;
      ghost var before, todo := str[..idx], str[idx..];
      assert str == before + todo;
      ok, str := OverwriteEscape(str, idx);
      if !ok {
        return;
      }
      idx := idx + 1;
      ghost var (n, c) := Escape(todo);
      assert str[..idx] == before + [c] && str[idx..] == todo[n..];
      Shift(before, [c], Decoded(todo[n..]).1);
    }
  }

  /** The body of the decoding loop, on the escape at `idx`. */
  method OverwriteEscape(str0: bytes, idx: nat) returns (ok: bool, str: bytes)
    requires idx < |str0| && str0[idx] == BACKSLASH
    ensures ok <==> !Broken(str0[idx..])
    ensures ok ==> str == str0[..idx] + [Escape(str0[idx..]).1] + str0[idx..][Escape(str0[idx..]).0..]
    ensures !ok ==> str == str0
  {
    str := str0;
    var c := At(str, idx + 1);
    if c == BACKSLASH {
      str := str[..idx] + [BACKSLASH] + Mid(str, idx + 2, -1);
    } else if c == LETTER_N {
      str := str[..idx] + [NEWLINE] + Mid(str, idx + 2, -1);
    } else if c == LETTER_X {
      var c1 := At(str, idx + 2);
      var c2 := if c1 != 0 then At(str, idx + 3) else 0;
      if c1 == 0 || c2 == 0 {
        return false, str;
      }
      str := str[..idx] + [HexPair(c1, c2)] + Mid(str, idx + 4, -1);
    }
    ok := true;
  }

  lemma SkipTo(str: bytes, idx: nat, end: nat)
    requires idx <= end <= |str| && forall j :: idx <= j < end ==> str[j] != BACKSLASH
    ensures Decoded(str[idx..]).0 == Decoded(str[end..]).0
    ensures str[..idx] + Decoded(str[idx..]).1 == str[..end] + Decoded(str[end..]).1
  {
    DecodedSkips(str[idx..], end - idx);
    assert str[idx..][end - idx..] == str[end..];
    assert str[..idx] + str[idx..][..end - idx] == str[..end];
    Shift(str[..idx], str[idx..][..end - idx], Decoded(str[end..]).1);
  }

  // ---- the round trip --------------------------------------------------------------------------

  function StrippedByte(p: byte): bytes {
    if p == CARRIAGE_RETURN || p == 0 then [] else [p]
  }

  /** What the format cannot carry: carriage returns and NUL bytes. */
  function Stripped(s: bytes): bytes {
    if s == [] then [] else StrippedByte(s[0]) + Stripped(s[1..])
  }

  lemma HexRoundTrip(p: byte)
    ensures HexPair(ToHex(p / 16), ToHex(p)) == p && ToHex(p) != 0
  {
    assert FromHex(ToHex(p)) == p % 16;
    assert p / 16 % 16 == p / 16 && FromHex(ToHex(p / 16)) == p / 16;
  }

  lemma DecodedOfByte(p: byte, rest: bytes)
    ensures var t := EncodedByte(p) + rest;
            Decoded(t).0 == Decoded(rest).0 && Decoded(t).1 == StrippedByte(p) + Decoded(rest).1
  {
    var head := EncodedByte(p);
    var t := head + rest;
    assert t[|head|..] == rest;
    HexRoundTrip(p);
    HexRoundTrip(p / 16);
    if |head| == 4 {
      assert t[0] == head[0] && t[1] == head[1] && t[2] == head[2] && t[3] == head[3];
      assert Escape(t) == (4, p);
    } else if |head| == 2 {
      assert t[0] == head[0] && t[1] == head[1];
      assert Escape(t) == (2, p);
    }
  }

  lemma {:induction false} DecodedInvertsEncoded(s: bytes)
    ensures Decoded(Encoded(s)) == (true, Stripped(s))
  {
    if s != [] {
      DecodedInvertsEncoded(s[1..]);
      DecodedOfByte(s[0], Encoded(s[1..]));
    }
  }

  /** The encoded text holds no quote and no control character, so it stays on one line. */
  lemma {:induction false} EncodedIsPrintable(s: bytes)
    ensures forall b <- Encoded(s) :: b >= SPACE && b != QUOTE
  {
    if s != [] {
      EncodedIsPrintable(s[1..]);
    }
  }

  lemma {:induction false} StrippedIsExact(s: bytes)
    ensures |Stripped(s)| <= |s|
    ensures Stripped(s) == s <==> CARRIAGE_RETURN !in s && 0 !in s
  {
    if s != [] {
      StrippedIsExact(s[1..]);
      assert s == [s[0]] + s[1..];
    }
  }

  // ---- quotes ----------------------------------------------------------------------------------

  /** Without a quote nothing happens. */
  lemma UnquoteNeedsQuote(val: bytes, str: bytes)
    requires QUOTE !in val
    ensures Unquote(val, str) == (false, val, str)
  {
    assert IndexOf(val, QUOTE, 0) == -1;
  }

  lemma UnquoteBetween(val: bytes, first: nat, last: nat, inner: bytes, tail: bytes, str: bytes)
    requires last < |val| && IndexOf(val, QUOTE, 0) == first && LastIndexOf(val, QUOTE) == last
    requires Mid(val, first + 1, last - first - 1) == inner && val[last + 1..] == tail
    ensures Unquote(val, str) == (Decoded(inner).0, tail, Decoded(inner).1)
  {
  }

  /** Behind a single quote everything is decoded, and left over as well. */
  lemma UnquoteAfterOne(front: bytes, tail: bytes, str: bytes)
    requires QUOTE !in front && QUOTE !in tail
    ensures Unquote(front + ([QUOTE] + tail), str) == (Decoded(tail).0, tail, Decoded(tail).1)
  {
    OneQuote(front, tail);
    UnquoteBetween(front + ([QUOTE] + tail), |front|, |front|, tail, tail, str);
  }

  /** What is decoded lies between the first and the last quote. */
  lemma UnquoteTakesBetween(front: bytes, inner: bytes, tail: bytes, str: bytes)
    requires QUOTE !in front && QUOTE !in tail
    ensures Unquote(front + ([QUOTE] + inner + [QUOTE] + tail), str) == (Decoded(inner).0, tail, Decoded(inner).1)
  {
    TwoQuotes(front, inner, tail);
    UnquoteBetween(front + ([QUOTE] + inner + [QUOTE] + tail), |front|, |front| + |inner| + 1, inner, tail, str);
  }

  lemma OneQuote(front: bytes, tail: bytes)
    requires QUOTE !in front && QUOTE !in tail
    ensures var val := front + ([QUOTE] + tail);
            && IndexOf(val, QUOTE, 0) == LastIndexOf(val, QUOTE) == |front|
            && Mid(val, |front| + 1, -1) == val[|front| + 1..] == tail
  {
    var val := front + ([QUOTE] + tail);
    assert val[|front|] == QUOTE;
    assert forall j :: 0 <= j < |front| ==> val[j] == front[j];
    assert forall j :: |front| < j < |val| ==> val[j] == tail[j - |front| - 1];
  }

  lemma TwoQuotes(front: bytes, inner: bytes, tail: bytes)
    requires QUOTE !in front && QUOTE !in tail
    ensures var val, last := front + ([QUOTE] + inner + [QUOTE] + tail), |front| + |inner| + 1;
            && IndexOf(val, QUOTE, 0) == |front| && LastIndexOf(val, QUOTE) == last
            && Mid(val, |front| + 1, |inner|) == inner && val[last + 1..] == tail
  {
    var val, last := front + ([QUOTE] + inner + [QUOTE] + tail), |front| + |inner| + 1;
    assert val[|front|] == QUOTE && val[last] == QUOTE;
    assert forall j :: 0 <= j < |front| ==> val[j] == front[j];
    assert forall j :: last < j < |val| ==> val[j] == tail[j - last - 1];
  }

  lemma UnquoteDecoded(val: bytes, inner: bytes, tail: bytes, str: bytes, res: bytes)
    requires val == [QUOTE] + inner + [QUOTE] + tail && QUOTE !in tail && Decoded(inner) == (true, res)
    ensures Unquote(val, str) == (true, tail, res)
  {
    UnquoteTakesBetween([], inner, tail, str);
    assert [] + val == val;
  }

  /** Unquoting a quoted string gives it back without carriage returns and NUL bytes, and leaves the text after it. */
  lemma UnquoteOfQuoted(s: bytes, tail: bytes, str: bytes)
    requires QUOTE !in tail
    ensures Unquote(Quoted(s) + tail, str) == (true, tail, Stripped(s))
  {
    DecodedInvertsEncoded(s);
    UnquoteDecoded(Quoted(s) + tail, Encoded(s), tail, str, Stripped(s));
  }

  lemma LastQuoteInTail(quoted: bytes, tail: bytes)
    requires QUOTE in tail
    ensures LastIndexOf(quoted + tail, QUOTE) >= |quoted|
  {
    var j :| 0 <= j < |tail| && tail[j] == QUOTE;
    assert (quoted + tail)[|quoted| + j] == QUOTE;
  }

  ghost predicate LeavesTail(s: bytes, tail: bytes, str: bytes) {
    Unquote(Quoted(s) + tail, str).1 == tail
  }

  ghost predicate GivesBack(s: bytes, tail: bytes, str: bytes) {
    Unquote(Quoted(s) + tail, str) == (true, tail, s)
  }

  /** The tail is left over exactly when it holds no quote, and the string comes back exactly when nothing of it is lost. */
  lemma UnquoteInvertsQuoted(s: bytes, tail: bytes, str: bytes)
    ensures LeavesTail(s, tail, str) <==> QUOTE !in tail
    ensures GivesBack(s, tail, str) <==> QUOTE !in tail && CARRIAGE_RETURN !in s && 0 !in s
  {
    StrippedIsExact(s);
    if QUOTE in tail {
      LastQuoteInTail(Quoted(s), tail);
    } else {
      UnquoteOfQuoted(s, tail, str);
    }
  }

  // ---- the format ------------------------------------------------------------------------------

  /** The four kinds of escapes as they are written: a backslash, a newline, a quote and a tab. */
  lemma EscapesAsWritten()
    ensures Encoded([BACKSLASH]) == [BACKSLASH, BACKSLASH] && Encoded([NEWLINE]) == [BACKSLASH, LETTER_N]
    ensures Encoded([QUOTE]) == [BACKSLASH, LETTER_X, 50, 50] && Encoded([TAB]) == [BACKSLASH, LETTER_X, 48, 57]
  {
  }

  ghost predicate Printable(s: bytes) {
    forall i :: 0 <= i < |s| ==> s[i] >= SPACE && s[i] != QUOTE
  }

  lemma {:induction false} BackslashesGrow(s: bytes)
    requires Printable(s)
    ensures |Encoded(s)| >= |s|
    ensures if BACKSLASH in s then |Encoded(s)| > |s| else Encoded(s) == s
  {
    if s != [] {
      BackslashesGrow(s[1..]);
      assert s == [s[0]] + s[1..];
    }
  }

  /** A text is written as it is exactly when it has nothing to escape and nothing to lose. */
  lemma PrintableStays(s: bytes)
    ensures Encoded(s) == s <==> Printable(s) && BACKSLASH !in s
  {
    EncodedIsPrintable(s);
    if Printable(s) {
      BackslashesGrow(s);
    } else if Encoded(s) == s {
      var i :| 0 <= i < |s| && !(s[i] >= SPACE && s[i] != QUOTE);
      assert s[i] in Encoded(s);
    }
  }

  /** A digit in either case stands for its value; anything else counts as zero. */
  lemma DigitValues(c: byte)
    ensures FromHex(c) as int == if '0' as int <= c as int <= '9' as int then c as int - '0' as int
                                 else if 'a' as int <= c as int <= 'f' as int then c as int - 'a' as int + 10
                                 else if 'A' as int <= c as int <= 'F' as int then c as int - 'A' as int + 10
                                 else 0
  {
  }

  /** A backslash in front of any other letter stays. */
  lemma OtherEscapeStays(c: byte, rest: bytes)
    requires c != BACKSLASH && c != LETTER_N && c != LETTER_X
    ensures Decoded([BACKSLASH, c] + rest) == (Decoded([c] + rest).0, [BACKSLASH] + Decoded([c] + rest).1)
  {
    var s, next := [BACKSLASH, c] + rest, [c] + rest;
    assert s[1..] == next && Escape(s) == (1, BACKSLASH);
  }

  /** Too few digits, or a NUL in place of one, end the decoding. */
  lemma BrokenEscapeFails(rest: bytes)
    requires At(rest, 0) == 0 || At(rest, 1) == 0
    ensures Decoded([BACKSLASH, LETTER_X] + rest) == (false, [BACKSLASH, LETTER_X] + rest)
  {
    var s := [BACKSLASH, LETTER_X] + rest;
    assert At(s, 2) == At(rest, 0) && At(s, 3) == At(rest, 1);
  }
}
