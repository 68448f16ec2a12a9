/** Backslash escaping of chosen characters, and its inverse. */
module QuotedChars {
  import opened Bytes

  const ESCAPE: char := '\\'

  function QuoteSet(chars: string, quoteSlash: bool): string {
    chars + if quoteSlash then [ESCAPE] else []
  }

  lemma QuoteSetMembers(chars: string, quoteSlash: bool, x: char)
    ensures x in QuoteSet(chars, quoteSlash) <==> x in chars || (quoteSlash && x == '\\')
  {
  }

  function QuotedChar(x: char, q: string): string {
    if x in q then [ESCAPE, x] else [x]
  }

  function Quoted(s: string, q: string): string {
    if s == [] then []
    else QuotedChar(s[0], q) + Quoted(s[1..], q)
  }

  /** A backslash is dropped when a quotable character follows it. */
  function Unquoted(s: string, q: string): string {
    if s == [] then []
    else if s[0] == ESCAPE && |s| > 1 && s[1] in q then [s[1]] + Unquoted(s[2..], q)
    else [s[0]] + Unquoted(s[1..], q)
  }

  lemma QuotedCons(x: char, rest: string, q: string)
    ensures Quoted([x] + rest, q) == QuotedChar(x, q) + Quoted(rest, q)
  {
    assert ([x] + rest)[1..] == rest;
  }

  lemma {:induction false} QuotedSnoc(s: string, c: char, q: string)
    ensures Quoted(s + [c], q) == Quoted(s, q) + QuotedChar(c, q)
  {
    if s == [] {
      QuotedCons(c, [], q);
      assert s + [c] == [c] + [];
    } else {
      var x, rest := s[0], s[1..];
      QuotedSnoc(rest, c, q);
      QuotedCons(x, rest, q);
      QuotedCons(x, rest + [c], q);
      assert s == [x] + rest;
      Shift([x], rest, [c]);
      Shift(QuotedChar(x, q), Quoted(rest, q), QuotedChar(c, q));
    }
  }

  method QuoteChars(from: string, chars: string, quoteSlash: bool) returns (res: string)
    ensures res == Quoted(from, QuoteSet(chars, quoteSlash))
  {
    res := "";
    var quoteChars := chars;
    if quoteSlash {
      quoteChars := quoteChars + [ESCAPE];
    }
    assert quoteChars == QuoteSet(chars, quoteSlash);
    for i := 0 to |from|
      invariant res == Quoted(from[..i], quoteChars)
    {
      var c := from[i];
      if c in quoteChars {
        res := res + [ESCAPE];
      }
      res := res + [c];
      QuotedSnoc(from[..i], c, quoteChars);
      assert from[..i + 1] == from[..i] + [c];
    }
    assert from[..|from|] == from;
  }

  method UnquoteChars(from: string, chars: string, quoteSlash: bool) returns (res: string)
    ensures res == Unquoted(from, QuoteSet(chars, quoteSlash))
  {
    res := "";
    var quoteChars := chars;
    if quoteSlash {
      quoteChars := quoteChars + [ESCAPE];
    }
    assert quoteChars == QuoteSet(chars, quoteSlash);
    var i := 0;
    assert from[0..] == from;
    while i < |from|
      invariant 0 <= i <= |from|
      invariant res + Unquoted(from[i..], quoteChars) == Unquoted(from, quoteChars)
    {
      ghost var todo, done := from[i..], res;
      if from[i] == ESCAPE && i + 1 < |from| {
        if from[i + 1] in quoteChars {
          i := i + 1;
        }
      }
      res := res + [from[i]];
      i := i + 1;
      UnquotedStep(done, todo, res, from[i..], quoteChars);
    }
  }

  lemma UnquotedStep(done: string, todo: string, done': string, todo': string, q: string)
    requires todo != []
    requires var n := if todo[0] == ESCAPE && |todo| > 1 && todo[1] in q then 2 else 1;
             todo' == todo[n..] && done' == done + [todo[n - 1]]
    ensures done + Unquoted(todo, q) == done' + Unquoted(todo', q)
  {
  }

  /**
   * The first character of a quoted text is quotable only as the escape itself, so a literal
   * backslash that was left alone is never taken for one.
   */
  lemma QuotedStartsUnquotable(s: string, q: string)
    ensures var t := Quoted(s, q);
            t != [] && t[0] in q ==> t[0] == ESCAPE
  {
  }

  /** Unquoting undoes quoting for every text and every set, whether or not it holds the backslash. */
  lemma {:induction false} UnquotedInvertsQuoted(s: string, q: string)
    ensures Unquoted(Quoted(s, q), q) == s
  {
    if s != [] {
      var t, rest := Quoted(s, q), Quoted(s[1..], q);
      UnquotedInvertsQuoted(s[1..], q);
      QuotedStartsUnquotable(s[1..], q);
      assert s == [s[0]] + s[1..];
      if s[0] in q {
        assert t == [ESCAPE, s[0]] + rest && t[2..] == rest;
      } else {
        assert t == [s[0]] + rest && t[1..] == rest;
        assert s[0] == ESCAPE && |t| > 1 ==> t[1] == rest[0];
      }
    }
  }

  /** No quotable character stands in the quoted text without a backslash before it. */
  lemma {:induction false} QuotableIsEscaped(s: string, q: string, i: nat)
    requires i < |Quoted(s, q)| && Quoted(s, q)[i] in q && Quoted(s, q)[i] != ESCAPE
    ensures i > 0 && Quoted(s, q)[i - 1] == ESCAPE
  {
    var head := if s[0] in q then [ESCAPE, s[0]] else [s[0]];
    if i >= |head| {
      QuotableIsEscaped(s[1..], q, i - |head|);
    }
  }
}
