/** Splitting at separators with `getToken`, and the two-level records built with `quoteChars`. */
module Records {
  import opened Bytes
  import opened QuotedChars

  /** The token up to the first separator that is not escaped, and what follows that separator. */
  function Token(from: string, c: char, unescape: bool): (string, string) {
    if from == [] then ([], [])
    else if from[0] == c then ([], from[1..])
    else if from[0] == ESCAPE then
      if |from| == 1 then ([], [])
      else
        var (res, rest) := Token(from[2..], c, unescape);
        ((if unescape then [from[1]] else [ESCAPE, from[1]]) + res, rest)
    else
      var (res, rest) := Token(from[1..], c, unescape);
      ([from[0]] + res, rest)
  }

  method GetToken(from0: string, c: char, unescape: bool) returns (res: string, from: string)
    ensures (res, from) == Token(from0, c, unescape)
  {
    from := from0;
    res := "";
    var i := 0;
    assert from[0..] == from;
    while i < |from|
      invariant 0 <= i <= |from| && from == from0
      invariant Token(from, c, unescape).0 == res + Token(from[i..], c, unescape).0
      invariant Token(from, c, unescape).1 == Token(from[i..], c, unescape).1
    {
      ghost var todo, done := from[i..], res;
      if from[i] == c {
        break;
      }
      if from[i] == ESCAPE {
        i := i + 1;
        if i >= |from| {
          break;
        }
        if !unescape {
          res := res + [ESCAPE];
        }
      }
      res := res + [from[i]];
      i := i + 1;
      ghost var head := if todo[0] != ESCAPE then [todo[0]] else if unescape then [todo[1]] else [ESCAPE, todo[1]];
      assert res == done + head && from[i..] == todo[(if todo[0] == ESCAPE then 2 else 1)..];
      Shift(done, head, Token(from[i..], c, unescape).0);
    }
    assert res == Token(from, c, unescape).0 by {
      assert res + [] == res;
    }
    if i < |from| {
      from := from[i + 1..];
    } else {
      from := "";
    }
  }

  // ---- items that a separator cannot cut -------------------------------------------------------

  /** The token is the whole of `item`, with no escape left open at its end. */
  predicate Closed(item: string, c: char) {
    if item == [] then true
    else if item[0] == c then false
    else if item[0] == ESCAPE then |item| > 1 && Closed(item[2..], c)
    else Closed(item[1..], c)
  }

  /** Every escape is undone, whatever it protects. */
  function Unescaped(item: string): string {
    if item == [] then []
    else if item[0] == ESCAPE then if |item| == 1 then [] else [item[1]] + Unescaped(item[2..])
    else [item[0]] + Unescaped(item[1..])
  }

  function Taken(item: string, unescape: bool): string {
    if unescape then Unescaped(item) else item
  }

  /** The loop passes over a plain character. */
  lemma PlainStep(x: char, text: string, c: char, unescape: bool)
    requires x != ESCAPE
    ensures x != c ==> Token([x] + text, c, unescape) == ([x] + Token(text, c, unescape).0, Token(text, c, unescape).1)
    ensures Taken([x] + text, unescape) == [x] + Taken(text, unescape)
  {
    assert ([x] + text)[1..] == text;
  }

  function Escaped(x: char, unescape: bool): string {
    if unescape then [x] else [ESCAPE, x]
  }

  /** The loop passes over an escaped character, whatever it is. */
  lemma EscapedStep(x: char, text: string, c: char, unescape: bool)
    ensures c != ESCAPE ==>
              Token([ESCAPE, x] + text, c, unescape)
              == (Escaped(x, unescape) + Token(text, c, unescape).0, Token(text, c, unescape).1)
    ensures Taken([ESCAPE, x] + text, unescape) == Escaped(x, unescape) + Taken(text, unescape)
  {
    var all := [ESCAPE, x] + text;
    assert all[0] == ESCAPE && all[1] == x && all[2..] == text;
  }

  lemma {:induction false} TokenOfClosed(item: string, c: char, tail: string, unescape: bool)
    requires Closed(item, c) && (tail == [] || tail[0] == c)
    ensures Token(item + tail, c, unescape) == (Taken(item, unescape), if tail == [] then [] else tail[1..])
  {
    if item == [] {
      assert item + tail == tail;
    } else if item[0] == ESCAPE {
      var x, rest := item[1], item[2..];
      TokenOfClosed(rest, c, tail, unescape);
      EscapedStep(x, rest + tail, c, unescape);
      EscapedStep(x, rest, c, unescape);
      assert item == [ESCAPE, x] + rest;
      Shift([ESCAPE, x], rest, tail);
    } else {
      var x, rest := item[0], item[1..];
      TokenOfClosed(rest, c, tail, unescape);
      PlainStep(x, rest + tail, c, unescape);
      PlainStep(x, rest, c, unescape);
      assert item == [x] + rest;
      Shift([x], rest, tail);
    }
  }

  /** A backslash at the very end is dropped. Every text is closed up to a separator, the end or such a backslash. */
  lemma {:induction false} OpenEscapeIsDropped(item: string, c: char, unescape: bool)
    requires Closed(item, c) && c != ESCAPE
    ensures Token(item + [ESCAPE], c, unescape) == (Taken(item, unescape), [])
  {
    if item == [] {
      assert item + [ESCAPE] == [ESCAPE];
    } else if item[0] == ESCAPE {
      var x, rest := item[1], item[2..];
      OpenEscapeIsDropped(rest, c, unescape);
      EscapedStep(x, rest + [ESCAPE], c, unescape);
      EscapedStep(x, rest, c, unescape);
      assert item == [ESCAPE, x] + rest;
      Shift([ESCAPE, x], rest, [ESCAPE]);
    } else {
      var x, rest := item[0], item[1..];
      OpenEscapeIsDropped(rest, c, unescape);
      PlainStep(x, rest + [ESCAPE], c, unescape);
      PlainStep(x, rest, c, unescape);
      assert item == [x] + rest;
      Shift([x], rest, [ESCAPE]);
    }
  }

  lemma {:induction false} ClosedConcat(a: string, b: string, c: char)
    requires Closed(a, c) && Closed(b, c)
    ensures Closed(a + b, c)
  {
    if a == [] {
      assert a + b == b;
    } else {
      var n := if a[0] == ESCAPE then 2 else 1;
      ClosedConcat(a[n..], b, c);
      assert (a + b)[n..] == a[n..] + b;
    }
  }

  lemma {:induction false} QuotedIsClosed(s: string, q: string, c: char)
    requires c in q && ESCAPE in q && c != ESCAPE
    ensures Closed(Quoted(s, q), c)
    ensures Unescaped(Quoted(s, q)) == s
  {
    if s != [] {
      var head := if s[0] in q then [ESCAPE, s[0]] else [s[0]];
      QuotedIsClosed(s[1..], q, c);
      assert Quoted(s, q)[|head|..] == Quoted(s[1..], q);
      assert s == [s[0]] + s[1..];
    }
  }

  // ---- lists of items --------------------------------------------------------------------------

  function Join(items: seq<string>, c: char): string {
    if items == [] then []
    else if |items| == 1 then items[0]
    else items[0] + [c] + Join(items[1..], c)
  }

  /** One call of `getToken` per item. */
  function Split(from: string, n: nat, c: char, unescape: bool): (seq<string>, string)
    decreases n
  {
    if n == 0 then ([], from)
    else
      var (item, rest) := Token(from, c, unescape);
      var (items, left) := Split(rest, n - 1, c, unescape);
      ([item] + items, left)
  }

  /** `while (from.length()) getToken(from, ...)`. */
  function SplitAll(from: string, c: char, unescape: bool): seq<string>
    decreases |from|
  {
    if from == [] then []
    else
      TokenShortens(from, c, unescape);
      [Token(from, c, unescape).0] + SplitAll(Token(from, c, unescape).1, c, unescape)
  }

  lemma TokenShortens(from: string, c: char, unescape: bool)
    ensures from != [] ==> |Token(from, c, unescape).1| < |from|
  {
  }

  function AllTaken(items: seq<string>, unescape: bool): seq<string> {
    if items == [] then [] else [Taken(items[0], unescape)] + AllTaken(items[1..], unescape)
  }

  lemma JoinCons(items: seq<string>, c: char)
    requires |items| > 1
    ensures Join(items, c) == items[0] + ([c] + Join(items[1..], c))
  {
  }

  /** A known number of closed items comes back item by item, empty ones included. */
  lemma {:induction false} SplitInvertsJoin(items: seq<string>, c: char, unescape: bool)
    requires forall item <- items :: Closed(item, c)
    ensures Split(Join(items, c), |items|, c, unescape) == (AllTaken(items, unescape), [])
  {
    if items != [] {
      var rest := items[1..];
      var tail := if rest == [] then [] else [c] + Join(rest, c);
      assert Join(items, c) == items[0] + tail;
      TokenOfClosed(items[0], c, tail, unescape);
      SplitStep(items[0] + tail, |items|, |rest|, c, unescape);
      SplitInvertsJoin(rest, c, unescape);
    }
  }

  lemma SplitStep(from: string, n: nat, m: nat, c: char, unescape: bool)
    requires n == m + 1
    ensures var (item, rest) := Token(from, c, unescape);
            Split(from, n, c, unescape) == ([item] + Split(rest, m, c, unescape).0, Split(rest, m, c, unescape).1)
  {
  }

  lemma SplitAllStep(from: string, c: char, unescape: bool)
    requires from != []
    ensures SplitAll(from, c, unescape)
         == [Token(from, c, unescape).0] + SplitAll(Token(from, c, unescape).1, c, unescape)
  {
  }

  /** The loop that runs while text is left cannot see an empty item at the very end. */
  lemma {:induction false} SplitAllOfJoin(items: seq<string>, c: char, unescape: bool)
    requires forall item <- items :: Closed(item, c)
    ensures SplitAll(Join(items, c), c, unescape)
         == AllTaken(if items != [] && items[|items| - 1] == [] then items[..|items| - 1] else items, unescape)
  {
    if |items| == 1 {
      TokenOfClosed(items[0], c, [], unescape);
      assert items[0] + [] == items[0];
      assert AllTaken(items[1..], unescape) == [];
      assert items[..0] == [];
    } else if items != [] {
      var rest := items[1..];
      var text := Join(items, c);
      JoinCons(items, c);
      TokenOfClosed(items[0], c, [c] + Join(rest, c), unescape);
      SplitAllStep(text, c, unescape);
      SplitAllOfJoin(rest, c, unescape);
      var kept := if rest[|rest| - 1] == [] then rest[..|rest| - 1] else rest;
      var all := if items[|items| - 1] == [] then items[..|items| - 1] else items;
      assert items[|items| - 1] == rest[|rest| - 1];
      assert all == [items[0]] + kept;
    }
  }

  // ---- two levels ------------------------------------------------------------------------------

  const SEPARATORS := QuoteSet(";/", true)

  function QuotedFields(fields: seq<string>): seq<string> {
    if fields == [] then [] else [Quoted(fields[0], SEPARATORS)] + QuotedFields(fields[1..])
  }

  function PrintRecord(fields: seq<string>): string {
    Join(QuotedFields(fields), '/')
  }

  function PrintRecords(records: seq<seq<string>>): seq<string> {
    if records == [] then [] else [PrintRecord(records[0])] + PrintRecords(records[1..])
  }

  function Lengths(records: seq<seq<string>>): seq<nat> {
    if records == [] then [] else [|records[0]|] + Lengths(records[1..])
  }

  /** Each record is split into its known number of fields. */
  function SplitEach(texts: seq<string>, lengths: seq<nat>, unescape: bool): seq<seq<string>>
    requires |texts| == |lengths|
  {
    if texts == [] then []
    else [Split(texts[0], lengths[0], '/', unescape).0] + SplitEach(texts[1..], lengths[1..], unescape)
  }

  lemma {:induction false} QuotedFieldsAreClosed(fields: seq<string>)
    ensures var items := QuotedFields(fields);
            && |items| == |fields| && AllTaken(items, true) == fields
            && forall item <- items :: Closed(item, '/') && Closed(item, ';')
  {
    if fields != [] {
      QuotedIsClosed(fields[0], SEPARATORS, '/');
      QuotedIsClosed(fields[0], SEPARATORS, ';');
      QuotedFieldsAreClosed(fields[1..]);
      assert fields == [fields[0]] + fields[1..];
    }
  }

  lemma {:induction false} JoinIsClosed(items: seq<string>)
    requires forall item <- items :: Closed(item, ';')
    ensures Closed(Join(items, '/'), ';')
  {
    if |items| > 1 {
      JoinIsClosed(items[1..]);
      assert Closed(['/'], ';');
      ClosedConcat(['/'], Join(items[1..], '/'), ';');
      ClosedConcat(items[0], ['/'] + Join(items[1..], '/'), ';');
      assert items[0] + ['/'] + Join(items[1..], '/') == items[0] + (['/'] + Join(items[1..], '/'));
    }
  }

  // ---- the two escape flags --------------------------------------------------------------------

  /** Whether a field comes back when the outer and the inner split undo escapes or keep them. */
  ghost predicate FieldSurvives(field: string, outer: bool, inner: bool) {
    if outer then if inner then '/' !in field && ESCAPE !in field else Closed(field, '/')
    else inner || forall x <- field :: x !in SEPARATORS
  }

  ghost predicate RecordSurvives(fields: seq<string>, outer: bool, inner: bool) {
    forall field <- fields :: FieldSurvives(field, outer, inner)
  }

  /** What the outer split makes of a printed record. */
  function RecordText(fields: seq<string>, outer: bool): string {
    if outer then Join(fields, '/') else PrintRecord(fields)
  }

  lemma {:induction false} UnescapedConcat(a: string, b: string)
    requires Closed(a, ';')
    ensures Unescaped(a + b) == Unescaped(a) + Unescaped(b)
  {
    if a == [] {
      assert a + b == b;
    } else if a[0] == ESCAPE {
      var x, rest := a[1], a[2..];
      UnescapedConcat(rest, b);
      assert a == [ESCAPE, x] + rest;
      EscapedStep(x, rest, ';', true);
      EscapedStep(x, rest + b, ';', true);
      Shift([ESCAPE, x], rest, b);
      Shift([x], Unescaped(rest), Unescaped(b));
    } else {
      var x, rest := a[0], a[1..];
      UnescapedConcat(rest, b);
      assert a == [x] + rest;
      PlainStep(x, rest, ';', true);
      PlainStep(x, rest + b, ';', true);
      Shift([x], rest, b);
      Shift([x], Unescaped(rest), Unescaped(b));
    }
  }

  lemma {:induction false} UnescapedRecord(fields: seq<string>)
    ensures Unescaped(Join(QuotedFields(fields), '/')) == Join(fields, '/')
  {
    if fields != [] {
      var items := QuotedFields(fields);
      QuotedIsClosed(fields[0], SEPARATORS, ';');
      if |fields| > 1 {
        UnescapedRecord(fields[1..]);
        var rest := Join(items[1..], '/');
        JoinCons(items, '/');
        JoinCons(fields, '/');
        UnescapedConcat(items[0], ['/'] + rest);
        PlainStep('/', rest, ';', true);
      }
    }
  }

  /** The outer split alone hands out the record texts. */
  lemma {:induction false} OuterSplit(records: seq<seq<string>>, outer: bool)
    ensures var texts := PrintRecords(records);
            && |texts| == |records| == |Lengths(records)|
            && (forall text <- texts :: Closed(text, ';'))
            && |AllTaken(texts, outer)| == |texts|
            && forall k :: 0 <= k < |texts| ==> AllTaken(texts, outer)[k] == RecordText(records[k], outer)
  {
    if records != [] {
      OuterSplit(records[1..], outer);
      QuotedFieldsAreClosed(records[0]);
      JoinIsClosed(QuotedFields(records[0]));
      UnescapedRecord(records[0]);
    }
  }

  function Escapes(n: nat): string {
    seq(n, _ => ESCAPE)
  }

  lemma EscapesFront(n: nat, text: string)
    requires n > 0 || (text != [] && text[0] == ESCAPE)
    ensures var s := Escapes(n) + text;
            && s != [] && s[0] == ESCAPE
            && (|text| > 1 && text[0] == text[1] == ESCAPE ==> s[1..] == Escapes(n + 1) + text[2..])
  {
  }

  /** Undoing escapes never gives the text with more backslashes in front, nor one that starts with an escape unchanged. */
  lemma {:induction false} EscapesShrink(text: string, c: char, tail: string, n: nat)
    requires n > 0 || (text != [] && text[0] == ESCAPE)
    requires c != ESCAPE && (tail == [] || tail[0] == c)
    ensures Token(text + tail, c, true).0 != Escapes(n) + text
    decreases |text|
  {
    EscapesFront(n, text);
    if text == [] {
      assert text + tail == tail;
    } else if text[0] != ESCAPE || |text| == 1 {
      assert (text + tail)[0] == text[0];
      assert |text| == 1 && tail != [] ==> (text + tail)[1] == c;
    } else {
      var x, rest := text[1], text[2..];
      assert text == [ESCAPE, x] + rest;
      Shift([ESCAPE, x], rest, tail);
      EscapedStep(x, rest + tail, c, true);
      if x == ESCAPE {
        EscapesShrink(rest, c, tail, n + 1);
        assert Token(text + tail, c, true).0[1..] == Token(rest + tail, c, true).0;
      }
    }
  }

  /** The text in front of a separator comes back exactly when the loop has nothing to do in it. */
  lemma {:induction false} TokenUnchanged(text: string, c: char, tail: string, unescape: bool)
    requires c != ESCAPE && (tail == [] || tail[0] == c)
    ensures Token(text + tail, c, unescape).0 == text
       <==> if unescape then c !in text && ESCAPE !in text else Closed(text, c)
    decreases |text|
  {
    if text == [] {
      assert text + tail == tail;
    } else if text[0] != ESCAPE && text[0] != c {
      var x, rest := text[0], text[1..];
      TokenUnchanged(rest, c, tail, unescape);
      assert text == [x] + rest;
      Shift([x], rest, tail);
      PlainStep(x, rest + tail, c, unescape);
    } else if text[0] == ESCAPE && unescape {
      EscapesShrink(text, c, tail, 0);
      assert Escapes(0) + text == text;
    } else if text[0] == ESCAPE && |text| > 1 {
      var x, rest := text[1], text[2..];
      TokenUnchanged(rest, c, tail, unescape);
      assert text == [ESCAPE, x] + rest;
      Shift([ESCAPE, x], rest, tail);
      EscapedStep(x, rest + tail, c, unescape);
    } else {
      assert (text + tail)[0] == text[0];
      assert |text| == 1 && tail != [] ==> (text + tail)[1] == c;
    }
  }

  lemma {:induction false} PlainIsClosed(text: string, c: char)
    requires c !in text && ESCAPE !in text
    ensures Closed(text, c)
  {
    if text != [] {
      PlainIsClosed(text[1..], c);
    }
  }

  lemma {:induction false} PlainIsTaken(text: string)
    requires ESCAPE !in text
    ensures Unescaped(text) == text
  {
    if text != [] {
      PlainIsTaken(text[1..]);
      assert text == [text[0]] + text[1..];
    }
  }

  lemma FirstPlainField(field: string, tail: string, inner: bool)
    requires tail == [] || tail[0] == '/'
    ensures var (item, left) := Token(field + tail, '/', inner);
            && (item == field <==> FieldSurvives(field, true, inner))
            && (item == field ==> left == if tail == [] then [] else tail[1..])
  {
    TokenUnchanged(field, '/', tail, inner);
    if FieldSurvives(field, true, inner) {
      if inner {
        PlainIsClosed(field, '/');
      }
      TokenOfClosed(field, '/', tail, inner);
    }
  }

  lemma RecordSurvivesCons(field: string, rest: seq<string>, outer: bool, inner: bool)
    ensures RecordSurvives([field] + rest, outer, inner)
       <==> FieldSurvives(field, outer, inner) && RecordSurvives(rest, outer, inner)
  {
    var all := [field] + rest;
    assert all[0] == field && forall f <- all :: f == field || f in rest;
    assert forall f <- rest :: f in all;
  }

  lemma SplitIs(from: string, n: nat, m: nat, inner: bool, field: string, rest: seq<string>)
    requires n == m + 1
    ensures var (item, left) := Token(from, '/', inner);
            Split(from, n, '/', inner).0 == [field] + rest <==> item == field && Split(left, m, '/', inner).0 == rest
  {
    var (item, left) := Token(from, '/', inner);
    SplitStep(from, n, m, '/', inner);
    assert ([item] + Split(left, m, '/', inner).0)[1..] == Split(left, m, '/', inner).0 && ([field] + rest)[1..] == rest;
  }

  /** When the outer split has undone the escapes, the inner one finds the fields without them. */
  lemma {:induction false} PlainRecord(fields: seq<string>, inner: bool)
    ensures Split(Join(fields, '/'), |fields|, '/', inner).0 == fields <==> RecordSurvives(fields, true, inner)
  {
    if fields != [] {
      var field, rest := fields[0], fields[1..];
      var tail := if rest == [] then [] else ['/'] + Join(rest, '/');
      assert Join(fields, '/') == field + tail;
      assert rest != [] ==> tail[1..] == Join(rest, '/');
      assert fields == [field] + rest;
      FirstPlainField(field, tail, inner);
      SplitIs(field + tail, |fields|, |rest|, inner, field, rest);
      PlainRecord(rest, inner);
      RecordSurvivesCons(field, rest, true, inner);
    }
  }

  lemma {:induction false} QuotedUnchanged(s: string, q: string)
    ensures Quoted(s, q) == s <==> forall x <- s :: x !in q
    ensures |Quoted(s, q)| >= |s|
  {
    if s != [] {
      QuotedUnchanged(s[1..], q);
      assert s == [s[0]] + s[1..];
    }
  }

  /** When neither split undoes the escapes, the fields come back quoted. */
  lemma {:induction false} QuotedFieldsUnchanged(fields: seq<string>)
    ensures AllTaken(QuotedFields(fields), false) == QuotedFields(fields)
    ensures QuotedFields(fields) == fields <==> RecordSurvives(fields, false, false)
  {
    if fields != [] {
      var rest := fields[1..];
      QuotedFieldsUnchanged(rest);
      QuotedUnchanged(fields[0], SEPARATORS);
      assert fields == [fields[0]] + rest;
      assert QuotedFields(fields)[1..] == QuotedFields(rest);
      RecordSurvivesCons(fields[0], rest, false, false);
    }
  }

  lemma RecordComesBack(fields: seq<string>, outer: bool, inner: bool)
    ensures Split(RecordText(fields, outer), |fields|, '/', inner).0 == fields <==> RecordSurvives(fields, outer, inner)
  {
    if outer {
      PlainRecord(fields, inner);
    } else {
      QuotedFieldsAreClosed(fields);
      SplitInvertsJoin(QuotedFields(fields), '/', inner);
      QuotedFieldsUnchanged(fields);
    }
  }

  lemma {:induction false} SplitEachComesBack(texts: seq<string>, records: seq<seq<string>>, outer: bool, inner: bool)
    requires |texts| == |records| == |Lengths(records)|
    requires forall k :: 0 <= k < |texts| ==> texts[k] == RecordText(records[k], outer)
    ensures SplitEach(texts, Lengths(records), inner) == records
       <==> forall fields <- records :: RecordSurvives(fields, outer, inner)
  {
    if records != [] {
      var rest := records[1..];
      LengthsCons(records);
      SplitEachComesBack(texts[1..], rest, outer, inner);
      RecordComesBack(records[0], outer, inner);
      assert records == [records[0]] + rest;
    }
  }

  lemma {:induction false} LengthsCons(records: seq<seq<string>>)
    requires records != []
    ensures |Lengths(records[1..])| == |records| - 1 && Lengths(records)[1..] == Lengths(records[1..])
  {
    if |records| > 1 {
      LengthsCons(records[1..]);
    }
  }

  /** The printed records are split at the semicolons, and each text into its fields. */
  ghost predicate ComesBack(records: seq<seq<string>>, outer: bool, inner: bool) {
    var (texts, left) := Split(Join(PrintRecords(records), ';'), |records|, ';', outer);
    left == [] && |texts| == |Lengths(records)| && SplitEach(texts, Lengths(records), inner) == records
  }

  /** Records come back exactly when each of their fields does. */
  lemma RecordsSurvive(records: seq<seq<string>>, outer: bool, inner: bool)
    ensures ComesBack(records, outer, inner) <==> forall fields <- records :: RecordSurvives(fields, outer, inner)
  {
    OuterSplit(records, outer);
    SplitInvertsJoin(PrintRecords(records), ';', outer);
    SplitEachComesBack(AllTaken(PrintRecords(records), outer), records, outer, inner);
  }

  /**
   * All records of any fields, separators, backslashes and empty texts included, come back exactly
   * when the outer split keeps the escapes and the inner one undoes them.
   */
  lemma RecordsRoundTrip(outer: bool, inner: bool)
    ensures (forall records :: ComesBack(records, outer, inner)) <==> !outer && inner
  {
    if !outer && inner {
      forall records
        ensures ComesBack(records, outer, inner)
      {
        RecordsSurvive(records, outer, inner);
      }
    } else {
      var records := [["/"]];
      RecordsSurvive(records, outer, inner);
      assert "/"[0] == '/' && '/' in SEPARATORS;
      assert !FieldSurvives("/", outer, inner);
      assert records[0] == ["/"] && !RecordSurvives(records[0], outer, inner);
      assert !ComesBack(records, outer, inner);
    }
  }

  // ---- fields without a known number -----------------------------------------------------------

  /** With "while text is left" loops a list of fields survives exactly when its last field is not empty. */
  lemma FieldLoopRoundTrip(fields: seq<string>)
    ensures SplitAll(PrintRecord(fields), '/', true) == fields <==> fields == [] || fields[|fields| - 1] != []
  {
    QuotedFieldsAreClosed(fields);
    var items := QuotedFields(fields);
    SplitAllOfJoin(items, '/', true);
    LastQuoted(fields);
    if fields != [] && items[|items| - 1] == [] {
      AllTakenLength(items[..|items| - 1]);
    }
  }

  lemma {:induction false} LastQuoted(fields: seq<string>)
    ensures |QuotedFields(fields)| == |fields|
    ensures fields != [] ==> (QuotedFields(fields)[|fields| - 1] == [] <==> fields[|fields| - 1] == [])
  {
    if |fields| > 1 {
      LastQuoted(fields[1..]);
    } else if fields != [] {
      assert Quoted(fields[0], SEPARATORS) == [] <==> fields[0] == [];
    }
  }

  lemma AllTakenLength(items: seq<string>)
    ensures |AllTaken(items, true)| == |items|
  {
  }
}
