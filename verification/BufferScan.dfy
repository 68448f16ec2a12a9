/** What repeated `scan` calls make of the unread bytes. */
module BufferScan {
  import opened Bytes
  import opened BufferModel

  /** The pieces of all scans up to the first that fails. */
  ghost function ScanPieces(d: bytes, sub: bytes, from: nat, limit: nat): seq<bytes>
    requires limit <= |d| && sub != []
    decreases limit - from
  {
    var p := FirstHit(d, sub, from, limit);
    if p == -1 then [] else [ScanPiece(d, from, p)] + ScanPieces(d, sub, p + |sub|, limit)
  }

  /** Where the scan that fails leaves the read position. */
  ghost function ScanRest(d: bytes, sub: bytes, from: nat, limit: nat): nat
    requires limit <= |d| && sub != []
    decreases limit - from
  {
    var p := FirstHit(d, sub, from, limit);
    if p == -1 then from else ScanRest(d, sub, p + |sub|, limit)
  }

  /** These are the results of calling `scan` until it fails. */
  lemma ScanAllSteps(b: Buf, sub: bytes)
    requires b.Valid() && sub != []
    ensures var (found, piece, b1) := Scan(b, sub);
            if found then
              && ScanPieces(b.data, sub, b.posRead, b.posWrite) == [piece] + ScanPieces(b.data, sub, b1.posRead, b.posWrite)
              && ScanRest(b.data, sub, b.posRead, b.posWrite) == ScanRest(b.data, sub, b1.posRead, b.posWrite)
              && b.posRead < b1.posRead <= b.posWrite && b1 == b.(posRead := b1.posRead)
            else
              && ScanPieces(b.data, sub, b.posRead, b.posWrite) == []
              && ScanRest(b.data, sub, b.posRead, b.posWrite) == b.posRead && b1 == b
  {
  }

  /** A field as `scan` hands it out: with the first byte of the delimiter, unless it is empty. */
  function Piece(field: bytes, sub: bytes): bytes
    requires sub != []
  {
    if field == [] then [] else field + [sub[0]]
  }

  function Pieces(fields: seq<bytes>, sub: bytes): seq<bytes>
    requires sub != []
  {
    if fields == [] then [] else [Piece(fields[0], sub)] + Pieces(fields[1..], sub)
  }

  function Delimited(fields: seq<bytes>, sub: bytes): bytes {
    if fields == [] then [] else fields[0] + sub + Delimited(fields[1..], sub)
  }

  /** In `field + sub` the delimiter occurs at the very end and nowhere earlier. */
  ghost predicate Separable(field: bytes, sub: bytes) {
    forall p: nat :: p < |field| ==> !OccursAt(field + sub, sub, p, |field + sub|)
  }

  ghost predicate AllSeparable(fields: seq<bytes>, sub: bytes) {
    fields == [] || (Separable(fields[0], sub) && AllSeparable(fields[1..], sub))
  }

  ghost predicate Free(tail: bytes, sub: bytes) {
    forall p: nat :: p < |tail| ==> !OccursAt(tail, sub, p, |tail|)
  }

  /** An occurrence inside a window of the data is an occurrence in the data, and the other way round. */
  lemma OccursInWindow(d: bytes, sub: bytes, from: nat, to: nat, p: nat, limit: nat)
    requires from <= from + p + |sub| <= to <= limit <= |d|
    ensures OccursAt(d[from..to], sub, p, to - from) <==> OccursAt(d, sub, from + p, limit)
  {
    forall k | 0 <= k < |sub|
      ensures d[from..to][p + k] == sub[k] <==> d[from + p + k] == sub[k]
    {
    }
  }

  /** The leftmost hit cuts off a separable field; any separable field in front is what is cut off. */
  lemma FirstHitCutsField(d: bytes, sub: bytes, from: nat, limit: nat, n: nat)
    requires limit <= |d| && sub != [] && from + n + |sub| <= limit
    requires d[from + n..from + n + |sub|] == sub
    ensures FirstHit(d, sub, from, limit) == from + n <==> Separable(d[from..from + n], sub)
  {
    var field := d[from..from + n];
    assert field + sub == d[from..from + n + |sub|];
    assert Hit(d, sub, from + n, limit);
    if Separable(field, sub) {
      forall q: nat | from <= q < from + n
        ensures !Hit(d, sub, q, limit)
      {
        OccursInWindow(d, sub, from, from + n + |sub|, q - from, limit);
      }
    } else {
      var p: nat :| p < n && OccursAt(field + sub, sub, p, |field + sub|);
      OccursInWindow(d, sub, from, from + n + |sub|, p, limit);
      assert Hit(d, sub, from + p, limit);
    }
  }

  lemma NoHitIsFree(d: bytes, sub: bytes, from: nat, limit: nat)
    requires from <= limit <= |d| && sub != []
    ensures FirstHit(d, sub, from, limit) == -1 <==> Free(d[from..limit], sub)
  {
    var tail := d[from..limit];
    if Free(tail, sub) {
      forall q: nat | from <= q < limit
        ensures !Hit(d, sub, q, limit)
      {
        if q + |sub| <= limit {
          OccursInWindow(d, sub, from, limit, q - from, limit);
        }
      }
    } else {
      var p: nat :| p < |tail| && OccursAt(tail, sub, p, |tail|);
      OccursInWindow(d, sub, from, limit, p, limit);
      assert Hit(d, sub, from + p, limit);
    }
  }

  /** What the scans cut off, without the extra byte. */
  ghost function Fields(d: bytes, sub: bytes, from: nat, limit: nat): seq<bytes>
    requires limit <= |d| && sub != []
    decreases limit - from
  {
    var p := FirstHit(d, sub, from, limit);
    if p == -1 then [] else [d[from..p]] + Fields(d, sub, p + |sub|, limit)
  }

  /** One more field, or the end. */
  lemma FieldsStep(d: bytes, sub: bytes, from: nat, limit: nat)
    requires from <= limit <= |d| && sub != []
    ensures var p := FirstHit(d, sub, from, limit);
            if p == -1 then Fields(d, sub, from, limit) == [] && ScanRest(d, sub, from, limit) == from
            else
              && from <= p && p + |sub| <= limit && d[p..p + |sub|] == sub
              && Fields(d, sub, from, limit) == [d[from..p]] + Fields(d, sub, p + |sub|, limit)
              && ScanRest(d, sub, from, limit) == ScanRest(d, sub, p + |sub|, limit)
  {
  }

  lemma PieceOfField(d: bytes, sub: bytes, from: nat, p: nat)
    requires from <= p < |d| && sub != [] && d[p] == sub[0]
    ensures ScanPiece(d, from, p) == Piece(d[from..p], sub)
  {
    assert d[from..p + 1] == d[from..p] + [d[p]];
  }

  lemma PiecesCons(field: bytes, rest: seq<bytes>, sub: bytes)
    requires sub != []
    ensures Pieces([field] + rest, sub) == [Piece(field, sub)] + Pieces(rest, sub)
  {
    assert ([field] + rest)[1..] == rest;
  }

  /** `scan` hands out exactly these fields, each with its extra byte. */
  lemma {:induction false} PiecesAreFields(d: bytes, sub: bytes, from: nat, limit: nat)
    requires limit <= |d| && sub != []
    ensures ScanPieces(d, sub, from, limit) == Pieces(Fields(d, sub, from, limit), sub)
    decreases limit - from
  {
    var p := FirstHit(d, sub, from, limit);
    if p != -1 {
      var next := p + |sub|;
      PieceOfField(d, sub, from, p);
      PiecesAreFields(d, sub, next, limit);
      PiecesCons(d[from..p], Fields(d, sub, next, limit), sub);
    }
  }

  lemma DelimitedCons(field: bytes, rest: seq<bytes>, sub: bytes, tail: bytes)
    ensures Delimited([field] + rest, sub) + tail == field + (sub + (Delimited(rest, sub) + tail))
  {
    var d := Delimited(rest, sub);
    assert ([field] + rest)[1..] == rest;
    Shift(field + sub, d, tail);
    Shift(field, sub, d + tail);
  }

  lemma SliceInThree(d: bytes, from: nat, p: nat, next: nat, limit: nat)
    requires from <= p <= next <= limit <= |d|
    ensures d[from..limit] == d[from..p] + (d[p..next] + d[next..limit])
  {
  }

  /** No byte is lost between the fields, the delimiters and the tail. */
  lemma {:induction false} FieldsCover(d: bytes, sub: bytes, from: nat, limit: nat)
    requires from <= limit <= |d| && sub != []
    ensures from <= ScanRest(d, sub, from, limit) <= limit
    ensures d[from..limit] == Delimited(Fields(d, sub, from, limit), sub) + d[ScanRest(d, sub, from, limit)..limit]
    decreases limit - from
  {
    var p := FirstHit(d, sub, from, limit);
    FieldsStep(d, sub, from, limit);
    if p != -1 {
      var next := p + |sub|;
      FieldsCover(d, sub, next, limit);
      SliceInThree(d, from, p, next, limit);
      DelimitedCons(d[from..p], Fields(d, sub, next, limit), sub, d[ScanRest(d, sub, next, limit)..limit]);
    }
  }

  /** Every field ends at the first delimiter after its start, and the tail holds none. */
  lemma {:induction false} FieldsAreSeparable(d: bytes, sub: bytes, from: nat, limit: nat)
    requires from <= limit <= |d| && sub != []
    ensures from <= ScanRest(d, sub, from, limit) <= limit
    ensures AllSeparable(Fields(d, sub, from, limit), sub)
    ensures Free(d[ScanRest(d, sub, from, limit)..limit], sub)
    decreases limit - from
  {
    var p := FirstHit(d, sub, from, limit);
    if p == -1 {
      NoHitIsFree(d, sub, from, limit);
    } else {
      FirstHitCutsField(d, sub, from, limit, p - from);
      FieldsAreSeparable(d, sub, p + |sub|, limit);
      var rest := Fields(d, sub, p + |sub|, limit);
      assert ([d[from..p]] + rest)[1..] == rest;
    }
  }

  lemma FieldIsCut(d: bytes, sub: bytes, from: nat, limit: nat, field: bytes, after: bytes)
    requires from <= limit <= |d| && sub != [] && Separable(field, sub)
    requires d[from..limit] == field + (sub + after)
    ensures var p := from + |field|;
            && FirstHit(d, sub, from, limit) == p && d[from..p] == field
            && p + |sub| <= limit && d[p + |sub|..limit] == after
  {
    SliceParts(d, from, limit, field, sub + after);
    SliceParts(d, from + |field|, limit, sub, after);
    FirstHitCutsField(d, sub, from, limit, |field|);
  }

  /** The first field is cut off in front of the others. */
  lemma FieldIsRecovered(d: bytes, sub: bytes, from: nat, limit: nat, field: bytes, rest: seq<bytes>, tail: bytes)
    requires from <= limit <= |d| && sub != [] && Separable(field, sub)
    requires d[from..limit] == Delimited([field] + rest, sub) + tail
    ensures var next := from + |field| + |sub|;
            && next <= limit && d[next..limit] == Delimited(rest, sub) + tail
            && Fields(d, sub, from, limit) == [field] + Fields(d, sub, next, limit)
            && ScanRest(d, sub, from, limit) == ScanRest(d, sub, next, limit)
  {
    DelimitedCons(field, rest, sub, tail);
    FieldIsCut(d, sub, from, limit, field, Delimited(rest, sub) + tail);
    FieldsStep(d, sub, from, limit);
  }

  /** Scanning recovers the fields and the tail of every text that was put together from such parts. */
  lemma {:induction false} ScanRecovers(d: bytes, sub: bytes, from: nat, limit: nat, fields: seq<bytes>, tail: bytes)
    requires from <= limit <= |d| && sub != []
    requires d[from..limit] == Delimited(fields, sub) + tail
    requires AllSeparable(fields, sub) && Free(tail, sub)
    ensures Fields(d, sub, from, limit) == fields
    ensures ScanRest(d, sub, from, limit) == limit - |tail|
    decreases fields
  {
    if fields == [] {
      assert d[from..limit] == tail;
      NoHitIsFree(d, sub, from, limit);
    } else {
      assert fields == [fields[0]] + fields[1..];
      FieldIsRecovered(d, sub, from, limit, fields[0], fields[1..], tail);
      ScanRecovers(d, sub, from + |fields[0]| + |sub|, limit, fields[1..], tail);
    }
  }

  /**
   * The bytes split into separable fields and a delimiter-free tail in exactly one way, and that
   * is the way repeated `scan` splits them.
   */
  lemma ScanIsTheOnlySplit(d: bytes, sub: bytes, from: nat, limit: nat, fields: seq<bytes>, tail: bytes)
    requires from <= limit <= |d| && sub != []
    ensures ScanPieces(d, sub, from, limit) == Pieces(Fields(d, sub, from, limit), sub)
    ensures Fields(d, sub, from, limit) == fields && ScanRest(d, sub, from, limit) == limit - |tail|
              && tail == d[limit - |tail|..limit]
       <==> d[from..limit] == Delimited(fields, sub) + tail
              && AllSeparable(fields, sub) && Free(tail, sub)
  {
    PiecesAreFields(d, sub, from, limit);
    FieldsCover(d, sub, from, limit);
    FieldsAreSeparable(d, sub, from, limit);
    if d[from..limit] == Delimited(fields, sub) + tail
      && AllSeparable(fields, sub) && Free(tail, sub) {
      ScanRecovers(d, sub, from, limit, fields, tail);
      SliceParts(d, from, limit, Delimited(fields, sub), tail);
    }
  }
}
