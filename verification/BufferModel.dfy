/** The values a `Buffer` goes through, and what each of its operations does to them. */
module BufferModel {
  import opened Bytes

  const INT_LIMIT: nat := 0x8000_0000
  const WORD: nat := 0x1_0000_0000

  datatype Buf = Buf(data: bytes, posRead: nat, posWrite: nat, startSection: nat) {

    /** The read position may be one past the end: `getLine` leaves it there after an unterminated line. */
    ghost predicate Valid() {
      posWrite <= |data| && posRead <= |data| + 1
    }

    /** What is packed but not yet unpacked. */
    ghost function Pending(): bytes
      requires posRead <= posWrite <= |data|
    {
      data[posRead..posWrite]
    }

    /** `resize(n)` of a 32-bit unsigned `n`; from 2^31 on Qt sees a negative size. */
    function Resize(n: nat): Buf {
      var bytes := if n >= INT_LIMIT then []
                   else if n <= |data| then data[..n]
                   else data + seq(n - |data|, _ => 0);
      Buf(bytes, if posRead > n then n else posRead, if posWrite > n then n else posWrite, startSection)
    }

    function IncReadPos(n: int): Buf
      requires posRead + n >= 0
    {
      this.(posRead := if posRead + n > posWrite then posWrite else posRead + n)
    }

    function SetReadPos(n: nat): Buf {
      this.(posRead := if n > posWrite then posWrite else n)
    }

    function SetWritePos(n: nat): Buf {
      var b := this.(posWrite := n, posRead := if posRead > n then n else posRead);
      if n > |data| then b.Resize(n) else b
    }

    /** `pack`: overwrite at the write position, growing the array when it is too short. */
    function Pack(d: bytes): Buf
      requires Valid()
    {
      var end := posWrite + |d|;
      this.(data := data[..posWrite] + d + (if end < |data| then data[end..] else []), posWrite := end)
    }

    /** `unpack`: what is handed out is bounded by the size of the array, not by the write position. */
    function Unpack(n: nat): (bytes, Buf)
      requires posRead <= |data|
    {
      var readn := if n < |data| - posRead then n else |data| - posRead;
      (data[posRead..posRead + readn], this.(posRead := posRead + readn))
    }

    /** `QByteArray::operator+=`, which leaves the cursors alone. */
    function Append(d: bytes): Buf {
      this.(data := data + d)
    }
  }

  function Least(a: nat, b: nat): nat {
    if a < b then a else b
  }

  /** The cursors go where they are put, as far as the bounds allow, and what is in the array stays. */
  lemma CursorsStayOrdered(b: Buf, n: nat)
    requires b.Valid() && n < INT_LIMIT
    ensures b.SetReadPos(n) == b.(posRead := Least(n, b.posWrite)) && b.SetReadPos(n).Valid()
    ensures b.IncReadPos(n) == b.(posRead := Least(b.posRead + n, b.posWrite)) && b.IncReadPos(n).Valid()
    ensures var w := b.SetWritePos(n);
            && w.Valid() && w.posWrite == n && w.posRead == Least(b.posRead, n) && w.startSection == b.startSection
            && b.data <= w.data && |w.data| == |b.data| + n - Least(|b.data|, n)
    ensures var r := b.Resize(n);
            && r.Valid() && |r.data| == n && r.data[..Least(n, |b.data|)] == b.data[..Least(n, |b.data|)]
            && r.posRead == Least(b.posRead, n) && r.posWrite == Least(b.posWrite, n) && r.startSection == b.startSection
  {
  }

  const EMPTY := Buf([], 0, 0, 0)

  // ---- scan -----------------------------------------------------------------------------------

  ghost predicate OccursAt(d: bytes, sub: bytes, p: nat, limit: nat) {
    p + |sub| <= limit <= |d| && forall k :: 0 <= k < |sub| ==> d[p + k] == sub[k]
  }

  /** Where `scan` stops. With an empty delimiter the first character looked for is the terminating NUL. */
  ghost predicate Hit(d: bytes, sub: bytes, p: nat, limit: nat)
    requires limit <= |d|
  {
    p < limit && if sub == [] then d[p] == 0 else OccursAt(d, sub, p, limit)
  }

  /** The leftmost hit at or after `from`, or -1 when there is none. */
  ghost predicate IsFirstHit(d: bytes, sub: bytes, from: nat, limit: nat, p: int)
    requires limit <= |d|
  {
    && (p == -1 || (from <= p < limit && Hit(d, sub, p, limit)))
    && forall q: nat :: from <= q < (if p == -1 then limit else p) ==> !Hit(d, sub, q, limit)
  }

  lemma FirstHitExists(d: bytes, sub: bytes, from: nat, limit: nat)
    requires limit <= |d|
    ensures exists p :: IsFirstHit(d, sub, from, limit, p)
    decreases limit - from
  {
    if from >= limit {
      assert IsFirstHit(d, sub, from, limit, -1);
    } else if Hit(d, sub, from, limit) {
      assert IsFirstHit(d, sub, from, limit, from);
    } else {
      FirstHitExists(d, sub, from + 1, limit);
      var p :| IsFirstHit(d, sub, from + 1, limit, p);
      assert IsFirstHit(d, sub, from, limit, p);
    }
  }

  ghost function FirstHit(d: bytes, sub: bytes, from: nat, limit: nat): (p: int)
    requires limit <= |d|
    ensures IsFirstHit(d, sub, from, limit, p)
  {
    FirstHitExists(d, sub, from, limit);
    var p :| IsFirstHit(d, sub, from, limit, p);
    p
  }

  /**
   * The piece handed out also carries the byte after it, the first one of the delimiter,
   * unless it is empty.
   */
  function ScanPiece(d: bytes, from: nat, p: nat): bytes
    requires from <= p < |d|
  {
    if p == from then [] else d[from..p + 1]
  }

  ghost function Scan(b: Buf, sub: bytes): (bool, bytes, Buf)
    requires b.Valid()
  {
    var p := FirstHit(b.data, sub, b.posRead, b.posWrite);
    if p == -1 then (false, [], b)
    else (true, ScanPiece(b.data, b.posRead, p), b.(posRead := p + |sub|))
  }

  /** An empty delimiter stands for the terminating NUL: the scan stops in front of the first NUL byte. */
  lemma EmptyDelimiterFindsNul(b: Buf)
    requires b.Valid() && b.posRead <= b.posWrite
    ensures var (found, piece, b1) := Scan(b, []);
            && (if found then b.posRead <= b1.posRead < b.posWrite && b.data[b1.posRead] == 0 && b1 == b.(posRead := b1.posRead)
                else b1 == b && piece == [])
            && forall j :: b.posRead <= j < (if found then b1.posRead else b.posWrite) ==> b.data[j] != 0
  {
    var p := FirstHit(b.data, [], b.posRead, b.posWrite);
    forall j | b.posRead <= j < (if p == -1 then b.posWrite else p)
      ensures b.data[j] != 0
    {
      assert !Hit(b.data, [], j, b.posWrite);
    }
  }

  // ---- sections and lines ---------------------------------------------------------------------

  predicate IsStart(d: bytes, i: nat) {
    i < |d| && d[i] == OPEN_BRACKET && (i == 0 || d[i - 1] == NEWLINE)
  }

  predicate IsEnd(d: bytes, i: nat) {
    i < |d| && d[i] == CLOSE_BRACKET && (i == |d| - 1 || d[i + 1] == NEWLINE)
  }

  /** `i` is the first section start at or after `from`, or -1 when there is none. */
  ghost predicate IsNextStart(d: bytes, from: nat, i: int) {
    && (i == -1 || (from <= i && IsStart(d, i)))
    && forall j: nat :: from <= j < (if i == -1 then |d| else i) ==> !IsStart(d, j)
  }

  lemma NextStartExists(d: bytes, from: nat)
    ensures exists i :: IsNextStart(d, from, i)
    decreases |d| - from
  {
    if from >= |d| {
      assert IsNextStart(d, from, -1);
    } else if IsStart(d, from) {
      assert IsNextStart(d, from, from);
    } else {
      NextStartExists(d, from + 1);
      var i :| IsNextStart(d, from + 1, i);
      assert IsNextStart(d, from, i);
    }
  }

  ghost function NextStart(d: bytes, from: nat): (i: int)
    ensures IsNextStart(d, from, i)
  {
    NextStartExists(d, from);
    var i :| IsNextStart(d, from, i);
    i
  }

  /** `i` is the first section end at or after `from`, or -1 when there is none. */
  ghost predicate IsNextEnd(d: bytes, from: nat, i: int) {
    && (i == -1 || (from <= i && IsEnd(d, i)))
    && forall j: nat :: from <= j < (if i == -1 then |d| else i) ==> !IsEnd(d, j)
  }

  lemma NextEndExists(d: bytes, from: nat)
    ensures exists i :: IsNextEnd(d, from, i)
    decreases |d| - from
  {
    if from >= |d| {
      assert IsNextEnd(d, from, -1);
    } else if IsEnd(d, from) {
      assert IsNextEnd(d, from, from);
    } else {
      NextEndExists(d, from + 1);
      var i :| IsNextEnd(d, from + 1, i);
      assert IsNextEnd(d, from, i);
    }
  }

  ghost function NextEnd(d: bytes, from: nat): (i: int)
    ensures IsNextEnd(d, from, i)
  {
    NextEndExists(d, from);
    var i :| IsNextEnd(d, from, i);
    i
  }

  /** The read position after a header that ends at `e`: past one newline, but never at or past the end. */
  function AfterHeader(d: bytes, e: nat): nat
    requires e < |d|
  {
    var p := if e + 1 < |d| && d[e + 1] == NEWLINE then e + 2 else e + 1;
    if p >= |d| then |d| - 1 else p
  }

  ghost function GetSection(b: Buf, skip: bool): (bytes, Buf) {
    var d := b.data;
    var from := if skip then NextStart(d, b.posRead + 1) else b.posRead;
    if from == -1 then ([], b)
    else
      var s := NextStart(d, from);
      if s == -1 then ([], b)
      else
        var e := NextEnd(d, s);
        if e == -1 then ([], b)
        else (d[s + 1..e], EnterSection(b, s, e))
  }

  /** The cursors are put around what follows the header `[s..e]`, up to the next section. */
  ghost function EnterSection(b: Buf, s: nat, e: nat): Buf
    requires e < |b.data|
  {
    var w := NextStart(b.data, e);
    Buf(b.data, AfterHeader(b.data, e), if w == -1 then |b.data| else w, s)
  }

  /** An opening bracket at the start of the array or of a line. */
  ghost predicate Opens(d: bytes, i: nat) {
    i < |d| && d[i] == 91 && (i > 0 ==> d[i - 1] == 10)
  }

  /** A closing bracket at the end of a line or of the array. */
  ghost predicate Closes(d: bytes, i: nat) {
    i < |d| && d[i] == 93 && (i + 1 < |d| ==> d[i + 1] == 10)
  }

  /** The first header at or after `from` reaches from `s` to `e`. */
  ghost predicate FirstHeader(d: bytes, from: nat, s: nat, e: nat) {
    && from <= s < e && Opens(d, s) && Closes(d, e)
    && (forall j: nat :: from <= j < s ==> !Opens(d, j)) && forall j: nat :: s <= j < e ==> !Closes(d, j)
  }

  /** The first header that is left is found; when there is none, nothing changes. */
  lemma SectionsAreFoundByHeader(b: Buf, skip: bool, s: nat, e: nat)
    ensures var from := if skip then b.posRead + 1 else b.posRead;
            && (FirstHeader(b.data, from, s, e) ==> GetSection(b, skip) == (b.data[s + 1..e], EnterSection(b, s, e)))
            && ((forall i: nat, j: nat :: from <= i < j && Opens(b.data, i) ==> !Closes(b.data, j))
                ==> GetSection(b, skip) == ([], b))
  {
    var from := if skip then b.posRead + 1 else b.posRead;
    if FirstHeader(b.data, from, s, e) {
      HeaderFound(b.data, from, s, e);
    }
    if forall i: nat, j: nat :: from <= i < j && Opens(b.data, i) ==> !Closes(b.data, j) {
      HeaderMissing(b.data, from);
    }
  }

  lemma OpensIsStart(d: bytes, i: nat)
    ensures Opens(d, i) <==> IsStart(d, i)
    ensures Closes(d, i) <==> IsEnd(d, i)
  {
  }

  lemma HeaderFound(d: bytes, from: nat, s: nat, e: nat)
    requires FirstHeader(d, from, s, e)
    ensures NextStart(d, from) == s && NextStart(d, s) == s && NextEnd(d, s) == e
  {
    forall j: nat
      ensures Opens(d, j) <==> IsStart(d, j)
      ensures Closes(d, j) <==> IsEnd(d, j)
    {
      OpensIsStart(d, j);
    }
  }

  lemma HeaderMissing(d: bytes, from: nat)
    requires forall i: nat, j: nat :: from <= i < j && Opens(d, i) ==> !Closes(d, j)
    ensures var s := NextStart(d, from);
            s == -1 || (NextStart(d, s) == s && NextEnd(d, s) == -1)
  {
    var s := NextStart(d, from);
    if s != -1 {
      OpensIsStart(d, s);
      forall j: nat | s <= j
        ensures !IsEnd(d, j)
      {
        OpensIsStart(d, j);
      }
    }
  }

  /** The cursors behind a header: past one newline but never past the last byte, and at the next opening or the end. */
  lemma EnteredBehindHeader(b: Buf, s: nat, e: nat)
    requires Closes(b.data, e)
    ensures var b1, n := EnterSection(b, s, e), |b.data|;
            && b1.data == b.data && b1.startSection == s
            && b1.posRead == (if e + 1 == n then e else if e + 2 == n then e + 1 else e + 2)
            && e <= b1.posWrite <= n && (b1.posWrite < n ==> Opens(b.data, b1.posWrite))
            && forall j: nat :: e <= j < b1.posWrite ==> !Opens(b.data, j)
  {
    forall j: nat
      ensures Opens(b.data, j) <==> IsStart(b.data, j)
    {
      OpensIsStart(b.data, j);
    }
  }

  /** After the newline that ends a line one further newline is skipped. */
  function AfterLine(d: bytes, e: nat): nat {
    if e + 1 < |d| && d[e + 1] == NEWLINE then e + 2 else e + 1
  }

  function GetLine(b: Buf): (bytes, Buf)
    requires b.Valid()
  {
    if b.posRead >= b.posWrite then ([], b)
    else
      var i := IndexOf(b.data, NEWLINE, b.posRead);
      var e := if i == -1 then |b.data| else i;
      (b.data[b.posRead..e], b.(posRead := AfterLine(b.data, e)))
  }

  /**
   * A line runs to the first newline, or to the end of the array, even beyond the write position.
   * The cursor goes behind the newline and behind one more that follows it, or one past the array.
   */
  lemma GetLineIsLine(b: Buf)
    requires b.Valid() && b.posRead <= |b.data| && b.posRead < b.posWrite
    ensures var (line, b1) := GetLine(b);
            var e := b.posRead + |line|;
            && NEWLINE !in line && e <= |b.data| && line == b.data[b.posRead..e] && (e < |b.data| ==> b.data[e] == NEWLINE)
            && b1 == b.(posRead := if e + 1 < |b.data| && b.data[e + 1] == NEWLINE then e + 2 else e + 1)
  {
  }

  /** An unterminated line, and nothing else, leaves the read position one past the end of the array. */
  lemma GetLineOverruns(b: Buf)
    requires b.Valid() && b.posRead <= |b.data|
    ensures GetLine(b).1.posRead > |b.data| <==> b.posRead < b.posWrite && NEWLINE !in b.data[b.posRead..]
  {
    var i := IndexOf(b.data, NEWLINE, b.posRead);
    if i == -1 {
      assert forall j :: 0 <= j < |b.data| - b.posRead ==> b.data[b.posRead..][j] == b.data[b.posRead + j];
    } else {
      assert b.data[b.posRead..][i - b.posRead] == NEWLINE;
    }
  }

  // ---- integers in network byte order ---------------------------------------------------------

  datatype Width = CharWidth | ShortWidth | LongWidth {
    function Bytes(): nat {
      match this case CharWidth => 1 case ShortWidth => 2 case LongWidth => 4
    }
  }

  type uint16 = x: int | 0 <= x < 0x1_0000

  /** What `operator<<` takes. A `long` may be negative or wider than the four bytes that are written. */
  datatype Value = Char(c: byte) | Short(s: uint16) | Long(l: int) {
    function Width(): Width {
      match this case Char(_) => CharWidth case Short(_) => ShortWidth case Long(_) => LongWidth
    }

    function Wire(): (w: bytes)
      ensures |w| == Width().Bytes()
    {
      match this
      case Char(c) => [c]
      case Short(s) => [(s / 0x100) as byte, (s % 0x100) as byte]
      case Long(l) =>
        var u := l % WORD;
        [(u / 0x100_0000) as byte, (u / 0x1_0000 % 0x100) as byte, (u / 0x100 % 0x100) as byte, (u % 0x100) as byte]
    }

    /** The value that comes back: everything but the low 32 bits of a `long` is lost. */
    function Stored(): Value {
      if Long? then Long(l % WORD) else this
    }
  }

  function FromWire(w: Width, d: bytes): Value
    requires |d| == w.Bytes()
  {
    match w
    case CharWidth => Char(d[0])
    case ShortWidth => Short(d[0] as int * 0x100 + d[1] as int)
    case LongWidth => Long(d[0] as int * 0x100_0000 + d[1] as int * 0x1_0000 + d[2] as int * 0x100 + d[3] as int)
  }

  /** `operator>>`: a short read yields zero, yet the bytes that were there are consumed. */
  function Get(b: Buf, w: Width): (Value, Buf)
    requires b.posRead <= |b.data|
  {
    var (d, b') := b.Unpack(w.Bytes());
    (FromWire(w, if |d| == w.Bytes() then d else seq(w.Bytes(), _ => 0)), b')
  }

  /** No operation takes the cursors out of bounds. */
  lemma OperationsKeepValid(b: Buf, d: bytes, n: nat, sub: bytes, skip: bool)
    requires b.Valid()
    ensures b.Pack(d).Valid()
    ensures b.posRead <= |b.data| ==> b.Unpack(n).1.Valid()
    ensures GetLine(b).1.Valid() && GetSection(b, skip).1.Valid() && Scan(b, sub).2.Valid()
  {
    var p := FirstHit(b.data, sub, b.posRead, b.posWrite);
    if p != -1 {
      assert Hit(b.data, sub, p, b.posWrite);
    }
  }
}
