/** The buffer as a queue of bytes, and as a queue of integers in network byte order. */
module BufferQueue {
  import opened Bytes
  import opened BufferModel

  datatype Op = PackOp(d: bytes) | UnpackOp(n: nat)

  ghost function Step(b: Buf, op: Op): (bytes, Buf)
    requires b.Valid() && b.posRead <= |b.data|
  {
    match op
    case PackOp(d) => ([], b.Pack(d))
    case UnpackOp(n) => b.Unpack(n)
  }

  /** All bytes that a run hands out, and the buffer it leaves. */
  ghost function Run(b: Buf, ops: seq<Op>): (r: (bytes, Buf))
    requires b.Valid() && b.posRead <= |b.data|
    ensures r.1.Valid() && r.1.posRead <= |r.1.data|
    decreases ops
  {
    if ops == [] then ([], b)
    else
      var (out, b1) := Step(b, ops[0]);
      var (outs, b2) := Run(b1, ops[1..]);
      (out + outs, b2)
  }

  function Packed(ops: seq<Op>): bytes {
    if ops == [] then []
    else (if ops[0].PackOp? then ops[0].d else []) + Packed(ops[1..])
  }

  ghost predicate Queued(b: Buf) {
    b.posRead <= b.posWrite <= |b.data|
  }

  /** The read position never passes the write position during the run. */
  ghost predicate StaysQueued(b: Buf, ops: seq<Op>)
    requires b.Valid() && b.posRead <= |b.data|
    decreases ops
  {
    Queued(b) && (ops != [] ==> StaysQueued(Step(b, ops[0]).1, ops[1..]))
  }

  /**
   * Read off the numbers of bytes alone: with `pending` bytes packed and `spare` room behind them,
   * no `unpack` asks for more than is packed, unless there is no spare room.
   */
  predicate Modest(pending: nat, spare: nat, ops: seq<Op>)
    decreases ops
  {
    if ops == [] then true
    else
      match ops[0]
      case PackOp(d) => Modest(pending + |d|, if |d| < spare then spare - |d| else 0, ops[1..])
      case UnpackOp(n) => (n <= pending || spare == 0) && Modest(if n < pending then pending - n else 0, spare, ops[1..])
  }

  /**
   * With spare room in the array, as after `Buffer(128)`, `unpack` may hand out bytes that were
   * never packed. It stays within the packed bytes exactly when it asks for no more than those,
   * or when there is no spare room.
   */
  lemma UnpackStaysWithinPacked(b: Buf, n: nat)
    requires Queued(b)
    ensures Queued(b.Unpack(n).1) <==> n <= |b.Pending()| || b.posWrite == |b.data|
    ensures n <= |b.Pending()| ==> b.Unpack(n).0 + b.Unpack(n).1.Pending() == b.Pending()
    ensures b.Unpack(n).0 <= b.data[b.posRead..] && |b.Unpack(n).0| == Least(n, |b.data| - b.posRead)
  {
  }

  /** The same over runs. */
  lemma {:induction false} RunStaysWithinPacked(b: Buf, ops: seq<Op>)
    requires Queued(b)
    ensures StaysQueued(b, ops) <==> Modest(|b.Pending()|, |b.data| - b.posWrite, ops)
    decreases ops
  {
    if ops != [] {
      var b1 := Step(b, ops[0]).1;
      if Queued(b1) {
        RunStaysWithinPacked(b1, ops[1..]);
      }
    }
  }

  /** An array without spare room stays one. */
  lemma {:induction false} FullArrayIsModest(pending: nat, ops: seq<Op>)
    ensures Modest(pending, 0, ops)
    decreases ops
  {
    if ops != [] {
      match ops[0]
      case PackOp(d) => FullArrayIsModest(pending + |d|, ops[1..]);
      case UnpackOp(n) => FullArrayIsModest(if n < pending then pending - n else 0, ops[1..]);
    }
  }

  lemma PackIsFifo(b: Buf, d: bytes)
    requires Queued(b)
    ensures b.Pack(d).Pending() == b.Pending() + d
  {
    var b1 := b.Pack(d);
    assert b1.data[..b1.posWrite] == b.data[..b.posWrite] + d;
    assert b1.Pending() == b1.data[..b1.posWrite][b.posRead..];
  }

  lemma StepIsFifo(b: Buf, op: Op)
    requires Queued(b) && Queued(Step(b, op).1)
    ensures Step(b, op).0 + Step(b, op).1.Pending() == b.Pending() + Packed([op])
  {
    match op
    case PackOp(d) =>
      PackIsFifo(b, d);
      assert Packed([op]) == d;
    case UnpackOp(n) =>
      assert Packed([op]) == [];
  }

  /** First in, first out: nothing is lost, duplicated or reordered by any interleaving that stays within what is packed. */
  lemma {:induction false} RunIsFifo(b: Buf, ops: seq<Op>)
    requires Queued(b) && StaysQueued(b, ops)
    ensures Queued(Run(b, ops).1)
    ensures Run(b, ops).0 + Run(b, ops).1.Pending() == b.Pending() + Packed(ops)
    decreases ops
  {
    if ops == [] {
      assert b.Pending() + [] == b.Pending();
    } else {
      var (out, b1) := Step(b, ops[0]);
      var (outs, b2) := Run(b1, ops[1..]);
      StepIsFifo(b, ops[0]);
      RunIsFifo(b1, ops[1..]);
      assert Packed(ops) == Packed([ops[0]]) + Packed(ops[1..]);
      Glue(out, outs, b2.Pending(), b1.Pending(), Packed(ops[1..]), b.Pending(), Packed([ops[0]]));
    }
  }

  lemma Glue<T>(out: seq<T>, outs: seq<T>, after: seq<T>, between: seq<T>, later: seq<T>, before: seq<T>, now: seq<T>)
    requires out + between == before + now
    requires outs + after == between + later
    ensures (out + outs) + after == before + (now + later)
  {
    assert (out + outs) + after == out + (outs + after);
    assert out + (between + later) == (out + between) + later;
    assert (before + now) + later == before + (now + later);
  }

  /** Without spare room every run is first in, first out, and the array stays full. */
  lemma FullArrayIsFifo(b: Buf, ops: seq<Op>)
    requires Queued(b) && b.posWrite == |b.data|
    ensures var (out, b') := Run(b, ops);
            Queued(b') && b'.posWrite == |b'.data| && out + b'.Pending() == b.Pending() + Packed(ops)
  {
    RunStaysWithinPacked(b, ops);
    FullArrayIsModest(|b.Pending()|, ops);
    RunIsFifo(b, ops);
    RunKeepsFull(b, ops);
  }

  lemma {:induction false} RunKeepsFull(b: Buf, ops: seq<Op>)
    requires Queued(b) && b.posWrite == |b.data|
    ensures Run(b, ops).1.posWrite == |Run(b, ops).1.data|
    decreases ops
  {
    if ops != [] {
      RunKeepsFull(Step(b, ops[0]).1, ops[1..]);
    }
  }

  lemma FifoFromEmpty(ops: seq<Op>)
    ensures var (out, b) := Run(EMPTY, ops);
            b.posRead <= b.posWrite == |b.data| && out + b.Pending() == Packed(ops)
  {
    FullArrayIsFifo(EMPTY, ops);
  }

  // ---- integers -------------------------------------------------------------------------------

  function Wire(vs: seq<Value>): bytes {
    if vs == [] then [] else vs[0].Wire() + Wire(vs[1..])
  }

  function PutAll(b: Buf, vs: seq<Value>): (r: Buf)
    requires b.Valid()
    ensures r.Valid()
    decreases vs
  {
    if vs == [] then b else PutAll(b.Pack(vs[0].Wire()), vs[1..])
  }

  function GetAll(b: Buf, ws: seq<Width>): (seq<Value>, Buf)
    requires b.posRead <= |b.data|
    decreases ws
  {
    if ws == [] then ([], b)
    else
      var (v, b1) := Get(b, ws[0]);
      var (vs, b2) := GetAll(b1, ws[1..]);
      ([v] + vs, b2)
  }

  function Widths(vs: seq<Value>): seq<Width> {
    if vs == [] then [] else [vs[0].Width()] + Widths(vs[1..])
  }

  function Stored(vs: seq<Value>): seq<Value> {
    if vs == [] then [] else [vs[0].Stored()] + Stored(vs[1..])
  }

  /** The number that bytes denote in base 256, the most significant first. */
  function BigEndian(d: bytes): nat {
    if d == [] then 0 else BigEndian(d[..|d| - 1]) * 0x100 + d[|d| - 1] as nat
  }

  function Number(v: Value): int {
    match v case Char(c) => c as int case Short(s) => s case Long(l) => l
  }

  lemma BigEndianUnfolds(d: bytes)
    ensures |d| == 1 ==> BigEndian(d) == d[0] as int
    ensures |d| == 2 ==> BigEndian(d) == d[0] as int * 0x100 + d[1] as int
    ensures |d| == 4 ==> BigEndian(d) == d[0] as int * 0x100_0000 + d[1] as int * 0x1_0000 + d[2] as int * 0x100 + d[3] as int
  {
    if |d| == 1 || |d| == 2 {
      assert d[..1] == [d[0]] && [d[0]][..0] == [];
      assert BigEndian([d[0]]) == d[0] as int;
    } else if |d| == 4 {
      BigEndianUnfolds(d[..2]);
      assert d[..3][..2] == d[..2];
    }
  }

  /** What is written denotes the number, a `long` modulo 2^32, and what is read is the number denoted. */
  lemma WireIsBigEndian(v: Value, d: bytes)
    ensures BigEndian(v.Wire()) == Number(v.Stored())
    ensures |d| == v.Width().Bytes() ==>
              Number(FromWire(v.Width(), d)) == BigEndian(d) && FromWire(v.Width(), d).Width() == v.Width()
  {
    BigEndianUnfolds(v.Wire());
    BigEndianUnfolds(d);
    WireDenotes(v);
  }

  /** Of too few bytes none is used, yet all are consumed, and the value is zero. */
  lemma ShortReadIsZero(b: Buf, w: Width)
    requires b.posRead <= |b.data| < b.posRead + w.Bytes()
    ensures Number(Get(b, w).0) == 0 && Get(b, w).0.Width() == w && Get(b, w).1 == b.(posRead := |b.data|)
  {
  }

  /** A value is read back off its wire image, as far as 32 bits carry it. */
  lemma WireDenotes(v: Value)
    ensures FromWire(v.Width(), v.Wire()) == v.Stored()
  {
    if v.Long? {
      var u := v.l % WORD;
      var a, b, c := u / 0x100, u / 0x1_0000, u / 0x100_0000;
      assert u == a * 0x100 + u % 0x100;
      assert b == a / 0x100 && a == b * 0x100 + a % 0x100;
      assert c == b / 0x100 && b == c * 0x100 + b % 0x100;
    }
  }

  /** What is packed overwrites the array behind the write position, and no more than that. */
  lemma PackAppends(b: Buf, d: bytes)
    requires b.Valid()
    ensures var b1 := b.Pack(d);
            && b1.posWrite == b.posWrite + |d| && b1.data[..b1.posWrite] == b.data[..b.posWrite] + d
            && b1.data[b1.posWrite..] == b.data[Least(b1.posWrite, |b.data|)..]
  {
  }

  /** Writing appends the wire image of the values, whatever room the array had. */
  lemma {:induction false} PutAllAppends(b: Buf, vs: seq<Value>)
    requires b.Valid()
    ensures var b' := PutAll(b, vs);
            && b'.posRead == b.posRead && b'.posWrite == b.posWrite + |Wire(vs)|
            && b'.data[..b'.posWrite] == b.data[..b.posWrite] + Wire(vs)
    decreases vs
  {
    if vs != [] {
      var w := vs[0].Wire();
      PackAppends(b, w);
      PutAllAppends(b.Pack(w), vs[1..]);
      Shift(b.data[..b.posWrite], w, Wire(vs[1..]));
    }
  }

  lemma GetReads(b: Buf, v: Value)
    requires b.posRead + |v.Wire()| <= |b.data|
    requires b.data[b.posRead..b.posRead + |v.Wire()|] == v.Wire()
    ensures Get(b, v.Width()) == (v.Stored(), b.(posRead := b.posRead + |v.Wire()|))
  {
    WireDenotes(v);
  }

  lemma GetFirst(b: Buf, v: Value, later: bytes)
    requires b.posRead + |v.Wire() + later| <= |b.data|
    requires b.data[b.posRead..b.posRead + |v.Wire() + later|] == v.Wire() + later
    ensures var next := b.posRead + |v.Wire()|;
            && Get(b, v.Width()) == (v.Stored(), b.(posRead := next))
            && b.data[next..next + |later|] == later
  {
    SliceParts(b.data, b.posRead, b.posRead + |v.Wire() + later|, v.Wire(), later);
    GetReads(b, v);
  }

  lemma GetAllStep(b: Buf, w: Width, ws: seq<Width>)
    requires b.posRead <= |b.data|
    ensures var (v, b1) := Get(b, w);
            GetAll(b, [w] + ws) == ([v] + GetAll(b1, ws).0, GetAll(b1, ws).1)
  {
    assert ([w] + ws)[1..] == ws;
  }

  lemma {:induction false} GetAllReads(b: Buf, vs: seq<Value>)
    requires b.posRead + |Wire(vs)| <= |b.data|
    requires b.data[b.posRead..b.posRead + |Wire(vs)|] == Wire(vs)
    ensures GetAll(b, Widths(vs)).0 == Stored(vs)
    ensures GetAll(b, Widths(vs)).1 == b.(posRead := b.posRead + |Wire(vs)|)
    decreases vs
  {
    if vs == [] {
      assert b.(posRead := b.posRead + 0) == b;
    } else {
      var v, rest := vs[0], vs[1..];
      var b1 := b.(posRead := b.posRead + |v.Wire()|);
      assert Wire(vs) == v.Wire() + Wire(rest);
      GetFirst(b, v, Wire(rest));
      GetAllReads(b1, rest);
      GetAllStep(b, v.Width(), Widths(rest));
    }
  }

  lemma {:induction false} StoredAllExact(vs: seq<Value>)
    ensures Stored(vs) == vs <==> forall v <- vs :: v.Long? ==> 0 <= v.l < WORD
  {
    if vs != [] {
      StoredAllExact(vs[1..]);
      assert vs == [vs[0]] + vs[1..];
    }
  }

  /**
   * Writing any values into an empty queue and reading the same widths gives the values back,
   * as far as 32 bits carry them, and leaves the queue empty; in between the array holds the
   * values in network byte order.
   */
  lemma MarshallingRoundTrip(b: Buf, vs: seq<Value>)
    requires b.posRead == b.posWrite <= |b.data|
    ensures var b1 := PutAll(b, vs);
            && b1.posRead <= b1.posWrite && b1.Pending() == Wire(vs)
            && GetAll(b1, Widths(vs)) == (Stored(vs), b1.(posRead := b1.posWrite))
    ensures GetAll(PutAll(b, vs), Widths(vs)).0 == vs <==> forall v <- vs :: v.Long? ==> 0 <= v.l < WORD
  {
    var b1 := PutAll(b, vs);
    PutAllAppends(b, vs);
    assert b1.Pending() == b1.data[..b1.posWrite][b.posWrite..];
    GetAllReads(b1, vs);
    StoredAllExact(vs);
  }
}
