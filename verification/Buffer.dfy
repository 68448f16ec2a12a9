/** The growable byte array with a read and a write cursor. */
module Buffers {
  import opened Bytes
  import opened BufferModel

  /** The loop over `indexOf`: the section start at or after `start`, or -1. */
  method FindStartSection(d: bytes, start: nat) returns (idx: int)
    ensures idx == NextStart(d, start)
  {
    idx := start;
    while true
      invariant start <= idx
      invariant forall j: nat :: start <= j < idx && j < |d| ==> !IsStart(d, j)
      decreases |d| - idx
    {
      if idx >= |d| {
        return -1;
      }
      idx := IndexOf(d, OPEN_BRACKET, idx);
      if idx == -1 {
        return;
      }
      if idx == 0 || d[idx - 1] == NEWLINE {
        assert IsStart(d, idx);
        return;
      }
      idx := idx + 1;
    }
  }

  method FindEndSection(d: bytes, start: nat) returns (idx: int)
    ensures idx == NextEnd(d, start)
  {
    idx := start;
    while true
      invariant start <= idx
      invariant forall j: nat :: start <= j < idx && j < |d| ==> !IsEnd(d, j)
      decreases |d| - idx
    {
      if idx >= |d| {
        return -1;
      }
      idx := IndexOf(d, CLOSE_BRACKET, idx);
      if idx == -1 {
        return;
      }
      if idx == |d| - 1 || d[idx + 1] == NEWLINE {
        assert IsEnd(d, idx);
        return;
      }
      idx := idx + 1;
    }
  }

  lemma OccurrenceByte(d: bytes, sub: bytes, p: nat, limit: nat, k: nat)
    requires OccursAt(d, sub, p, limit) && k < |sub|
    ensures d[p + k] == sub[k]
  {
  }

  /** The inner loop of `scan`: how far the delimiter agrees with the bytes from `pos` on. */
  method MatchLength(d: bytes, sub: bytes, pos: nat, limit: nat) returns (sp: nat)
    requires pos < limit <= |d|
    ensures sp <= |sub|
    ensures sp == |sub| <==> OccursAt(d, sub, pos, limit)
  {
    sp := 0;
    var pos1 := pos;
    while sp < |sub|
      invariant sp <= |sub| && pos1 == pos + sp <= limit
      invariant d[pos..pos1] == sub[..sp]
    {
      if pos1 >= limit {
        break;
      }
      if d[pos1] != sub[sp] {
        if OccursAt(d, sub, pos, limit) {
          OccurrenceByte(d, sub, pos, limit, sp);
        }
        break;
      }
      pos1, sp := pos1 + 1, sp + 1;
    }
  }

  class Buffer {
    var data: bytes
    var posRead: nat
    var posWrite: nat
    var startSection: nat

    ghost function View(): Buf
      reads this
    {
      Buf(data, posRead, posWrite, startSection)
    }

    constructor (size: nat)
      requires size < INT_LIMIT
      ensures View() == Buf(seq(size, _ => 0), 0, 0, 0)
    {
      data := seq(size, _ => 0);
      posRead, posWrite, startSection := 0, 0, 0;
    }

    constructor FromBytes(ba: bytes)
      ensures View() == Buf(ba, 0, |ba|, 0)
    {
      data := ba;
      posRead, posWrite, startSection := 0, |ba|, 0;
    }

    method Clear()
      modifies this
      ensures View() == EMPTY
    {
      data, posRead, posWrite, startSection := [], 0, 0, 0;
    }

    method Resize(size: nat)
      modifies this
      ensures View() == old(View()).Resize(size)
    {
      data := if size >= INT_LIMIT then []
              else if size <= |data| then data[..size]
              else data + seq(size - |data|, _ => 0);
      if posWrite > size {
        posWrite := size;
      }
      if posRead > size {
        posRead := size;
      }
    }

    method IncReadPos(n: int)
      requires posRead + n >= 0
      modifies this
      ensures View() == old(View()).IncReadPos(n)
    {
      posRead := posRead + n;
      if posRead > posWrite {
        posRead := posWrite;
      }
    }

    method SetReadPos(n: nat)
      modifies this
      ensures View() == old(View()).SetReadPos(n)
    {
      posRead := if n > posWrite then posWrite else n;
    }

    method SetWritePos(n: nat)
      modifies this
      ensures View() == old(View()).SetWritePos(n)
    {
      posWrite := n;
      if posRead > posWrite {
        posRead := posWrite;
      }
      if posWrite > |data| {
        Resize(posWrite);
      }
    }

    method Append(d: bytes)
      modifies this
      ensures View() == old(View()).Append(d)
    {
      data := data + d;
    }

    method Pack(d: bytes)
      requires View().Valid() && posWrite + |d| < INT_LIMIT
      modifies this
      ensures View() == old(View()).Pack(d)
    {
      ghost var before := View();
      if |d| == 0 {
        assert before.Pack(d).data == data;
        return;
      }
      if posWrite + |d| > |data| {
        Resize(posWrite + |d|);
      }
      data := data[..posWrite] + d + data[posWrite + |d|..];
      posWrite := posWrite + |d|;
      assert data == before.Pack(d).data;
    }

    method Unpack(n: nat) returns (d: bytes)
      requires posRead <= |data|
      modifies this
      ensures (d, View()) == old(View()).Unpack(n)
    {
      var readn := |data| - posRead;
      if n < readn {
        readn := n;
      }
      d := data[posRead..posRead + readn];
      posRead := posRead + readn;
    }

    method Put(v: Value)
      requires View().Valid() && posWrite + 4 < INT_LIMIT
      modifies this
      ensures View() == old(View()).Pack(v.Wire())
    {
      Pack(v.Wire());
    }

    method Get(w: Width) returns (v: Value)
      requires posRead <= |data|
      modifies this
      ensures (v, View()) == BufferModel.Get(old(View()), w)
    {
      var d := Unpack(w.Bytes());
      if |d| != w.Bytes() {
        d := seq(w.Bytes(), _ => 0);
      }
      v := FromWire(w, d);
    }

    /** `res` keeps its value when the delimiter is not found. */
    method Scan(substr: bytes, res0: bytes) returns (found: bool, res: bytes)
      requires View().Valid() && 0 !in substr
      modifies this
      ensures (found, if found then res else [], View()) == BufferModel.Scan(old(View()), substr)
      ensures !found ==> res == res0
    {
      res := res0;
      var d, c := data, At(substr, 0);
      var pos := posRead;
      while pos < posWrite
        invariant posRead <= pos
        invariant View() == old(View())
        invariant forall q: nat :: posRead <= q < pos && q < posWrite ==> !Hit(d, substr, q, posWrite)
        decreases posWrite - pos
      {
        if d[pos] == c {
          var sp := MatchLength(d, substr, pos, posWrite);
          if sp == |substr| {
            assert IsFirstHit(d, substr, posRead, posWrite, pos);
            if pos != posRead {
              // The protected overload of unpack copies one byte more than it consumes.
              res := d[posRead..pos + 1];
              posRead := pos;
            } else {
              res := [];
            }
            IncReadPos(|substr|);
            return true, res;
          }
        } else if substr != [] && OccursAt(d, substr, pos, posWrite) {
          OccurrenceByte(d, substr, pos, posWrite, 0);
        }
        pos := pos + 1;
      }
      return false, res;
    }

    method GetSection(skip: bool) returns (str: bytes)
      modifies this
      ensures (str, View()) == BufferModel.GetSection(old(View()), skip)
    {
      var d := data;
      str := [];
      var start: int := posRead;
      if skip {
        start := FindStartSection(d, posRead + 1);
      }
      if start == -1 {
        return;
      }
      start := FindStartSection(d, start);
      // Without a start the program searches for an end from 0, and gives up all the same.
      var end := FindEndSection(d, if start == -1 then 0 else start);
      if start == -1 || end == -1 {
        return;
      }
      str := d[start + 1..end];
      EnterSection(start, end);
    }

    /** The second half of `getSection`. */
    method EnterSection(start: nat, end: nat)
      requires end < |data|
      modifies this
      ensures View() == BufferModel.EnterSection(old(View()), start, end)
    {
      startSection := start;
      posRead := end + 1;
      if posRead < |data| {
        if data[posRead] == NEWLINE {
          posRead := posRead + 1;
        }
      }
      if posRead >= |data| {
        posRead := |data| - 1;
      }
      var next := FindStartSection(data, end);
      posWrite := if next == -1 then |data| else next;
    }

    method GetLine() returns (res: bytes)
      requires View().Valid()
      modifies this
      ensures (res, View()) == BufferModel.GetLine(old(View()))
    {
      if posRead >= posWrite {
        return [];
      }
      var start := posRead;
      var end := IndexOf(data, NEWLINE, start);
      if end == -1 {
        end := |data|;
      }
      res := data[start..end];
      posRead := end + 1;
      if posRead < |data| {
        if data[posRead] == NEWLINE {
          posRead := posRead + 1;
        }
      }
    }
  }
}
