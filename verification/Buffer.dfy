/** src/shared/buffer.c: a linear buffer with a read and a write cursor. */
module Buffers {
  import opened Bytes

  /** What a buffer amounts to: the unread bytes, after a gap of spent ones. */
  datatype Buf = Buf(gap: nat, bytes: seq<byte>) {
    /** R <= W <= limit, and a drained buffer is always rewound to its start. */
    ghost predicate Valid(limit: nat) {
      gap + |bytes| <= limit && (bytes == [] ==> gap == 0)
    }

    predicate CanRead() {
      bytes != []
    }

    predicate CanWrite(limit: nat) {
      gap + |bytes| < limit
    }

    function Fill(more: seq<byte>): Buf {
      Buf(gap, bytes + more)
    }

    function Advance(n: nat): (b: Buf)
      requires n <= |bytes|
      ensures b.bytes == bytes[n..]
    {
      if n == |bytes| then Buf(0, []) else Buf(gap + n, bytes[n..])
    }

    function Compact(): Buf {
      Buf(0, bytes)
    }
  }

  lemma AdvanceTwice(b: Buf, m: nat, n: nat)
    requires m + n <= |b.bytes| && (b.bytes == [] ==> b.gap == 0)
    ensures b.Advance(m).Advance(n) == b.Advance(m + n)
  {
  }

  const EMPTY := Buf(0, [])

  class Buffer {
    const data: array<byte>
    var read: nat
    var write: nat

    ghost predicate Bounded()
      reads this
    {
      read <= write <= data.Length
    }

    ghost function View(): Buf
      reads this, data
      requires Bounded()
    {
      Buf(read, data[read..write])
    }

    ghost predicate Valid()
      reads this, data
    {
      Bounded() && View().Valid(data.Length)
    }

    ghost function Contents(): seq<byte>
      reads this, data
      requires Bounded()
    {
      View().bytes
    }

    constructor (n: nat)
      ensures Valid() && View() == EMPTY
      ensures data.Length == n && fresh(data)
    {
      data := new byte[n];
      read, write := 0, 0;
    }

    method Reset()
      modifies this
      ensures Valid() && View() == EMPTY
    {
      read, write := 0, 0;
    }

    predicate CanRead()
      reads this
    {
      read < write
    }

    predicate CanWrite()
      reads this
    {
      write < data.Length
    }

    /** A write of some bytes through buffer_write_ptr, then buffer_write_adv. */
    method Fill(bytes: seq<byte>)
      requires Valid() && View().gap + |Contents()| + |bytes| <= data.Length
      modifies this, data
      ensures Valid() && View() == old(View()).Fill(bytes)
    {
      forall i | 0 <= i < |bytes| {
        data[write + i] := bytes[i];
      }
      write := write + |bytes|;
      assert data[read..write] == old(data[read..write]) + bytes;
    }

    /** buffer_read_adv, which rewinds the buffer when it drained it. */
    method ReadAdv(n: nat)
      requires Valid() && n <= |Contents()|
      modifies this, data
      ensures Valid() && View() == old(View()).Advance(n)
    {
      read := read + n;
      if read == write {
        Compact();
      }
    }

    method Read() returns (b: byte)
      requires Valid()
      modifies this, data
      ensures Valid()
      ensures if old(Contents()) == [] then b == 0 && View() == old(View())
              else b == old(Contents())[0] && View() == old(View()).Advance(1)
    {
      if CanRead() {
        b := data[read];
        ReadAdv(1);
      } else {
        b := 0;
      }
    }

    method Write(c: byte)
      requires Valid()
      modifies this, data
      ensures Valid()
      ensures View() == if old(CanWrite()) then old(View()).Fill([c]) else old(View())
    {
      if CanWrite() {
        Fill([c]);
      }
    }

    /** Moves the unread bytes to the front; afterwards every free byte is writable. */
    method Compact()
      requires Bounded()
      modifies this, data
      ensures Valid() && View() == old(View()).Compact()
    {
      if read == 0 {
      } else if read == write {
        read, write := 0, 0;
      } else {
        var n := write - read;
        forall i | 0 <= i < n {
          data[i] := data[read + i];
        }
        read, write := 0, n;
        assert data[..n] == old(data[read..write]);
      }
    }
  }
}
