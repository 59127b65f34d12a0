/** Byte buffers of include/bbuff.h: a pointer into memory and a size.
    Memory is a sequence of bytes and a pointer an index into it, so that
    a view shares the storage of the buffer it is taken from while a copy
    has storage of its own. */
module ByteBuffers {

  /** `struct byte_buffer`: `buff` and `buff_sz`. */
  datatype ByteBuffer = ByteBuffer(base: nat, size: nat)

  /** The buffer lies inside memory. */
  predicate Within(mem: seq<bv8>, b: ByteBuffer) {
    b.base + b.size <= |mem|
  }

  /** The bytes a buffer designates. */
  function Bytes(mem: seq<bv8>, b: ByteBuffer): (bs: seq<bv8>)
    requires Within(mem, b)
    ensures |bs| == b.size
  {
    mem[b.base..b.base + b.size]
  }

  /** `byte_buffer(buff, buff_sz)`: the buffer over exactly the `buff_sz`
      bytes starting at `buff`. */
  function MakeBuffer(buff: nat, buffSz: nat): (b: ByteBuffer)
    ensures forall mem: seq<bv8> :: buff + buffSz <= |mem| ==>
      Within(mem, b) && Bytes(mem, b) == mem[buff..buff + buffSz]
  {
    ByteBuffer(buff, buffSz)
  }

  /** `buffer_create_view_from(in_buff, buff_offset, len)`: a buffer over
      `len` bytes of `in_buff` starting `buff_offset` bytes in. Nothing is
      checked: a view that does not fit inside its source is still made,
      and only `ViewBytes` asks for the bounds. */
  function View(b: ByteBuffer, offset: nat, len: nat): (v: ByteBuffer)
    ensures v.size == len
  {
    ByteBuffer(b.base + offset, len)
  }

  /** A view designates the source bytes `offset .. offset + len - 1`, and
      it sees later writes to that storage. */
  lemma ViewBytes(mem: seq<bv8>, b: ByteBuffer, offset: nat, len: nat)
    requires Within(mem, b) && offset + len <= b.size
    ensures Within(mem, View(b, offset, len))
    ensures Bytes(mem, View(b, offset, len)) == Bytes(mem, b)[offset..offset + len]
  {
    var v, whole := Bytes(mem, View(b, offset, len)), Bytes(mem, b);
    forall i | 0 <= i < len ensures v[i] == whole[offset + i] {
      assert v[i] == mem[b.base + offset + i];
    }
  }

  /** A view of a view is a view of the original. */
  lemma ViewOfView(b: ByteBuffer, o1: nat, l1: nat, o2: nat, l2: nat)
    ensures View(View(b, o1, l1), o2, l2) == View(b, o1 + o2, l2)
  {
  }

  /** `byte_buffer_make_copy`: fresh storage, placed after all memory in
      use, receives the source's bytes. Returns the new memory and the
      copy. */
  function MakeCopy(mem: seq<bv8>, b: ByteBuffer): (r: (seq<bv8>, ByteBuffer))
    requires Within(mem, b)
    ensures Within(r.0, r.1) && Within(r.0, b)
    ensures r.1.size == b.size && Bytes(r.0, r.1) == Bytes(mem, b)
    ensures |r.0| == |mem| + b.size && r.0[..|mem|] == mem
    ensures r.1.base >= |mem|
  {
    (mem + Bytes(mem, b), ByteBuffer(|mem|, b.size))
  }

  /** The copy does not alias its source: overwriting the copy's storage
      leaves the source's bytes as they were. */
  lemma CopyIsIndependent(mem: seq<bv8>, b: ByteBuffer, newBytes: seq<bv8>)
    requires Within(mem, b)
    requires |newBytes| == b.size
    ensures var (mem', c) := MakeCopy(mem, b);
      var written := mem'[..c.base] + newBytes;
      Within(written, b) && Bytes(written, b) == Bytes(mem, b) && Bytes(written, c) == newBytes
  {
    var (mem', c) := MakeCopy(mem, b);
    var written := mem'[..c.base] + newBytes;
    assert written[..|mem|] == mem;
    assert Bytes(written, b) == written[..|mem|][b.base..b.base + b.size];
  }
}
