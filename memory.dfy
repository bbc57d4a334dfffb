/** The target process's address space as the core reaches it through
    `process_vm_readv` and `process_vm_writev`: a partial map from address to
    byte. A transfer succeeds only when every byte it touches is mapped; it
    then copies exactly those bytes. */
module TargetMemory {
  import opened Wrappers

  type Byte = b: int | 0 <= b < 256

  type Memory = map<nat, Byte>

  /** Every byte of `[address, address + len)` is mapped. */
  predicate Mapped(mem: Memory, address: nat, len: nat) {
    forall a :: address <= a < address + len ==> a in mem
  }

  /** `read_bytes_from_process(pid, len, address)`: the `len` bytes starting at
      `address`, or nothing when any of them is unmapped. */
  function ReadBytes(mem: Memory, address: nat, len: nat): (r: Option<seq<Byte>>)
    ensures r.Some? <==> Mapped(mem, address, len)
    ensures r.Some? ==> |r.value| == len
  {
    if Mapped(mem, address, len)
    then Some(seq(len, i requires 0 <= i < len => mem[address + i]))
    else None
  }

  /** A successful read holds the target's bytes in address order. */
  lemma ReadBytesAt(mem: Memory, address: nat, len: nat, i: nat)
    requires Mapped(mem, address, len) && i < len
    ensures ReadBytes(mem, address, len).value[i] == mem[address + i]
  {
  }

  /** Two reads of the same length that see the same bytes agree. */
  lemma ReadBytesByContents(mem: Memory, address: nat, len: nat, expected: seq<Byte>)
    requires Mapped(mem, address, len) && |expected| == len
    requires forall i :: 0 <= i < len ==> expected[i] == mem[address + i]
    ensures ReadBytes(mem, address, len) == Some(expected)
  {
    var r := ReadBytes(mem, address, len).value;
    forall i | 0 <= i < len ensures r[i] == expected[i] {
      ReadBytesAt(mem, address, len, i);
    }
    assert r == expected;
  }

  /** `read_from_process::<T>(pid, address)`: `size` (that is,
      `size_of::<T>()`) bytes reinterpreted as a `T` by `decode`, or nothing
      when the read fails. */
  function ReadValue<T>(mem: Memory, address: nat, size: nat, decode: seq<Byte> -> T): (r: Option<T>)
    ensures r.Some? <==> Mapped(mem, address, size)
  {
    match ReadBytes(mem, address, size)
    case None => None
    case Some(w) => Some(decode(w))
  }

  /** `write_to_process`: `bytes` stored from `address` on, or nothing (and no
      change) when any target byte is unmapped. A write never maps or unmaps. */
  function WriteBytes(mem: Memory, address: nat, bytes: seq<Byte>): (r: Option<Memory>)
    ensures r.Some? <==> Mapped(mem, address, |bytes|)
    ensures r.Some? ==> r.value.Keys == mem.Keys
  {
    if Mapped(mem, address, |bytes|)
    then Some(map a | a in mem :: if address <= a < address + |bytes| then bytes[a - address] else mem[a])
    else None
  }

  /** A window inside a successful bulk read reads back, on its own, as the
      matching slice of the bulk data. */
  lemma ReadBytesSlice(mem: Memory, address: nat, len: nat, offset: nat, size: nat)
    requires ReadBytes(mem, address, len).Some?
    requires offset + size <= len
    ensures ReadBytes(mem, address + offset, size)
         == Some(ReadBytes(mem, address, len).value[offset..offset + size])
  {
    var data := ReadBytes(mem, address, len).value;
    var w := data[offset..offset + size];
    forall i | 0 <= i < size ensures w[i] == mem[address + offset + i] {
      ReadBytesAt(mem, address, len, offset + i);
    }
    ReadBytesByContents(mem, address + offset, size, w);
  }

  /** Reading back what was just written gives the written bytes. */
  lemma ReadAfterWrite(mem: Memory, address: nat, bytes: seq<Byte>)
    requires WriteBytes(mem, address, bytes).Some?
    ensures ReadBytes(WriteBytes(mem, address, bytes).value, address, |bytes|) == Some(bytes)
  {
    var m := WriteBytes(mem, address, bytes).value;
    forall i | 0 <= i < |bytes| ensures bytes[i] == m[address + i] {
      assert address + i in mem;
    }
    ReadBytesByContents(m, address, |bytes|, bytes);
  }

  /** A write leaves every read of a disjoint range as it was. */
  lemma ReadDisjointFromWrite(mem: Memory, address: nat, bytes: seq<Byte>, other: nat, len: nat)
    requires WriteBytes(mem, address, bytes).Some?
    requires other + len <= address || address + |bytes| <= other
    ensures ReadBytes(WriteBytes(mem, address, bytes).value, other, len) == ReadBytes(mem, other, len)
  {
    var m := WriteBytes(mem, address, bytes).value;
    if Mapped(mem, other, len) {
      var r0 := ReadBytes(mem, other, len).value;
      forall i | 0 <= i < len ensures r0[i] == m[other + i] {
        ReadBytesAt(mem, other, len, i);
        assert other + i in mem;
      }
      ReadBytesByContents(m, other, len, r0);
    }
  }
}
