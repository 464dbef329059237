/** The storage backend of src/nvm-arch.c: offset-based read, in-place update
    and append against the non-volatile medium, every write checked by reading
    it back byte by byte.

    The medium is the file nvm.bin: a flag saying whether it exists and the
    bytes it holds. What the device really keeps on a write is a parameter of
    that write (`landing`): the bytes that reached the medium, fewer than
    asked for on a short write and possibly different ones on a faulty device.
    A healthy device keeps exactly the bytes it was given. */
module NvmArch {
  import opened Base

  function Max(a: int, b: int): int { if a < b then b else a }

  /** The bytes of a file after `w` is written at position `offset`. Bytes
      outside `[offset, offset + |w|)` keep their value; writing past the end
      extends the file and a gap between the old end and `offset` reads as
      zero. Writing nothing leaves the file as it is. */
  function Overwrite(m: seq<byte>, offset: nat, w: seq<byte>): (r: seq<byte>)
    ensures |r| == if w == [] then |m| else Max(|m|, offset + |w|)
    ensures forall k :: 0 <= k < |w| ==> r[offset + k] == w[k]
    ensures forall k :: 0 <= k < |m| && (k < offset || offset + |w| <= k) ==> r[k] == m[k]
    ensures forall k :: |m| <= k < offset && k < |r| ==> r[k] == 0
  {
    if w == [] then m
    else if offset <= |m| then
      m[..offset] + w + (if offset + |w| < |m| then m[offset + |w|..] else [])
    else
      m + Zeros(offset - |m|) + w
  }

  /** `m` holds `data` at `offset`: every byte of `data` can be read there and is equal. */
  predicate Holds(m: seq<byte>, offset: nat, data: seq<byte>)
  {
    data == [] || (offset + |data| <= |m| && m[offset..offset + |data|] == data)
  }

  /** The bytes a read of `len` bytes at `offset` obtains before it runs into the end of `m`. */
  function Available(m: seq<byte>, offset: nat, len: nat): (r: seq<byte>)
    ensures |r| <= len
    ensures r == [] || (offset + |r| <= |m| && r == m[offset..offset + |r|])
    ensures 0 < len ==> (|r| == len <==> offset + len <= |m|)
    ensures |m| <= offset ==> r == []
    ensures offset < |m| < offset + len ==> |r| == |m| - offset
  {
    if |m| <= offset then []
    else if offset + len <= |m| then m[offset..offset + len]
    else m[offset..]
  }

  /** fwrite(ptr, len, 1, f) reports one complete element: at least one byte
      was asked for (fwrite with a zero size reports zero elements) and every
      byte reached the device. */
  predicate Completed(data: seq<byte>, landing: seq<byte>)
  {
    0 < |data| && |landing| == |data|
  }

  /** Reading back what was just written in place finds it exactly when the
      device kept the bytes it was given. */
  lemma OverwriteReadsBack(m: seq<byte>, offset: nat, landing: seq<byte>, data: seq<byte>)
    requires |landing| == |data|
    ensures Holds(Overwrite(m, offset, landing), offset, data) <==> landing == data
  {
    var r := Overwrite(m, offset, landing);
    if landing != [] {
      assert offset + |landing| <= |r|;
      assert r[offset..offset + |landing|] == landing;
    }
  }

  /** Append writes at the physical end of the medium but the check reads at
      the offset the caller supplies. At the physical end the check passes
      exactly when the device kept the bytes; past it there is nothing to read
      and the check fails; before it, the check compares old bytes of the
      medium, not the bytes just appended. */
  lemma AppendReadsBack(m: seq<byte>, offset: nat, landing: seq<byte>, data: seq<byte>)
    requires |landing| == |data|
    ensures offset == |m| ==> (Holds(m + landing, offset, data) <==> landing == data)
    ensures offset > |m| && 0 < |data| ==> !Holds(m + landing, offset, data)
    ensures offset + |data| <= |m| ==> (Holds(m + landing, offset, data) <==> Holds(m, offset, data))
  {
    if offset == |m| {
      assert (m + landing)[offset..offset + |data|] == landing;
    }
    if offset + |data| <= |m| {
      assert (m + landing)[offset..offset + |data|] == m[offset..offset + |data|];
    }
  }

  /** The medium behind the four operations. Offsets are the non-negative
      `long int` positions and lengths the `size_t` counts the callers pass. */
  class Medium {
    /** nvm.bin exists */
    var present: bool
    /** the bytes of nvm.bin */
    var contents: seq<byte>

    ghost predicate Valid()
      reads this
    {
      present || contents == []
    }

    constructor (present: bool, contents: seq<byte>)
      requires present || contents == []
      ensures Valid() && this.present == present && this.contents == contents
    {
      this.present := present;
      this.contents := contents;
    }

    /** _nvm_arch_check_write_operation: 0 when the `len` bytes at `offset`
        can all be read and equal `data`, 1 at the first byte that cannot be
        read or differs. */
    method CheckWrite(offset: nat, len: nat, data: seq<byte>) returns (r: int)
      requires |data| == len
      ensures r == 0 || r == 1
      ensures r == 0 <==> Holds(contents, offset, data)
    {
      var i := 0;
      while i < len
        invariant 0 <= i <= len
        invariant 0 < i ==> offset + i <= |contents|
        invariant forall j :: 0 <= j < i ==> contents[offset + j] == data[j]
      {
        if offset + i >= |contents| {
          return 1;
        }
        if contents[offset + i] != data[i] {
          if offset + len <= |contents| {
            assert contents[offset..offset + len][i] != data[i];
          }
          return 1;
        }
        i := i + 1;
      }
      if 0 < len {
        assert contents[offset..offset + len] == data;
      }
      return 0;
    }

    /** nvm_arch_read: 0 when the medium exists and all `len` bytes at
        `offset` can be read, which needs `len > 0` (fread with a zero size
        reports zero elements). `out` is what lands in the caller's buffer: on
        success exactly those bytes, on failure the ones read before the end of
        the file. The medium is not changed. */
    method Read(offset: nat, len: nat) returns (r: int, out: seq<byte>)
      ensures r == 0 || r == 1
      ensures r == 0 <==> present && 0 < len && offset + len <= |contents|
      ensures r == 0 ==> out == contents[offset..offset + len]
      ensures r == 1 ==> out == if present then Available(contents, offset, len) else []
    {
      if !present {
        return 1, [];
      }
      out := Available(contents, offset, len);
      if len == 0 || |out| < len {
        return 1, out;
      }
      r := 0;
    }

    /** nvm_arch_update: opens the existing medium ("r+b" never creates it),
        writes at `offset`, then checks the same range. The bytes that reached
        the device stay written even when the call reports 1. */
    method Update(offset: nat, len: nat, data: seq<byte>, landing: seq<byte>) returns (r: int)
      requires Valid()
      requires |data| == len && |landing| <= len
      modifies this
      ensures Valid() && present == old(present)
      ensures contents == if old(present) then Overwrite(old(contents), offset, landing) else old(contents)
      ensures r == 0 || r == 1
      ensures r == 0 <==> present && Completed(data, landing) && Holds(contents, offset, data)
      ensures r == 0 <==> old(present) && 0 < len && landing == data
    {
      if !present {
        return 1;
      }
      contents := Overwrite(contents, offset, landing);
      if !Completed(data, landing) {
        return 1;
      }
      OverwriteReadsBack(old(contents), offset, landing, data);
      r := CheckWrite(offset, len, data);
    }

    /** nvm_arch_append: opens the medium for appending ("a+b" creates it when
        it is absent), writes at its physical end whatever `offset` says, then
        checks the `len` bytes at `offset`. */
    method Append(offset: nat, len: nat, data: seq<byte>, landing: seq<byte>) returns (r: int)
      requires Valid()
      requires |data| == len && |landing| <= len
      modifies this
      ensures Valid() && present
      ensures contents == old(contents) + landing
      ensures r == 0 || r == 1
      ensures r == 0 <==> Completed(data, landing) && Holds(contents, offset, data)
      ensures offset == |old(contents)| ==> (r == 0 <==> 0 < len && landing == data)
    {
      present := true;
      contents := contents + landing;
      if !Completed(data, landing) {
        return 1;
      }
      AppendReadsBack(old(contents), offset, landing, data);
      r := CheckWrite(offset, len, data);
    }
  }
}
