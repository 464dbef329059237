/** The attribute directory of src/gp-nvm.c (attr_list_t) as a value: its
    entries, the linear-scan lookup, the invariants the store keeps, the
    provisional append of a new entry, and the fixed-size record that holds the
    directory at offset 0 of the medium. */
module Directory {
  import opened Base

  /** MAX_ATTRS */
  const MAX_ATTRS: nat := 10

  /** sizeof(attr_list_t): a one-byte count, three bytes of padding, the
      four-byte total size and MAX_ATTRS entries of ENTRY_SIZE bytes. */
  const DIR_SIZE: nat := 88

  /** sizeof(attr_list_entry_t): id, length, two bytes of padding, four-byte offset. */
  const ENTRY_SIZE: nat := 8

  /** attr_list_entry_t */
  datatype Entry = Entry(attrId: byte, len: byte, offset: u32)

  /** attr_list_t. Only `entries[..numEntries]` are in use; the slots after
      them keep whatever was last written there. */
  datatype AttrList = AttrList(numEntries: byte, totalSize: u32, entries: seq<Entry>)

  /** The all-zero directory that memset leaves. */
  function Empty(): AttrList
  {
    AttrList(0, 0, seq(MAX_ATTRS, _ => Entry(0, 0, 0)))
  }

  // ---------------------------------------------------------------------
  // Lookup

  /** The index of the first of `es[i..n]` whose id is `id`. */
  function FindFrom(es: seq<Entry>, n: nat, id: byte, i: nat): (r: Option<nat>)
    requires n <= |es|
    ensures r.Some? ==> i <= r.value < n && es[r.value].attrId == id
    decreases n - i
  {
    if i >= n then None
    else if es[i].attrId == id then Some(i)
    else FindFrom(es, n, id, i + 1)
  }

  /** _gp_nvm_get_attr_list_entry, as a function of the directory. */
  function Find(d: AttrList, id: byte): (r: Option<nat>)
    requires d.numEntries as int <= |d.entries|
    ensures r.Some? ==> r.value < d.numEntries as int && d.entries[r.value].attrId == id
  {
    FindFrom(d.entries, d.numEntries as nat, id, 0)
  }

  lemma {:induction false} FindFromIsFirst(es: seq<Entry>, n: nat, id: byte, i: nat)
    requires n <= |es| && i <= n
    ensures FindFrom(es, n, id, i).Some? ==>
              forall j :: i <= j < FindFrom(es, n, id, i).value ==> es[j].attrId != id
    ensures FindFrom(es, n, id, i).None? <==> forall j :: i <= j < n ==> es[j].attrId != id
    decreases n - i
  {
    if i < n && es[i].attrId != id {
      FindFromIsFirst(es, n, id, i + 1);
    }
  }

  /** Lookup finds the first entry in use with id `id`, and finds nothing
      exactly when no entry in use has that id. */
  lemma FindIsFirst(d: AttrList, id: byte)
    requires d.numEntries as int <= |d.entries|
    ensures Find(d, id).Some? ==>
              var k := Find(d, id).value;
              k < d.numEntries as int && d.entries[k].attrId == id &&
              forall j :: 0 <= j < k ==> d.entries[j].attrId != id
    ensures Find(d, id).None? <==> forall j :: 0 <= j < d.numEntries as int ==> d.entries[j].attrId != id
  {
    FindFromIsFirst(d.entries, d.numEntries as nat, id, 0);
  }

  lemma {:induction false} FindFromIgnoresTail(es: seq<Entry>, es': seq<Entry>, n: nat, id: byte, i: nat)
    requires n <= |es| && n <= |es'| && es[..n] == es'[..n]
    ensures FindFrom(es, n, id, i) == FindFrom(es', n, id, i)
    decreases n - i
  {
    if i < n {
      assert es[i] == es[..n][i] == es'[i];
      FindFromIgnoresTail(es, es', n, id, i + 1);
    }
  }

  /** Lookup never looks at the entries from `numEntries` on. */
  lemma FindIgnoresTail(d: AttrList, d': AttrList, id: byte)
    requires d.numEntries as int <= |d.entries| && d'.numEntries == d.numEntries
    requires d'.numEntries as int <= |d'.entries|
    requires d.entries[..d.numEntries] == d'.entries[..d.numEntries]
    ensures Find(d, id) == Find(d', id)
  {
    FindFromIgnoresTail(d.entries, d'.entries, d.numEntries as nat, id, 0);
  }

  lemma {:induction false} FindFromExtend(es: seq<Entry>, es': seq<Entry>, n: nat, id: byte, i: nat)
    requires n < |es'| && n <= |es| && es[..n] == es'[..n] && es'[n].attrId != id && i <= n
    ensures FindFrom(es', n + 1, id, i) == FindFrom(es, n, id, i)
    decreases n - i
  {
    if i < n {
      assert es[i] == es[..n][i] == es'[i];
      FindFromExtend(es, es', n, id, i + 1);
    }
  }

  // ---------------------------------------------------------------------
  // Invariants

  /** The sum of the lengths of `es`. */
  function SumLens(es: seq<Entry>): nat
  {
    if es == [] then 0 else SumLens(es[..|es| - 1]) + es[|es| - 1].len as nat
  }

  lemma {:induction false} SumLensBound(es: seq<Entry>)
    ensures SumLens(es) <= 255 * |es|
  {
    if es != [] {
      SumLensBound(es[..|es| - 1]);
    }
  }

  lemma {:induction false} SumLensMonotone(es: seq<Entry>, i: nat, j: nat)
    requires i <= j <= |es|
    ensures SumLens(es[..i]) <= SumLens(es[..j])
    decreases j - i
  {
    if i < j {
      assert es[..j][..j - 1] == es[..j - 1];
      SumLensMonotone(es, i, j - 1);
    }
  }

  /** The ids of the entries in use are pairwise distinct. */
  predicate Distinct(es: seq<Entry>, n: nat)
    requires n <= |es|
  {
    forall i, j :: 0 <= i < j < n ==> es[i].attrId != es[j].attrId
  }

  /** The payloads follow the directory record back to back, in the order the
      entries were added. */
  predicate Packed(es: seq<Entry>, n: nat)
    requires n <= |es|
  {
    forall i :: 0 <= i < n ==> es[i].offset as nat == DIR_SIZE + SumLens(es[..i])
  }

  /** What every directory built by the store from an empty one satisfies. */
  predicate Invariant(d: AttrList)
  {
    var n := d.numEntries as nat;
    && |d.entries| == MAX_ATTRS
    && n <= MAX_ATTRS
    && Distinct(d.entries, n)
    && Packed(d.entries, n)
    && (forall i :: 0 <= i < n ==> 0 < d.entries[i].len)
    && d.totalSize as nat == SumLens(d.entries[..n])
  }

  lemma EmptyInvariant()
    ensures Invariant(Empty())
  {
  }

  /** By distinctness, an entry in use is the one lookup finds for its id. */
  lemma FindUnique(d: AttrList, k: nat)
    requires Invariant(d) && k < d.numEntries as nat
    ensures Find(d, d.entries[k].attrId) == Some(k)
  {
    FindIsFirst(d, d.entries[k].attrId);
  }

  /** The payload of entry `k` lies after the directory record and inside the
      `totalSize` bytes that follow it. */
  lemma EntryInPayload(d: AttrList, k: nat)
    requires Invariant(d) && k < d.numEntries as nat
    ensures DIR_SIZE <= d.entries[k].offset as int
    ensures d.entries[k].offset as int + d.entries[k].len as int <= DIR_SIZE + d.totalSize as int
  {
    var es := d.entries;
    assert es[..k + 1][..k] == es[..k];
    SumLensMonotone(es, k + 1, d.numEntries as nat);
  }

  /** The payload of an entry in use ends before the payload of every later one starts. */
  lemma EntriesOrdered(d: AttrList, j: nat, k: nat)
    requires Invariant(d) && j < k < d.numEntries as nat
    ensures d.entries[j].offset as int + d.entries[j].len as int <= d.entries[k].offset as int
  {
    var es := d.entries;
    assert es[..j + 1][..j] == es[..j];
    SumLensMonotone(es, j + 1, k);
  }

  /** The payload of each entry in use lies after the directory record, inside
      the `totalSize` bytes that follow it, and before the payload of every
      later entry. */
  lemma PayloadLayout(d: AttrList)
    requires Invariant(d)
    ensures forall k :: 0 <= k < d.numEntries as int ==>
              DIR_SIZE <= d.entries[k].offset as int &&
              d.entries[k].offset as int + d.entries[k].len as int <= DIR_SIZE + d.totalSize as int
    ensures forall j, k :: 0 <= j < k < d.numEntries as int ==>
              d.entries[j].offset as int + d.entries[j].len as int <= d.entries[k].offset as int
  {
    forall k | 0 <= k < d.numEntries as int
      ensures DIR_SIZE <= d.entries[k].offset as int
      ensures d.entries[k].offset as int + d.entries[k].len as int <= DIR_SIZE + d.totalSize as int
    {
      EntryInPayload(d, k);
    }
    forall j, k | 0 <= j < k < d.numEntries as int
      ensures d.entries[j].offset as int + d.entries[j].len as int <= d.entries[k].offset as int
    {
      EntriesOrdered(d, j, k);
    }
  }

  // ---------------------------------------------------------------------
  // Adding an entry

  /** The offset a new payload gets: sizeof(attr_list_t) + total_size, stored in a uint32_t. */
  function NewOffset(d: AttrList): u32
  {
    Wrap32(DIR_SIZE + d.totalSize as int)
  }

  /** The directory once the new entry is written into slot `numEntries`,
      before the counters move. This is also what is left after the
      counters are rolled back. */
  function WithSlot(d: AttrList, id: byte, len: byte): AttrList
    requires d.numEntries as int < |d.entries|
  {
    d.(entries := d.entries[d.numEntries as int := Entry(id, len, NewOffset(d))])
  }

  /** The directory with the new entry counted: total_size += length, num_entries++. */
  function Added(d: AttrList, id: byte, len: byte): AttrList
    requires d.numEntries as int < |d.entries| <= MAX_ATTRS
  {
    WithSlot(d, id, len).(numEntries := d.numEntries + 1, totalSize := Wrap32(d.totalSize as int + len as int))
  }

  /** Adding an absent id with a non-zero length to a directory with room
      keeps the invariants; the new entry sits at index `numEntries`, right
      after the previous payloads, and is what lookup now finds for `id`; every
      other id is found where it was before. */
  lemma AddedKeepsInvariant(d: AttrList, id: byte, len: byte)
    requires Invariant(d) && d.numEntries as int < MAX_ATTRS
    requires Find(d, id).None? && 0 < len
    ensures Invariant(Added(d, id, len))
    ensures Added(d, id, len).entries[d.numEntries] == Entry(id, len, (DIR_SIZE + d.totalSize as int) as u32)
    ensures Added(d, id, len).totalSize as int == d.totalSize as int + len as int
    ensures Find(Added(d, id, len), id) == Some(d.numEntries as nat)
    ensures forall x :: x != id ==> Find(Added(d, id, len), x) == Find(d, x)
  {
    var n := d.numEntries as int;
    var d' := Added(d, id, len);
    var es, es' := d.entries, d'.entries;
    SumLensBound(es[..n]);
    assert d.totalSize as int <= 255 * MAX_ATTRS;
    assert es'[..n] == es[..n];
    assert es'[..n + 1][..n] == es[..n];
    assert SumLens(es'[..n + 1]) == SumLens(es[..n]) + len as nat;
    forall i | 0 <= i < n
      ensures es'[..i] == es[..i]
    {
      assert es'[..i] == es'[..n][..i];
      assert es[..i] == es[..n][..i];
    }
    FindIsFirst(d, id);
    assert Distinct(es', n + 1);
    assert Packed(es', n + 1);
    FindIsFirst(d', id);
    forall x | x != id
      ensures Find(d', x) == Find(d, x)
    {
      FindFromExtend(es, es', n, x, 0);
    }
  }

  /** The invariants depend only on the counters and the entries in use. */
  lemma InvariantIgnoresTail(d: AttrList, d': AttrList)
    requires d.numEntries == d'.numEntries && d.totalSize == d'.totalSize && |d.entries| == |d'.entries|
    requires d.numEntries as int <= |d.entries|
    requires d.entries[..d.numEntries] == d'.entries[..d.numEntries]
    ensures Invariant(d) <==> Invariant(d')
  {
    var n := d.numEntries as int;
    var es, es' := d.entries, d'.entries;
    forall i | 0 <= i < n
      ensures es[i] == es'[i]
    {
      assert es[i] == es[..n][i];
      assert es'[i] == es'[..n][i];
    }
    forall i | 0 <= i <= n
      ensures es[..i] == es'[..i]
    {
      assert es[..i] == es[..n][..i];
      assert es'[..i] == es'[..n][..i];
    }
  }

  /** Rewriting the unused slot changes nothing lookup or the invariants can see. */
  lemma WithSlotInvisible(d: AttrList, id: byte, len: byte)
    requires d.numEntries as int < |d.entries|
    ensures forall x :: Find(WithSlot(d, id, len), x) == Find(d, x)
    ensures Invariant(WithSlot(d, id, len)) <==> Invariant(d)
  {
    var n := d.numEntries as int;
    var d' := WithSlot(d, id, len);
    assert d'.entries[..n] == d.entries[..n];
    forall x
      ensures Find(d', x) == Find(d, x)
    {
      FindIgnoresTail(d, d', x);
    }
    InvariantIgnoresTail(d, d');
  }

  /** Once an id is in the directory it stays found at the same entry by
      every directory that extends this one: there is no way back to absent. */
  lemma FoundStaysFound(d: AttrList, d': AttrList, id: byte)
    requires d.numEntries as int <= |d.entries| && d'.numEntries as int <= |d'.entries|
    requires d.numEntries <= d'.numEntries
    requires d'.entries[..d.numEntries] == d.entries[..d.numEntries]
    requires Find(d, id).Some?
    ensures Find(d', id) == Find(d, id)
  {
    var n, n' := d.numEntries as int, d'.numEntries as int;
    var k := Find(d, id).value;
    FindIsFirst(d, id);
    FindIsFirst(d', id);
    assert d'.entries[k] == d'.entries[..n][k];
    forall j | 0 <= j < k
      ensures d'.entries[j].attrId != id
    {
      assert d'.entries[j] == d'.entries[..n][j];
    }
  }

  // ---------------------------------------------------------------------
  // The directory record at offset 0

  function EncodeEntry(e: Entry): (bs: seq<byte>)
    ensures |bs| == ENTRY_SIZE
  {
    [e.attrId, e.len, 0, 0] + U32Bytes(e.offset)
  }

  function DecodeEntry(bs: seq<byte>): Entry
    requires |bs| == ENTRY_SIZE
  {
    Entry(bs[0], bs[1], U32Of(bs[4..8]))
  }

  function EncodeEntries(es: seq<Entry>): (bs: seq<byte>)
    ensures |bs| == ENTRY_SIZE * |es|
  {
    if es == [] then [] else EncodeEntry(es[0]) + EncodeEntries(es[1..])
  }

  function DecodeEntries(bs: seq<byte>): (es: seq<Entry>)
    requires |bs| % ENTRY_SIZE == 0
    ensures ENTRY_SIZE * |es| == |bs|
    decreases |bs|
  {
    if bs == [] then [] else [DecodeEntry(bs[..ENTRY_SIZE])] + DecodeEntries(bs[ENTRY_SIZE..])
  }

  /** The bytes of the directory as it is persisted at offset 0 (padding as zero). */
  function Encode(d: AttrList): (bs: seq<byte>)
    requires |d.entries| == MAX_ATTRS
    ensures |bs| == DIR_SIZE
  {
    [d.numEntries, 0, 0, 0] + U32Bytes(d.totalSize) + EncodeEntries(d.entries)
  }

  /** The directory a record read from offset 0 is taken to be, without any check. */
  function Decode(bs: seq<byte>): (d: AttrList)
    requires |bs| == DIR_SIZE
    ensures |d.entries| == MAX_ATTRS
  {
    AttrList(bs[0], U32Of(bs[4..8]), DecodeEntries(bs[8..]))
  }

  lemma DecodeEncodeEntry(e: Entry)
    ensures DecodeEntry(EncodeEntry(e)) == e
  {
    var bs := EncodeEntry(e);
    assert bs[4..8] == U32Bytes(e.offset);
    U32RoundTrip(e.offset);
  }

  lemma {:induction false} DecodeEncodeEntries(es: seq<Entry>)
    ensures DecodeEntries(EncodeEntries(es)) == es
  {
    if es != [] {
      var bs := EncodeEntries(es);
      assert bs[..ENTRY_SIZE] == EncodeEntry(es[0]);
      assert bs[ENTRY_SIZE..] == EncodeEntries(es[1..]);
      DecodeEncodeEntry(es[0]);
      DecodeEncodeEntries(es[1..]);
    }
  }

  /** Loading the record the store persisted gives back the directory it persisted. */
  lemma DecodeEncode(d: AttrList)
    requires |d.entries| == MAX_ATTRS
    ensures Decode(Encode(d)) == d
  {
    var bs := Encode(d);
    assert bs[4..8] == U32Bytes(d.totalSize);
    assert bs[8..] == EncodeEntries(d.entries);
    U32RoundTrip(d.totalSize);
    DecodeEncodeEntries(d.entries);
  }

  lemma {:induction false} DecodeZeroEntries(k: nat)
    ensures DecodeEntries(Zeros(ENTRY_SIZE * k)) == seq(k, _ => Entry(0, 0, 0))
  {
    if k > 0 {
      var z := Zeros(ENTRY_SIZE * k);
      assert z[..ENTRY_SIZE] == Zeros(ENTRY_SIZE);
      assert z[ENTRY_SIZE..] == Zeros(ENTRY_SIZE * (k - 1));
      assert Zeros(ENTRY_SIZE)[4..8] == Zeros(4);
      FromLittleEndianZeros(4);
      DecodeZeroEntries(k - 1);
      assert seq(k, _ => Entry(0, 0, 0)) == [Entry(0, 0, 0)] + seq(k - 1, _ => Entry(0, 0, 0));
    }
  }

  lemma {:induction false} EncodeZeroEntries(k: nat)
    ensures EncodeEntries(seq(k, _ => Entry(0, 0, 0))) == Zeros(ENTRY_SIZE * k)
  {
    if k > 0 {
      var es := seq(k, _ => Entry(0, 0, 0));
      assert es[1..] == seq(k - 1, _ => Entry(0, 0, 0));
      EncodeZeroEntries(k - 1);
      LittleEndianZero(4);
      assert EncodeEntry(Entry(0, 0, 0)) == Zeros(ENTRY_SIZE);
      assert Zeros(ENTRY_SIZE * k) == Zeros(ENTRY_SIZE) + Zeros(ENTRY_SIZE * (k - 1));
    }
  }

  /** The record of the empty directory is all zero: the bytes memset leaves. */
  lemma EncodeEmpty()
    ensures Encode(Empty()) == Zeros(DIR_SIZE)
  {
    LittleEndianZero(4);
    EncodeZeroEntries(MAX_ATTRS);
    assert Zeros(DIR_SIZE) == [0, 0, 0, 0] + Zeros(4) + Zeros(ENTRY_SIZE * MAX_ATTRS);
  }

  /** An all-zero record is the empty directory. */
  lemma DecodeZeros()
    ensures Decode(Zeros(DIR_SIZE)) == Empty()
  {
    var z := Zeros(DIR_SIZE);
    assert z[4..8] == Zeros(4);
    FromLittleEndianZeros(4);
    assert z[8..] == Zeros(ENTRY_SIZE * MAX_ATTRS);
    DecodeZeroEntries(MAX_ATTRS);
  }
}
