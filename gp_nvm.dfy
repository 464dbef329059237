/** The general purpose NVM library of src/gp-nvm.c: the directory `attrs`
    kept in RAM and mirrored at offset 0 of the medium, and the public
    operations init, get_attribute and set_attribute on top of the backend. */
module GpNvm {
  import opened Base
  import opened Directory
  import opened NvmArch

  /** GP_NVM_RESULT_CODE */
  datatype Status = Success | Fail | AttrNotFound | AttrLenDiff | MemFull | MemError
  {
    /** The value of the code in the enumeration. */
    function Code(): (c: byte)
      ensures c < 6
      ensures c == 0 <==> Success?
    {
      match this
      case Success => 0
      case Fail => 1
      case AttrNotFound => 2
      case AttrLenDiff => 3
      case MemFull => 4
      case MemError => 5
    }
  }

  /** Distinct results have distinct codes, so a caller can tell them apart. */
  lemma CodeInjective(s: Status, t: Status)
    ensures s.Code() == t.Code() <==> s == t
  {
  }

  // ---------------------------------------------------------------------
  // What the store holds, seen from outside

  /** The bytes get_attribute delivers for `id` when the directory in RAM is
      `d` and the (existing) medium holds `m`; None when it reports an error. */
  function StoredValue(d: AttrList, m: seq<byte>, id: byte): Option<seq<byte>>
    requires d.numEntries as int <= |d.entries|
  {
    match Find(d, id)
    case None => None
    case Some(k) =>
      var e := d.entries[k];
      if 0 < e.len && e.offset as int + e.len as int <= |m|
      then Some(m[e.offset..e.offset as int + e.len as int])
      else None
  }

  /** The directory in RAM keeps its invariants, the medium exists, ends right
      after the last payload, and starts with the record of this very directory. */
  ghost predicate Consistent(d: AttrList, present: bool, m: seq<byte>)
  {
    && Invariant(d)
    && present
    && |m| == DIR_SIZE + d.totalSize as int
    && m[..DIR_SIZE] == Encode(d)
  }

  /** `m` and `m'` both hold the whole payload region of `d` and agree on it. */
  ghost predicate SamePayload(d: AttrList, m: seq<byte>, m': seq<byte>)
  {
    && DIR_SIZE + d.totalSize as int <= |m|
    && DIR_SIZE + d.totalSize as int <= |m'|
    && forall k :: DIR_SIZE <= k < DIR_SIZE + d.totalSize as int ==> m[k] == m'[k]
  }

  /** In a consistent store every id the directory knows has its bytes on the medium. */
  lemma ConsistentValues(d: AttrList, m: seq<byte>, id: byte)
    requires Consistent(d, true, m)
    ensures StoredValue(d, m, id).Some? <==> Find(d, id).Some?
    ensures StoredValue(d, m, id).Some? ==> |StoredValue(d, m, id).value| == d.entries[Find(d, id).value].len as int
  {
    if Find(d, id).Some? {
      EntryInPayload(d, Find(d, id).value);
    }
  }

  /** An id that reads back as `v` has an entry of length `|v|` whose payload bytes are `v`. */
  lemma StoredIsWritten(d: AttrList, m: seq<byte>, id: byte, v: seq<byte>)
    requires Consistent(d, true, m) && StoredValue(d, m, id) == Some(v)
    ensures Find(d, id).Some?
    ensures var e := d.entries[Find(d, id).value];
            e.len as int == |v| && e.offset as int + e.len as int <= |m| &&
            m[e.offset..e.offset as int + e.len as int] == v
  {
  }

  /** At consistency the next payload offset is the physical end of the medium. */
  lemma NewOffsetIsEnd(d: AttrList, m: seq<byte>)
    requires Consistent(d, true, m)
    ensures NewOffset(d) as int == |m|
  {
    SumLensBound(d.entries[..d.numEntries]);
  }

  /** What get_attribute delivers for `x` depends only on the bytes of the entry lookup finds. */
  lemma SameSliceSameValue(d: AttrList, m: seq<byte>, m': seq<byte>, x: byte, lo: nat, hi: nat)
    requires d.numEntries as int <= |d.entries| && Find(d, x).Some?
    requires lo == d.entries[Find(d, x).value].offset as nat
    requires hi == lo + d.entries[Find(d, x).value].len as nat
    requires hi <= |m| && hi <= |m'| && m'[lo..hi] == m[lo..hi]
    ensures StoredValue(d, m', x) == StoredValue(d, m, x)
  {
  }

  /** What get_attribute delivers depends only on the payload region. */
  lemma SamePayloadSameValues(d: AttrList, m: seq<byte>, m': seq<byte>, id: byte)
    requires Invariant(d) && SamePayload(d, m, m')
    ensures StoredValue(d, m, id) == StoredValue(d, m', id)
  {
    if Find(d, id).Some? {
      EntryInPayload(d, Find(d, id).value);
      var e := d.entries[Find(d, id).value];
      var lo, hi := e.offset as nat, e.offset as nat + e.len as nat;
      assert m[lo..hi] == m'[lo..hi] by {
        forall i | 0 <= i < hi - lo
          ensures m[lo..hi][i] == m'[lo..hi][i]
        {
          assert m[lo + i] == m'[lo + i];
        }
      }
      SameSliceSameValue(d, m, m', id, lo, hi);
    }
  }

  /** What get_attribute delivers for `id` depends only on the entries lookup can see. */
  lemma SameEntriesSameValues(d: AttrList, d': AttrList, m: seq<byte>, id: byte)
    requires d.numEntries as int <= |d.entries| && d.numEntries as int <= d'.numEntries as int <= |d'.entries|
    requires d'.entries[..d.numEntries] == d.entries[..d.numEntries]
    requires Find(d', id) == Find(d, id)
    ensures StoredValue(d', m, id) == StoredValue(d, m, id)
  {
    if Find(d, id).Some? {
      var k := Find(d, id).value;
      assert d'.entries[k] == d'.entries[..d.numEntries][k];
    }
  }

  /** Appending payload bytes and rewriting the record at offset 0 leave the payload region alone. */
  lemma TailAndHeaderKeepPayload(d: AttrList, m: seq<byte>, tail: seq<byte>, header: seq<byte>)
    requires DIR_SIZE + d.totalSize as int <= |m| && |header| <= DIR_SIZE
    ensures SamePayload(d, m, m + tail)
    ensures SamePayload(d, m, Overwrite(m + tail, 0, header))
  {
  }

  /** The medium after a new payload is appended and the grown directory is
      persisted over the record at offset 0. */
  function AddedMedium(d: AttrList, m: seq<byte>, id: byte, value: seq<byte>): seq<byte>
    requires d.numEntries as int < |d.entries| == MAX_ATTRS && |value| < 0x100
  {
    Overwrite(m + value, 0, Encode(Added(d, id, |value| as byte)))
  }

  /** After a successful new-id set from a consistent store the store is consistent again. */
  lemma AddedConsistent(d: AttrList, m: seq<byte>, id: byte, value: seq<byte>)
    requires Consistent(d, true, m) && d.numEntries as int < MAX_ATTRS && Find(d, id).None?
    requires 0 < |value| < 0x100
    ensures Consistent(Added(d, id, |value| as byte), true, AddedMedium(d, m, id, value))
  {
    var d' := Added(d, id, |value| as byte);
    var m' := AddedMedium(d, m, id, value);
    AddedKeepsInvariant(d, id, |value| as byte);
    assert |m'| == |m| + |value|;
    assert m'[..DIR_SIZE] == Encode(d');
  }

  /** Rewriting the record at offset 0 after an append keeps the appended bytes. */
  lemma HeaderKeepsTail(m: seq<byte>, tail: seq<byte>, header: seq<byte>)
    requires DIR_SIZE <= |m| && |header| <= DIR_SIZE
    ensures var m' := Overwrite(m + tail, 0, header);
            |m'| == |m| + |tail| && m'[|m|..|m| + |tail|] == tail
  {
    OverwriteElsewhere(m + tail, 0, header, |m|, |m| + |tail|);
    assert (m + tail)[|m|..|m| + |tail|] == tail;
  }

  /** The entry added for `id` is the one lookup finds, and its payload starts where the medium ended. */
  lemma AddedEntry(d: AttrList, m: seq<byte>, id: byte, len: byte)
    requires Invariant(d) && |m| == DIR_SIZE + d.totalSize as int && d.numEntries as int < MAX_ATTRS && Find(d, id).None?
    requires 0 < len
    ensures Find(Added(d, id, len), id) == Some(d.numEntries as nat)
    ensures |m| < U32_MOD && Added(d, id, len).entries[d.numEntries] == Entry(id, len, |m| as u32)
  {
    AddedKeepsInvariant(d, id, len);
    SumLensBound(d.entries[..d.numEntries]);
  }

  /** After a successful new-id set from a consistent store `id` reads back as `value`. */
  lemma AddedSelf(d: AttrList, m: seq<byte>, id: byte, value: seq<byte>)
    requires Invariant(d) && |m| == DIR_SIZE + d.totalSize as int && d.numEntries as int < MAX_ATTRS && Find(d, id).None?
    requires 0 < |value| < 0x100
    ensures StoredValue(Added(d, id, |value| as byte), AddedMedium(d, m, id, value), id) == Some(value)
  {
    AddedEntry(d, m, id, |value| as byte);
    HeaderKeepsTail(m, value, Encode(Added(d, id, |value| as byte)));
  }

  /** After a successful new-id set from a consistent store every other id reads as before. */
  lemma AddedOthers(d: AttrList, m: seq<byte>, id: byte, value: seq<byte>, x: byte)
    requires Invariant(d) && DIR_SIZE + d.totalSize as int <= |m| && d.numEntries as int < MAX_ATTRS && Find(d, id).None?
    requires 0 < |value| < 0x100 && x != id
    ensures StoredValue(Added(d, id, |value| as byte), AddedMedium(d, m, id, value), x) == StoredValue(d, m, x)
  {
    var d' := Added(d, id, |value| as byte);
    var m' := AddedMedium(d, m, id, value);
    AddedKeepsInvariant(d, id, |value| as byte);
    TailAndHeaderKeepPayload(d, m, value, Encode(d'));
    assert d'.entries[..d.numEntries] == d.entries[..d.numEntries];
    SameEntriesSameValues(d, d', m', x);
    SamePayloadSameValues(d, m, m', x);
  }

  /** A successful new-id set from a consistent store: after the payload is
      appended at the end and the grown directory is persisted, the store is
      consistent again, `id` reads back as `value` and every other id reads
      as before. */
  lemma AddedValues(d: AttrList, m: seq<byte>, id: byte, value: seq<byte>)
    requires Consistent(d, true, m) && d.numEntries as int < MAX_ATTRS && Find(d, id).None?
    requires 0 < |value| < 0x100
    ensures Consistent(Added(d, id, |value| as byte), true, AddedMedium(d, m, id, value))
    ensures StoredValue(Added(d, id, |value| as byte), AddedMedium(d, m, id, value), id) == Some(value)
    ensures forall x :: x != id ==>
              StoredValue(Added(d, id, |value| as byte), AddedMedium(d, m, id, value), x) == StoredValue(d, m, x)
  {
    AddedConsistent(d, m, id, value);
    AddedSelf(d, m, id, value);
    forall x | x != id
      ensures StoredValue(Added(d, id, |value| as byte), AddedMedium(d, m, id, value), x) == StoredValue(d, m, x)
    {
      AddedOthers(d, m, id, value, x);
    }
  }

  /** A failed new-id set from a consistent store: whether the append or the
      persist failed, every id reads as before and `id` is still absent. */
  lemma FailedAddValues(d: AttrList, m: seq<byte>, id: byte, len: byte, tail: seq<byte>, header: seq<byte>)
    requires Consistent(d, true, m) && d.numEntries as int < MAX_ATTRS && Find(d, id).None?
    requires |header| <= DIR_SIZE
    ensures forall x :: StoredValue(d, m + tail, x) == StoredValue(d, m, x)
    ensures forall x :: StoredValue(WithSlot(d, id, len), Overwrite(m + tail, 0, header), x) == StoredValue(d, m, x)
    ensures Find(WithSlot(d, id, len), id).None? && StoredValue(d, m, id).None?
  {
    var d' := WithSlot(d, id, len);
    TailAndHeaderKeepPayload(d, m, tail, header);
    WithSlotInvisible(d, id, len);
    forall x
      ensures StoredValue(d, m + tail, x) == StoredValue(d, m, x)
      ensures StoredValue(d', Overwrite(m + tail, 0, header), x) == StoredValue(d, m, x)
    {
      SamePayloadSameValues(d, m, m + tail, x);
      assert d'.entries[..d.numEntries] == d.entries[..d.numEntries];
      SameEntriesSameValues(d, d', Overwrite(m + tail, 0, header), x);
      SamePayloadSameValues(d, m, Overwrite(m + tail, 0, header), x);
    }
  }

  /** After a failed persist the counters are back at `d` but the payload
      bytes `tail` stay appended, so the medium no longer ends where the
      directory says. The next new-id append still writes at the physical end,
      yet its check reads at sizeof(attr_list_t) + total_size, where the orphaned bytes
      lie: it passes exactly when the new value repeats them, whatever the
      device did with the new bytes. */
  lemma OrphanShadowsNextAppend(d: AttrList, m: seq<byte>, tail: seq<byte>, header: seq<byte>,
                                v: seq<byte>, landing: seq<byte>)
    requires Consistent(d, true, m) && 0 < |tail| && |header| <= DIR_SIZE
    requires 0 < |v| <= |tail| && |landing| == |v|
    ensures var m' := Overwrite(m + tail, 0, header);
            && |m'| != DIR_SIZE + d.totalSize as int
            && (Holds(m' + landing, NewOffset(d) as nat, v) <==> v == tail[..|v|])
  {
    var m' := Overwrite(m + tail, 0, header);
    var lo := |m|;
    assert m'[lo..lo + |v|] == (m + tail)[lo..lo + |v|] == tail[..|v|];
    NewOffsetIsEnd(d, m);
    AppendReadsBack(m', lo, landing, v);
  }

  /** Bytes outside the range an in-place write covers read as before. */
  lemma OverwriteElsewhere(m: seq<byte>, offset: nat, w: seq<byte>, a: nat, b: nat)
    requires a <= b <= |m| && (b <= offset || offset + |w| <= a)
    ensures b <= |Overwrite(m, offset, w)| && Overwrite(m, offset, w)[a..b] == m[a..b]
  {
    var m' := Overwrite(m, offset, w);
    forall i | a <= i < b
      ensures m'[i] == m[i]
    {
    }
  }

  /** The payloads of two different entries in use do not overlap. */
  lemma PayloadsDisjoint(d: AttrList, j: nat, k: nat)
    requires Invariant(d) && j < d.numEntries as nat && k < d.numEntries as nat && j != k
    ensures var e, f := d.entries[j], d.entries[k];
            e.offset as int + e.len as int <= f.offset as int || f.offset as int + f.len as int <= e.offset as int
  {
    if j < k {
      EntriesOrdered(d, j, k);
    } else {
      EntriesOrdered(d, k, j);
    }
  }

  lemma PayloadWriteConsistent(d: AttrList, m: seq<byte>, k: nat, w: seq<byte>)
    requires Consistent(d, true, m) && k < d.numEntries as nat
    requires |w| <= d.entries[k].len as int
    ensures Consistent(d, true, Overwrite(m, d.entries[k].offset as nat, w))
  {
    EntryInPayload(d, k);
    OverwriteElsewhere(m, d.entries[k].offset as nat, w, 0, DIR_SIZE);
  }

  lemma PayloadWriteOther(d: AttrList, m: seq<byte>, k: nat, w: seq<byte>, x: byte)
    requires Invariant(d) && DIR_SIZE + d.totalSize as int <= |m| && k < d.numEntries as nat
    requires |w| <= d.entries[k].len as int && x != d.entries[k].attrId
    ensures StoredValue(d, Overwrite(m, d.entries[k].offset as nat, w), x) == StoredValue(d, m, x)
  {
    if Find(d, x).Some? {
      var j := Find(d, x).value;
      assert j != k;
      PayloadsDisjoint(d, j, k);
      EntryInPayload(d, j);
      var lo, hi := d.entries[j].offset as nat, d.entries[j].offset as nat + d.entries[j].len as nat;
      OverwriteElsewhere(m, d.entries[k].offset as nat, w, lo, hi);
      SameSliceSameValue(d, m, Overwrite(m, d.entries[k].offset as nat, w), x, lo, hi);
    }
  }

  lemma PayloadWriteSelf(d: AttrList, m: seq<byte>, k: nat, w: seq<byte>)
    requires Invariant(d) && DIR_SIZE + d.totalSize as int <= |m| && k < d.numEntries as nat
    requires |w| == d.entries[k].len as int
    ensures StoredValue(d, Overwrite(m, d.entries[k].offset as nat, w), d.entries[k].attrId) == Some(w)
  {
    var lo := d.entries[k].offset as nat;
    EntryInPayload(d, k);
    FindUnique(d, k);
    assert Overwrite(m, lo, w)[lo..lo + |w|] == w;
  }

  /** An in-place write of at most `len` bytes into the payload of entry `k`
      keeps the store consistent and every other id's bytes; a complete write
      makes the id read back as the bytes written. */
  lemma PayloadWriteValues(d: AttrList, m: seq<byte>, k: nat, w: seq<byte>)
    requires Consistent(d, true, m) && k < d.numEntries as nat
    requires |w| <= d.entries[k].len as int
    ensures var e := d.entries[k];
            var m' := Overwrite(m, e.offset as nat, w);
            && Consistent(d, true, m')
            && (forall x :: x != e.attrId ==> StoredValue(d, m', x) == StoredValue(d, m, x))
            && (|w| == e.len as int ==> StoredValue(d, m', e.attrId) == Some(w))
  {
    PayloadWriteConsistent(d, m, k, w);
    forall x | x != d.entries[k].attrId
      ensures StoredValue(d, Overwrite(m, d.entries[k].offset as nat, w), x) == StoredValue(d, m, x)
    {
      PayloadWriteOther(d, m, k, w, x);
    }
    if |w| == d.entries[k].len as int {
      PayloadWriteSelf(d, m, k, w);
    }
  }

  /** The bytes in `attrs` once gp_nvm_init has read the record at offset 0
      into the cleared structure: the record when the whole of it can be read,
      otherwise whatever could be read followed by the zeros memset left. */
  function BootRecord(present: bool, m: seq<byte>): (bs: seq<byte>)
    ensures |bs| == DIR_SIZE
  {
    var got := if present then Available(m, 0, DIR_SIZE) else [];
    got + Zeros(DIR_SIZE - |got|)
  }

  lemma BootRecordRead(present: bool, m: seq<byte>)
    ensures present && DIR_SIZE <= |m| ==> BootRecord(present, m) == m[..DIR_SIZE]
  {
    if present && DIR_SIZE <= |m| {
      assert Available(m, 0, DIR_SIZE) == m[..DIR_SIZE];
    }
  }

  /** With no medium, or an empty one, init starts from the empty directory. */
  lemma BootRecordFresh(present: bool, m: seq<byte>)
    requires !present || m == []
    ensures Decode(BootRecord(present, m)) == Empty()
  {
    assert BootRecord(present, m) == Zeros(DIR_SIZE);
    DecodeZeros();
  }

  /** On a medium that was missing or empty, the bootstrap append of the
      empty directory's record succeeds exactly when the device keeps the 88
      zero bytes, and a file holding just them is a consistent empty store. */
  lemma FreshBootAppend(landing: seq<byte>)
    requires |landing| <= DIR_SIZE
    ensures Encode(Empty()) == Zeros(DIR_SIZE)
    ensures Completed(Zeros(DIR_SIZE), landing) && Holds([] + landing, 0, Zeros(DIR_SIZE)) <==>
              landing == Zeros(DIR_SIZE)
    ensures landing == Zeros(DIR_SIZE) ==> Consistent(Empty(), true, [] + landing)
  {
    EncodeEmpty();
    EmptyInvariant();
    if |landing| == DIR_SIZE {
      AppendReadsBack([], 0, landing, Zeros(DIR_SIZE));
    }
    assert [] + landing == landing;
  }

  /** The outcome of adding a new id from directory `d` over medium bytes `m`,
      as (result, new directory, new medium). A failed payload append adds
      nothing and leaves the appended bytes; after a good append the record
      is rewritten with what the device kept, and success needs it to be the
      grown directory; otherwise the counters are rolled back, leaving only
      the written slot. */
  ghost predicate AddOutcome(d: AttrList, m: seq<byte>, id: byte, length: byte, value: seq<byte>,
                             dataLanding: seq<byte>, listLanding: seq<byte>,
                             res: Status, d': AttrList, present': bool, m': seq<byte>)
    requires d.numEntries as int < |d.entries| == MAX_ATTRS
  {
    var grown := m + dataLanding;
    && present'
    && if !(Completed(value, dataLanding) && Holds(grown, NewOffset(d) as nat, value)) then
         res == MemError && d' == d && m' == grown
       else
         && m' == Overwrite(grown, 0, listLanding)
         && if listLanding == Encode(Added(d, id, length)) then
              res == Success && d' == Added(d, id, length)
            else
              res == MemError && d' == WithSlot(d, id, length)
  }

  /** The outcome of setting the id of entry `k` of directory `d`: with a
      different length nothing changes; otherwise the directory stays and the
      bytes the device kept are written over the entry's payload. */
  ghost predicate OverwriteOutcome(d: AttrList, present: bool, m: seq<byte>, k: nat, length: byte, value: seq<byte>,
                                   dataLanding: seq<byte>, res: Status, d': AttrList, present': bool, m': seq<byte>)
    requires k < |d.entries|
  {
    var e := d.entries[k];
    && d' == d
    && present' == present
    && if e.len != length then
         res == AttrLenDiff && m' == m
       else
         && m' == (if present then Overwrite(m, e.offset as nat, dataLanding) else m)
         && (res == Success || res == MemError)
         && (res == Success <==> present && 0 < length && dataLanding == value)
  }

  // ---------------------------------------------------------------------
  // The store

  class Store {
    /** attrs.num_entries */
    var numEntries: byte
    /** attrs.total_size */
    var totalSize: u32
    /** attrs.entries */
    const entries: array<Entry>
    /** the medium behind nvm_read, nvm_update and nvm_append */
    const medium: Medium

    ghost predicate Wf()
      reads this, medium
    {
      entries.Length == MAX_ATTRS && medium.Valid()
    }

    /** The directory as it stands in RAM. */
    function List(): AttrList
      reads this, entries
    {
      AttrList(numEntries, totalSize, entries[..])
    }

    /** The zero-initialised global `attrs` over the medium as it is found. */
    constructor (medium: Medium)
      requires medium.Valid()
      ensures Wf() && this.medium == medium && fresh(entries)
      ensures List() == Empty()
    {
      numEntries, totalSize := 0, 0;
      entries := new Entry[MAX_ATTRS](_ => Entry(0, 0, 0));
      this.medium := medium;
      new;
      assert entries[..] == Empty().entries;
    }

    /** Overwrites the whole of `attrs` with `d`. */
    method Load(d: AttrList)
      requires entries.Length == MAX_ATTRS && |d.entries| == MAX_ATTRS
      modifies this, entries
      ensures List() == d
    {
      numEntries, totalSize := d.numEntries, d.totalSize;
      forall i | 0 <= i < MAX_ATTRS {
        entries[i] := d.entries[i];
      }
      assert entries[..] == d.entries;
    }

    /** gp_nvm_init: clears `attrs`, then reads the record at offset 0 into it.
        When that read fails the record is taken not to exist and `attrs` is
        appended as the first record (the outcome of that append is ignored).
        The read stores whatever bytes it obtained before failing, so a medium
        shorter than a record leaves those bytes in `attrs`. `landing` is what
        the device keeps of the bootstrap append. */
    method Init(landing: seq<byte>) returns (ghost boot: Option<int>)
      requires Wf() && |landing| <= DIR_SIZE
      modifies this, entries, medium
      ensures Wf()
      ensures List() == Decode(BootRecord(old(medium.present), old(medium.contents)))
      ensures old(medium.present) && DIR_SIZE <= old(|medium.contents|) ==> unchanged(medium)
      ensures !(old(medium.present) && DIR_SIZE <= old(|medium.contents|)) ==>
                medium.present && medium.contents == old(medium.contents) + landing
      // the result of the bootstrap append, which the source discards
      ensures boot.None? <==> old(medium.present) && DIR_SIZE <= old(|medium.contents|)
      ensures boot.Some? ==>
                (boot.value == 0 <==>
                 Completed(Encode(List()), landing) && Holds(medium.contents, 0, Encode(List())))
      ensures old(!medium.present || medium.contents == []) ==>
                List() == Empty() && Encode(List()) == Zeros(DIR_SIZE) &&
                (boot == Some(0) <==> landing == Zeros(DIR_SIZE)) &&
                (boot == Some(0) ==> Consistent(List(), medium.present, medium.contents))
      ensures old(Consistent(List(), medium.present, medium.contents)) ==>
                List() == old(List()) && unchanged(medium)
    {
      ghost var d0, p0, m0 := List(), medium.present, medium.contents;
      Load(Empty());
      var r, got := medium.Read(0, DIR_SIZE);
      assert got + Zeros(DIR_SIZE - |got|) == BootRecord(p0, m0) by {
        BootRecordRead(p0, m0);
      }
      Load(Decode(got + Zeros(DIR_SIZE - |got|)));
      if r != 0 {
        var b := medium.Append(0, DIR_SIZE, Encode(List()), landing);
        boot := Some(b);
      } else {
        boot := None;
      }
      if !p0 || m0 == [] {
        BootRecordFresh(p0, m0);
        FreshBootAppend(landing);
      }
      if Consistent(d0, p0, m0) {
        BootRecordRead(p0, m0);
        DecodeEncode(d0);
      }
    }

    /** _gp_nvm_get_attr_list_entry: scans `entries[..numEntries]` and stops at
        the first entry with id `id`. */
    method Lookup(id: byte) returns (attr: Option<nat>)
      requires Wf() && numEntries as int <= MAX_ATTRS
      ensures attr.Some? ==> attr.value < numEntries as int && entries[attr.value].attrId == id
      ensures attr.Some? ==> forall j :: 0 <= j < attr.value ==> entries[j].attrId != id
      ensures attr.None? <==> forall j :: 0 <= j < numEntries as int ==> entries[j].attrId != id
      ensures attr == Find(List(), id)
    {
      attr := None;
      var i := 0;
      while i < numEntries as int && attr.None?
        invariant 0 <= i <= numEntries as int
        invariant attr.None? ==> forall j :: 0 <= j < i ==> entries[j].attrId != id
        invariant attr.Some? ==> attr.value == i - 1 && entries[i - 1].attrId == id
        invariant attr.Some? ==> forall j :: 0 <= j < i - 1 ==> entries[j].attrId != id
      {
        if entries[i].attrId == id {
          attr := Some(i);
        }
        i := i + 1;
      }
      FindIsFirst(List(), id);
    }

    /** gp_nvm_get_attribute: AttrNotFound, writing neither output, when `id`
        is not in the directory; otherwise the entry's bytes are read from its
        offset. `length` is what lands in *p_length and `value` what lands at
        the start of the caller's buffer. The directory is not changed. */
    method Get(id: byte) returns (res: Status, length: Option<byte>, value: seq<byte>)
      requires Wf() && numEntries as int <= MAX_ATTRS
      ensures res == Success || res == AttrNotFound || res == MemError
      ensures res == AttrNotFound <==> Find(List(), id).None?
      ensures res == AttrNotFound ==> length.None? && value == []
      ensures res == Success <==> medium.present && StoredValue(List(), medium.contents, id).Some?
      ensures Find(List(), id).Some? ==>
                var e := entries[Find(List(), id).value];
                && (res == Success ==>
                      length == Some(e.len) && value == medium.contents[e.offset..e.offset as int + e.len as int])
                && (res == MemError ==>
                      length.None? &&
                      value == if medium.present then Available(medium.contents, e.offset as nat, e.len as nat) else [])
    {
      var attr := Lookup(id);
      if attr.None? {
        return AttrNotFound, None, [];
      }
      var e := entries[attr.value];
      var r;
      r, value := medium.Read(e.offset as nat, e.len as nat);
      if r != 0 {
        return MemError, None, value;
      }
      return Success, Some(e.len), value;
    }

    /** The new-id branch of gp_nvm_set_attribute, after the capacity check:
        append the payload at sizeof(attr_list_t) + total_size, add the entry,
        persist the directory at offset 0, and roll the counters back if that
        fails. The slot written stays written in RAM. */
    method AddNew(id: byte, length: byte, value: seq<byte>, dataLanding: seq<byte>, listLanding: seq<byte>)
      returns (res: Status)
      requires Wf() && numEntries as int < MAX_ATTRS && Find(List(), id).None?
      requires |value| == length as int && |dataLanding| <= length as int && |listLanding| <= DIR_SIZE
      modifies this, entries, medium
      ensures Wf() && numEntries as int <= MAX_ATTRS
      ensures AddOutcome(old(List()), old(medium.contents), id, length, value, dataLanding, listLanding,
                         res, List(), medium.present, medium.contents)
    {
      ghost var d := List();
      var offset := NewOffset(List());
      var r := medium.Append(offset as nat, length as nat, value, dataLanding);
      if r != 0 {
        return MemError;
      }
      entries[numEntries] := Entry(id, length, offset);
      totalSize := Wrap32(totalSize as int + length as int);
      numEntries := numEntries + 1;
      assert List() == Added(d, id, length);
      r := medium.Update(0, DIR_SIZE, Encode(List()), listLanding);
      if r != 0 {
        AddThenSubtract(d.totalSize, length);
        totalSize := Wrap32(totalSize as int - length as int);
        numEntries := numEntries - 1;
        assert List() == WithSlot(d, id, length);
        return MemError;
      }
      return Success;
    }

    /** gp_nvm_set_attribute. A new id gets MemFull when the directory is
        full, and otherwise goes through AddNew. An existing id gets
        AttrLenDiff, with nothing changed, when `length` differs from its
        length, and otherwise has its bytes overwritten in place; the directory
        is left as it is. `dataLanding` and `listLanding` are what the device
        keeps of the payload write and of the directory persist. */
    method Set(id: byte, length: byte, value: seq<byte>, dataLanding: seq<byte>, listLanding: seq<byte>)
      returns (res: Status)
      requires Wf() && numEntries as int <= MAX_ATTRS
      requires |value| == length as int && |dataLanding| <= length as int && |listLanding| <= DIR_SIZE
      modifies this, entries, medium
      ensures Wf() && numEntries as int <= MAX_ATTRS
      ensures res == Success || res == AttrLenDiff || res == MemFull || res == MemError
      // a new id
      ensures old(Find(List(), id)).None? && old(numEntries) as int == MAX_ATTRS ==>
                res == MemFull && List() == old(List()) && unchanged(medium)
      ensures old(Find(List(), id)).None? && old(numEntries) as int < MAX_ATTRS ==>
                AddOutcome(old(List()), old(medium.contents), id, length, value, dataLanding, listLanding,
                           res, List(), medium.present, medium.contents)
      // an existing id
      ensures old(Find(List(), id)).Some? ==>
                OverwriteOutcome(old(List()), old(medium.present), old(medium.contents), old(Find(List(), id)).value,
                                 length, value, dataLanding, res, List(), medium.present, medium.contents)
      // the directory invariants hold whatever the medium does
      ensures old(Invariant(List())) ==> Invariant(List())
      // entries in use are never changed or removed
      ensures old(numEntries) <= numEntries && entries[..old(numEntries)] == old(entries[..numEntries])
      // seen from outside, starting from a consistent store
      ensures old(Consistent(List(), medium.present, medium.contents)) ==>
                forall x :: x != id ==> StoredValue(List(), medium.contents, x) == old(StoredValue(List(), medium.contents, x))
      ensures old(Consistent(List(), medium.present, medium.contents)) && res == Success ==>
                Consistent(List(), medium.present, medium.contents) &&
                StoredValue(List(), medium.contents, id) == Some(value)
      ensures old(Consistent(List(), medium.present, medium.contents)) && old(Find(List(), id)).None? && res != Success ==>
                Find(List(), id).None? && StoredValue(List(), medium.contents, id).None?
      ensures old(Consistent(List(), medium.present, medium.contents)) && old(Find(List(), id)).None? ==>
                (res == Success <==>
                   old(numEntries) as int < MAX_ATTRS && 0 < length && dataLanding == value &&
                   listLanding == Encode(Added(old(List()), id, length)))
      ensures old(Consistent(List(), medium.present, medium.contents)) && old(Find(List(), id)).Some? && res == MemError ==>
                Consistent(List(), medium.present, medium.contents)
    {
      ghost var d, m := List(), medium.contents;
      ghost var consistent := Consistent(d, medium.present, m);
      var attr := Lookup(id);
      if attr.None? {
        if numEntries as int == MAX_ATTRS {
          return MemFull;
        }
        res := AddNew(id, length, value, dataLanding, listLanding);
        assert List().entries[..d.numEntries] == d.entries[..d.numEntries];
        if Invariant(d) {
          WithSlotInvisible(d, id, length);
          if 0 < length {
            AddedKeepsInvariant(d, id, length);
          }
        }
        if consistent {
          NewOffsetIsEnd(d, m);
          if |dataLanding| == |value| {
            AppendReadsBack(m, NewOffset(d) as nat, dataLanding, value);
          }
          FailedAddValues(d, m, id, length, dataLanding, listLanding);
          if res == Success {
            AddedValues(d, m, id, value);
          }
        }
      } else {
        var k := attr.value;
        if entries[k].len != length {
          return AttrLenDiff;
        }
        var r := medium.Update(entries[k].offset as nat, entries[k].len as nat, value, dataLanding);
        res := if r == 0 then Success else MemError;
        if consistent {
          PayloadWriteValues(d, m, k, dataLanding);
        }
      }
    }

    /** get_attribute on a consistent store: an id that holds `v` reads back
        with Success, its length and exactly `v`. */
    method GetStored(id: byte, ghost v: seq<byte>) returns (res: Status, length: Option<byte>, value: seq<byte>)
      requires Wf() && Consistent(List(), medium.present, medium.contents)
      requires StoredValue(List(), medium.contents, id) == Some(v)
      ensures res == Success && length == Some(|v| as byte) && value == v
    {
      StoredIsWritten(List(), medium.contents, id, v);
      res, length, value := Get(id);
    }

    /** A set on a healthy device followed by a get of the same id: when the
        set succeeds the get finds the bytes just written, with their length. */
    method SetThenGet(id: byte, value: seq<byte>, listLanding: seq<byte>)
      returns (setRes: Status, getRes: Status, length: Option<byte>, got: seq<byte>)
      requires Wf() && Consistent(List(), medium.present, medium.contents)
      requires 0 < |value| < 0x100 && |listLanding| <= DIR_SIZE
      modifies this, entries, medium
      ensures Wf()
      ensures setRes == Success ==> getRes == Success && length == Some(|value| as byte) && got == value
    {
      setRes := Set(id, |value| as byte, value, value, listLanding);
      if setRes == Success {
        getRes, length, got := GetStored(id, value);
      } else {
        getRes, length, got := Get(id);
      }
    }
  }
}
