/**
  The capacity-bounded directory listing of the jacobsa binding: entries
  are encoded one after another into the caller's destination buffer until
  the next one does not fit.

  The byte layout of an entry belongs to the FUSE library and is taken as a
  parameter `encode`; `WriteDirent` accepts an entry only when its
  encoding is non-empty and fits in the room left.
 */
module DirentBuffer {
  import opened Fuse

  type Encoder = DirEntry -> seq<bv8>

  /** The encodings of `entries`, back to back in order. */
  function Encoded(entries: seq<DirEntry>, encode: Encoder): (bytes: seq<bv8>)
    decreases |entries|
  {
    if entries == [] then [] else encode(entries[0]) + Encoded(entries[1..], encode)
  }

  lemma {:induction false} EncodedAppend(a: seq<DirEntry>, b: seq<DirEntry>, encode: Encoder)
    ensures Encoded(a + b, encode) == Encoded(a, encode) + Encoded(b, encode)
    decreases |a|
  {
    if a == [] {
      assert a + b == b;
    } else {
      assert (a + b)[0] == a[0];
      assert (a + b)[1..] == a[1..] + b;
      EncodedAppend(a[1..], b, encode);
    }
  }

  /** The writer accepts `e` into `room` bytes. */
  predicate Fits(e: DirEntry, room: nat, encode: Encoder)
  {
    0 < |encode(e)| <= room
  }

  /** A buffer after a write and the byte count that goes with it. */
  datatype Written = Written(buf: seq<bv8>, n: nat)

  /** `fuseutil.WriteDirent`: put the entry's encoding at the front of
      `buf` and answer its length, or answer 0 and leave `buf` as it was. */
  function WriteDirent(buf: seq<bv8>, e: DirEntry, encode: Encoder): (w: Written)
    ensures |w.buf| == |buf|
    ensures w.n > 0 <==> Fits(e, |buf|, encode)
    ensures w.n == 0 ==> w.buf == buf
    ensures w.n > 0 ==> w.n == |encode(e)| && w.buf == encode(e) + buf[w.n..]
  {
    var enc := encode(e);
    if !Fits(e, |buf|, encode) then Written(buf, 0)
    else Written(enc + buf[|enc|..], |enc|)
  }

  /** How many leading entries the listing loop writes into `room` bytes:
      it counts entries while each one fits in what the ones before it
      left. */
  function Fill(entries: seq<DirEntry>, room: nat, encode: Encoder): (k: nat)
    ensures k <= |entries|
    decreases |entries|
  {
    if entries == [] || !Fits(entries[0], room, encode) then 0
    else 1 + Fill(entries[1..], room - |encode(entries[0])|, encode)
  }

  /** `Fill` counts the longest prefix that the loop can write: the
      encodings of the counted entries fit in the room together, each is
      non-empty, and the next entry, if any, does not fit in what is left. */
  lemma {:induction false} FillFits(entries: seq<DirEntry>, room: nat, encode: Encoder)
    ensures var k := Fill(entries, room, encode);
            && |Encoded(entries[..k], encode)| <= room
            && (forall i | 0 <= i < k :: |encode(entries[i])| > 0)
            && (k < |entries| ==> !Fits(entries[k], room - |Encoded(entries[..k], encode)|, encode))
    decreases |entries|
  {
    if entries == [] || !Fits(entries[0], room, encode) {
      assert entries[..0] == [];
    } else {
      var n := |encode(entries[0])|;
      var k := Fill(entries[1..], room - n, encode);
      FillFits(entries[1..], room - n, encode);
      EncodedPrefixCons(entries, k, encode);
    }
  }

  /** The encoding of the first `k + 1` entries is the first entry's
      encoding followed by that of the next `k`. */
  lemma EncodedPrefixCons(entries: seq<DirEntry>, k: nat, encode: Encoder)
    requires k < |entries|
    ensures Encoded(entries[..k + 1], encode) == encode(entries[0]) + Encoded(entries[1..][..k], encode)
    ensures forall i | 1 <= i < k + 1 :: entries[i] == entries[1..][i - 1]
  {
    assert entries[..k + 1][1..] == entries[1..][..k];
  }

  /** The loop over the remaining entries, as written: write the next
      entry at `bytesRead`; stop at the first one `WriteDirent` refuses.
      The answer is the new buffer and the new `bytesRead`. */
  function WriteEntries(entries: seq<DirEntry>, dst: seq<bv8>, bytesRead: nat, encode: Encoder): (w: Written)
    requires bytesRead <= |dst|
    ensures |w.buf| == |dst|
    decreases |entries|
  {
    if entries == [] then Written(dst, bytesRead)
    else
      var step := WriteDirent(dst[bytesRead..], entries[0], encode);
      if step.n == 0 then Written(dst, bytesRead)
      else WriteEntries(entries[1..], dst[..bytesRead] + step.buf, bytesRead + step.n, encode)
  }

  /** The loop writes exactly the entries `Fill` counts: the bytes before
      `bytesRead` are kept, the encodings of those entries follow in order,
      the new count is their end, and the bytes after it are kept. */
  ghost predicate WritesFill(entries: seq<DirEntry>, dst: seq<bv8>, bytesRead: nat, encode: Encoder)
    requires bytesRead <= |dst|
  {
    var w := WriteEntries(entries, dst, bytesRead, encode);
    var written := Encoded(entries[..Fill(entries, |dst| - bytesRead, encode)], encode);
    && w.n == bytesRead + |written|
    && w.n <= |dst|
    && w.buf == dst[..bytesRead] + written + dst[w.n..]
  }

  lemma {:induction false} WriteEntriesWritesFill(entries: seq<DirEntry>, dst: seq<bv8>, bytesRead: nat, encode: Encoder)
    requires bytesRead <= |dst|
    ensures WritesFill(entries, dst, bytesRead, encode)
    decreases |entries|
  {
    if entries == [] || !Fits(entries[0], |dst| - bytesRead, encode) {
      assert entries[..0] == [];
      assert dst == dst[..bytesRead] + dst[bytesRead..];
    } else {
      var enc := encode(entries[0]);
      var mid := bytesRead + |enc|;
      var dst' := dst[..bytesRead] + enc + dst[mid..];
      WriteEntriesWritesFill(entries[1..], dst', mid, encode);
      WritesFillStep(entries, dst, bytesRead, encode);
    }
  }

  /** The inductive step: if the loop started after the first entry writes
      what `Fill` counts, so does the loop started before it. */
  lemma WritesFillStep(entries: seq<DirEntry>, dst: seq<bv8>, bytesRead: nat, encode: Encoder)
    requires bytesRead <= |dst|
    requires entries != [] && Fits(entries[0], |dst| - bytesRead, encode)
    requires var enc := encode(entries[0]);
             WritesFill(entries[1..], dst[..bytesRead] + enc + dst[bytesRead + |enc|..], bytesRead + |enc|, encode)
    ensures WritesFill(entries, dst, bytesRead, encode)
  {
    var enc := encode(entries[0]);
    var mid := bytesRead + |enc|;
    var dst' := dst[..bytesRead] + enc + dst[mid..];
    WriteEntriesStep(entries, dst, bytesRead, encode);
    FillStep(entries, |dst| - bytesRead, encode);
    var w := WriteEntries(entries[1..], dst', mid, encode);
    var rest := Encoded(entries[1..][..Fill(entries[1..], |dst| - mid, encode)], encode);
    StepAlgebra(dst, bytesRead, enc, rest, w.n, w.buf);
  }

  /** The byte bookkeeping of one loop turn: the entry's encoding written at
      `bytesRead`, then `rest` written after it, regroup into the entry and
      `rest` written at `bytesRead`. */
  lemma StepAlgebra(dst: seq<bv8>, bytesRead: nat, enc: seq<bv8>, rest: seq<bv8>, n: nat, buf: seq<bv8>)
    requires bytesRead + |enc| <= |dst|
    requires var dst' := dst[..bytesRead] + enc + dst[bytesRead + |enc|..];
             && n == bytesRead + |enc| + |rest|
             && n <= |dst'|
             && buf == dst'[..bytesRead + |enc|] + rest + dst'[n..]
    ensures n == bytesRead + |enc + rest|
    ensures n <= |dst|
    ensures buf == dst[..bytesRead] + (enc + rest) + dst[n..]
  {
  }

  /** One turn of the loop when the next entry fits. */
  lemma WriteEntriesStep(entries: seq<DirEntry>, dst: seq<bv8>, bytesRead: nat, encode: Encoder)
    requires bytesRead <= |dst|
    requires entries != [] && Fits(entries[0], |dst| - bytesRead, encode)
    ensures WriteEntries(entries, dst, bytesRead, encode)
         == WriteEntries(entries[1..], dst[..bytesRead] + encode(entries[0]) + dst[bytesRead + |encode(entries[0])|..],
                         bytesRead + |encode(entries[0])|, encode)
  {
    var enc := encode(entries[0]);
    var step := WriteDirent(dst[bytesRead..], entries[0], encode);
    assert step.buf == enc + dst[bytesRead + |enc|..] by {
      assert dst[bytesRead..][|enc|..] == dst[bytesRead + |enc|..];
    }
    assert dst[..bytesRead] + step.buf == dst[..bytesRead] + enc + dst[bytesRead + |enc|..];
  }

  /** When the first entry fits, `Fill` counts it and goes on with the
      room it leaves. */
  lemma FillStep(entries: seq<DirEntry>, room: nat, encode: Encoder)
    requires entries != [] && Fits(entries[0], room, encode)
    ensures var n := |encode(entries[0])|;
            var k := Fill(entries[1..], room - n, encode);
            && Fill(entries, room, encode) == k + 1
            && Encoded(entries[..k + 1], encode) == encode(entries[0]) + Encoded(entries[1..][..k], encode)
  {
    var k := Fill(entries[1..], room - |encode(entries[0])|, encode);
    EncodedPrefixCons(entries, k, encode);
  }

  /** When every entry has a non-empty encoding and all of them fit
      together, the loop writes them all. */
  lemma {:induction false} FillTakesAll(entries: seq<DirEntry>, room: nat, encode: Encoder)
    requires forall i | 0 <= i < |entries| :: |encode(entries[i])| > 0
    requires |Encoded(entries, encode)| <= room
    ensures Fill(entries, room, encode) == |entries|
    decreases |entries|
  {
    if entries != [] {
      FillTakesAll(entries[1..], room - |encode(entries[0])|, encode);
    }
  }

  /** An entry that fits in an empty buffer of `room` bytes is always
      written by a fresh call, so a listing never stalls. */
  lemma FillMakesProgress(entries: seq<DirEntry>, room: nat, encode: Encoder)
    requires entries != [] && Fits(entries[0], room, encode)
    ensures Fill(entries, room, encode) > 0
  {
  }

  /** Splitting the entries anywhere splits their encoding there. */
  lemma EncodedSplit(entries: seq<DirEntry>, k: nat, encode: Encoder)
    requires k <= |entries|
    ensures Encoded(entries, encode) == Encoded(entries[..k], encode) + Encoded(entries[k..], encode)
  {
    assert entries == entries[..k] + entries[k..];
    EncodedAppend(entries[..k], entries[k..], encode);
  }
}
