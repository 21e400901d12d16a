/** A queue of byte chunks, proved to behave like one flat sequence of bytes. */
module ByteArrayBuffer {
  import opened Wrappers

  type Byte = x: int | 0 <= x < 0x100
  type Word = x: int | 0 <= x < 0x1_0000_0000
  const WORDS := 0x1_0000_0000

  function Min(a: nat, b: nat): nat {
    if a < b then a else b
  }

  ghost predicate IsSuffix<T>(t: seq<T>, s: seq<T>) {
    |t| <= |s| && t == s[|s| - |t|..]
  }

  /** The chunks one after another. */
  function Flat(chunks: seq<seq<Byte>>): seq<Byte> {
    if chunks == [] then [] else chunks[0] + Flat(chunks[1..])
  }

  /** The bytes of s from offs on, at most length of them. */
  function Slice(s: seq<Byte>, offs: nat, length: nat): (part: seq<Byte>)
    ensures offs >= |s| ==> part == []
    ensures |part| == Min(length, |s| - Min(offs, |s|))
  {
    s[Min(offs, |s|)..Min(offs + length, |s|)]
  }

  lemma {:induction false} FlatConcat(a: seq<seq<Byte>>, b: seq<seq<Byte>>)
    ensures Flat(a + b) == Flat(a) + Flat(b)
  {
    if a == [] {
      assert a + b == b;
    } else {
      assert (a + b)[1..] == a[1..] + b;
      FlatConcat(a[1..], b);
    }
  }

  lemma FirstChunkGone(chunks: seq<seq<Byte>>)
    requires chunks != []
    ensures |chunks[0]| <= |Flat(chunks)| && Flat(chunks[1..]) == Flat(chunks)[|chunks[0]|..]
  {
  }

  lemma FirstChunkCut(chunks: seq<seq<Byte>>, n: nat)
    requires chunks != [] && n <= |chunks[0]|
    ensures n <= |Flat(chunks)| && Flat([chunks[0][n..]] + chunks[1..]) == Flat(chunks)[n..]
  {
    var cut := [chunks[0][n..]] + chunks[1..];
    assert cut[0] == chunks[0][n..] && cut[1..] == chunks[1..];
  }

  lemma Regroup<T>(a: seq<T>, b: seq<T>, c: seq<T>)
    ensures a + (b + c) == (a + b) + c
  {
  }

  lemma DropTwice<T>(s: seq<T>, a: nat, b: nat)
    requires a + b <= |s|
    ensures s[a..][b..] == s[a + b..]
  {
  }

  /** What is sliced off a concatenation comes first from the left part, then from the right. */
  lemma SliceConcat(a: seq<Byte>, b: seq<Byte>, offs: nat, length: nat)
    ensures offs >= |a| ==> Slice(a + b, offs, length) == Slice(b, offs - |a|, length)
    ensures offs < |a| ==> Slice(a + b, offs, length)
                           == Slice(a, offs, length) + Slice(b, 0, length - |Slice(a, offs, length)|)
  {
  }

  /** The chunk that holds the offs-th byte is asked for a range whose end does not fit a machine word. */
  predicate Overreads(chunks: seq<seq<Byte>>, offs: nat, length: Word) {
    && length > 0 && chunks != []
    && if offs < |chunks[0]| then offs + length >= WORDS else Overreads(chunks[1..], offs - |chunks[0]|, length)
  }

  /** The chunk is the one that holds the offs-th byte, and only the offset inside it matters. */
  lemma {:induction false} OverreadsByChunk(chunks: seq<seq<Byte>>, offs: nat, length: Word)
    ensures Overreads(chunks, offs, length) <==>
            exists k :: 0 <= k < |chunks| && |Flat(chunks[..k])| <= offs < |Flat(chunks[..k])| + |chunks[k]|
                        && length > 0 && offs - |Flat(chunks[..k])| + length >= WORDS
  {
    if chunks == [] {
    } else {
      assert |Flat(chunks[..0])| == 0;
      if offs >= |chunks[0]| {
        var rest := chunks[1..];
        OverreadsByChunk(rest, offs - |chunks[0]|, length);
        forall k | 0 <= k < |rest|
          ensures |Flat(chunks[..k + 1])| == |chunks[0]| + |Flat(rest[..k])| && rest[k] == chunks[k + 1]
        {
          assert chunks[..k + 1][1..] == rest[..k];
        }
        forall k | 1 <= k < |chunks|
          ensures |Flat(chunks[..k])| == |chunks[0]| + |Flat(rest[..k - 1])| && rest[k - 1] == chunks[k]
        {
          assert chunks[..k][1..] == rest[..k - 1];
        }
      } else {
        forall k | 1 <= k < |chunks| ensures |Flat(chunks[..k])| > offs {
          assert Flat(chunks[..k]) == chunks[0] + Flat(chunks[..k][1..]);
        }
      }
    }
  }

  /** A range that ends within a word is always read correctly; in particular one that starts at 0. */
  lemma {:induction false} NoOverreadWithinAWord(chunks: seq<seq<Byte>>, offs: nat, length: Word)
    requires offs + length < WORDS
    ensures !Overreads(chunks, offs, length)
  {
    if chunks == [] || offs < |chunks[0]| {
    } else {
      NoOverreadWithinAWord(chunks[1..], offs - |chunks[0]|, length);
    }
  }

  /** Such a range starts at the second of two bytes, and asks for all that a word can count. */
  lemma OverreadHappens()
    ensures Overreads([[1, 2]], 1, 0xFFFF_FFFF)
  {
  }

  /** Reading on from the first chunk: it lies before the offset, or it gives a part and the next is read from 0. */
  lemma NextChunk(chunks: seq<seq<Byte>>, offs: nat, length: Word)
    requires chunks != [] && length > 0
    ensures var part := Slice(chunks[0], offs, length);
            var all := Slice(Flat(chunks), offs, length);
            if part == [] then
              && offs >= |chunks[0]| && all == Slice(Flat(chunks[1..]), offs - |chunks[0]|, length)
              && Overreads(chunks, offs, length) == Overreads(chunks[1..], offs - |chunks[0]|, length)
            else
              && offs < |chunks[0]| && all == part + Slice(Flat(chunks[1..]), 0, length - |part|)
              && Overreads(chunks, offs, length) == (offs + length >= WORDS)
              && !Overreads(chunks[1..], 0, length - |part|)
  {
    var part := Slice(chunks[0], offs, length);
    SliceConcat(chunks[0], Flat(chunks[1..]), offs, length);
    if part != [] {
      NoOverreadWithinAWord(chunks[1..], 0, length - |part|);
    }
  }

  /** A range of the chunks is being read: read is what came so far, and the rest is due from the i-th chunk on. */
  ghost predicate Underway(chunks: seq<seq<Byte>>, srcOffs: nat, length: Word, i: nat, read: seq<Byte>, offs: nat) {
    && i <= |chunks| && |read| <= length
    && Slice(Flat(chunks), srcOffs, length) == read + Slice(Flat(chunks[i..]), offs, length - |read|)
    && Overreads(chunks, srcOffs, length) == Overreads(chunks[i..], offs, length - |read|)
  }

  lemma ReadingStarts(chunks: seq<seq<Byte>>, srcOffs: nat, length: Word)
    ensures Underway(chunks, srcOffs, length, 0, [], srcOffs)
  {
    assert chunks[0..] == chunks;
  }

  /** A chunk that lies before the offset is passed over. */
  lemma SkipOn(chunks: seq<seq<Byte>>, srcOffs: nat, length: Word, i: nat, read: seq<Byte>, offs: nat)
    requires Underway(chunks, srcOffs, length, i, read, offs) && i < |chunks| && |read| < length
    requires offs >= |chunks[i]|
    ensures Underway(chunks, srcOffs, length, i + 1, read, offs - |chunks[i]|)
  {
    assert chunks[i..][1..] == chunks[i + 1..] && chunks[i..][0] == chunks[i];
    NextChunk(chunks[i..], offs, length - |read|);
  }

  /** Another one gives its part, unless the range ends beyond a word. */
  lemma TakeOn(chunks: seq<seq<Byte>>, srcOffs: nat, length: Word, i: nat, read: seq<Byte>, offs: nat, part: seq<Byte>)
    requires Underway(chunks, srcOffs, length, i, read, offs) && i < |chunks| && |read| < length
    requires offs < |chunks[i]| && part == Slice(chunks[i], offs, length - |read|)
    ensures if offs + length - |read| >= WORDS then Overreads(chunks, srcOffs, length)
            else Underway(chunks, srcOffs, length, i + 1, read + part, 0)
  {
    assert chunks[i..][1..] == chunks[i + 1..] && chunks[i..][0] == chunks[i];
    NextChunk(chunks[i..], offs, length - |read|);
    Regroup(read, part, Slice(Flat(chunks[i + 1..]), 0, length - |read| - |part|));
  }

  lemma ReadOn(chunks: seq<seq<Byte>>, srcOffs: nat, length: Word, i: nat, read: seq<Byte>, offs: nat)
    requires Underway(chunks, srcOffs, length, i, read, offs) && i < |chunks| && |read| < length
    ensures var want := length - |read|;
            var part := Slice(chunks[i], offs, want);
            if offs < |chunks[i]| && offs + want >= WORDS then Overreads(chunks, srcOffs, length)
            else Underway(chunks, srcOffs, length, i + 1, read + part, if part == [] then offs - |chunks[i]| else 0)
    ensures Slice(chunks[i], offs, length - |read|) == [] <==> offs >= |chunks[i]|
  {
    var part := Slice(chunks[i], offs, length - |read|);
    if offs >= |chunks[i]| {
      assert read + part == read;
      SkipOn(chunks, srcOffs, length, i, read, offs);
    } else {
      TakeOn(chunks, srcOffs, length, i, read, offs, part);
    }
  }

  lemma AllRead(chunks: seq<seq<Byte>>, srcOffs: nat, length: Word, i: nat, read: seq<Byte>, offs: nat)
    requires Underway(chunks, srcOffs, length, i, read, offs) && (i == |chunks| || |read| == length)
    ensures Slice(Flat(chunks), srcOffs, length) == read && !Overreads(chunks, srcOffs, length)
  {
    if i == |chunks| {
      assert Flat(chunks[i..]) == [];
    }
  }

  lemma Filled(before: seq<Byte>, sofar: seq<Byte>, now: seq<Byte>, read: seq<Byte>, part: seq<Byte>)
    requires |read| + |part| <= |before| && sofar == read + before[|read|..]
    requires now == sofar[..|read|] + part + sofar[|read| + |part|..]
    ensures now == (read + part) + before[|read + part|..]
  {
  }

  /** memcpy. */
  method CopyBytes(target: array<Byte>, at: nat, part: seq<Byte>)
    requires at + |part| <= target.Length
    modifies target
    ensures target[..] == old(target[..at]) + part + old(target[at + |part|..])
  {
    forall k | 0 <= k < |part| {
      target[at + k] := part[k];
    }
    ghost var now, wanted := target[..], old(target[..at]) + part + old(target[at + |part|..]);
    assert |now| == |wanted| && forall k :: 0 <= k < |now| ==> now[k] == wanted[k];
  }

  /** A chunk of bytes. */
  class ByteArray {
    var data: seq<Byte>

    constructor ()
      ensures data == []
    {
      data := [];
    }

    method SetDataFromBuffer(source: seq<Byte>)
      modifies this
      ensures data == source
    {
      data := source;
    }

    /**
     * Copies the part of the chunk that starts at srcOffs into target, from position at on. The
     * end of the range is computed in a machine word; where that wraps, the chunk is read past
     * its end, which is the answer None.
     */
    method CopyDataToBuffer(target: array<Byte>, at: nat, length: Word, srcOffs: Word) returns (copied: Option<Word>)
      requires at + length <= target.Length && |data| < WORDS
      modifies target
      ensures copied.None? <==> srcOffs < |data| && srcOffs + length >= WORDS
      ensures copied.Some? ==> var part := Slice(data, srcOffs, length);
                               && copied.value == |part|
                               && target[..] == old(target[..at]) + part + old(target[at + |part|..])
    {
      if srcOffs >= |data| {
        return Some(0);
      }
      var count := length;
      if (srcOffs + length) % WORDS > |data| {
        count := |data| - srcOffs;
      }
      if srcOffs + count > |data| {
        return None;
      }
      CopyBytes(target, at, data[srcOffs..srcOffs + count]);
      copied := Some(count);
    }

    /**
     * Cuts bytes off at either end. The source's assertion adds the two counts in a machine word;
     * where that wraps it lets through counts for which the chunk is then read past its end,
     * unless nothing is to be left of it.
     */
    method TruncateData(left: Word, right: Word) returns (ok: bool)
      requires (left + right) % WORDS <= |data| < WORDS
      modifies this
      ensures ok <==> left + right <= |old(data)| || left + right == WORDS + |old(data)|
      ensures ok ==> data == if left + right <= |old(data)| then old(data)[left..|old(data)| - right] else []
      ensures !ok ==> data == old(data)
    {
      ok := true;
      if left > 0 || right > 0 {
        var count := |data| - (left + right) % WORDS;
        if count == 0 {
          data := [];
        } else if left + count > |data| {
          ok := false;
        } else {
          data := data[left..left + count];
        }
      }
    }
  }

  class ByteArrayBuffer {
    var dataList: seq<ByteArray>
    var dataLength: nat
    ghost var chunks: seq<seq<Byte>>

    ghost predicate Valid()
      reads this, dataList
    {
      && |chunks| == |dataList|
      && (forall k :: 0 <= k < |dataList| ==> dataList[k].data == chunks[k] && |chunks[k]| < WORDS)
      && (forall j, k :: 0 <= j < k < |dataList| ==> dataList[j] != dataList[k])
      && dataLength == |Flat(chunks)|
    }

    ghost function Contents(): seq<Byte>
      reads this
    {
      Flat(chunks)
    }

    constructor ()
      ensures Valid() && Contents() == [] && dataList == []
    {
      dataList, dataLength, chunks := [], 0, [];
    }

    method Clear()
      modifies this
      ensures Valid() && Contents() == [] && dataList == []
    {
      dataList, dataLength, chunks := [], 0, [];
    }

    /** Appends the bytes of a buffer, which are copied. */
    method Push(bytes: seq<Byte>)
      requires Valid() && |bytes| < WORDS
      modifies this
      ensures Valid() && Contents() == old(Contents()) + bytes
      ensures |dataList| == |old(dataList)| + 1 && fresh(dataList[|old(dataList)|])
      ensures dataList[..|old(dataList)|] == old(dataList)
    {
      var byteArray := new ByteArray();
      byteArray.SetDataFromBuffer(bytes);
      FlatConcat(chunks, [bytes]);
      assert Flat([bytes]) == bytes;
      dataList := dataList + [byteArray];
      chunks := chunks + [bytes];
      dataLength := dataLength + |bytes|;
    }

    /** One turn of the loop over the chunks: copies what the i-th chunk has of the range. */
    method CopyFromChunk(target: array<Byte>, length: Word, i: nat, copiedBytes: Word, offs: Word,
                         ghost srcOffs: Word, ghost before: seq<Byte>, ghost read: seq<Byte>)
        returns (cbytes: Option<Word>, nextOffs: Word, ghost next: seq<Byte>)
      requires Valid() && i < |dataList| && length <= target.Length && copiedBytes == |read| < length
      requires |before| == target.Length && target[..] == read + before[|read|..]
      requires Underway(chunks, srcOffs, length, i, read, offs)
      modifies target
      ensures cbytes.None? ==> Overreads(chunks, srcOffs, length)
      ensures cbytes.Some? ==> |next| == copiedBytes + cbytes.value <= length && target[..] == next + before[|next|..]
      ensures cbytes.Some? ==> Underway(chunks, srcOffs, length, i + 1, next, nextOffs)
    {
      ReadOn(chunks, srcOffs, length, i, read, offs);
      ghost var sofar := target[..];
      ghost var part := Slice(chunks[i], offs, length - copiedBytes);
      cbytes := dataList[i].CopyDataToBuffer(target, copiedBytes, length - copiedBytes, offs);
      next, nextOffs := read + part, 0;
      if cbytes.Some? {
        Filled(before, sofar, target[..], read, part);
        if cbytes.value == 0 {
          nextOffs := offs - |dataList[i].data|;
        }
      }
    }

    /** Copies what a flat sequence would give at that offset, or else reads past the end of a chunk. */
    method GetBytesToBuffer(target: array<Byte>, length: Word, srcOffs: Word) returns (copied: Option<Word>)
      requires Valid() && length <= target.Length
      modifies target
      ensures copied.None? <==> Overreads(chunks, srcOffs, length)
      ensures copied.Some? ==> var part := Slice(Contents(), srcOffs, length);
                               copied.value == |part| && target[..] == part + old(target[|part|..])
    {
      var copiedBytes: Word, offs: Word, i := 0, srcOffs, 0;
      ghost var before := target[..];
      ghost var read := [];
      ReadingStarts(chunks, srcOffs, length);
      assert target[..] == read + before[|read|..];
      while copiedBytes < length && i < |dataList|
        invariant 0 <= i <= |dataList| && copiedBytes == |read| <= length
        invariant target[..] == read + before[|read|..]
        invariant Underway(chunks, srcOffs, length, i, read, offs)
        decreases |dataList| - i
      {
        var cbytes;
        cbytes, offs, read := CopyFromChunk(target, length, i, copiedBytes, offs, srcOffs, before, read);
        if cbytes.None? {
          return None;
        }
        copiedBytes, i := copiedBytes + cbytes.value, i + 1;
      }
      AllRead(chunks, srcOffs, length, i, read, offs);
      assert read == Slice(Contents(), srcOffs, length);
      copied := Some(copiedBytes);
    }

    /** Drops the front chunk, or part of it if it is longer than what is to go. */
    method DropFront(length: Word) returns (taken: Word)
      requires Valid() && 0 < length <= dataLength
      modifies this, dataList
      ensures Valid() && taken <= length
      ensures Contents() == old(Contents())[taken..] && dataLength == old(dataLength) - taken
      ensures dataList == old(dataList)[1..] || (dataList == old(dataList) && taken == length)
    {
      taken := |dataList[0].data|;
      FirstChunkGone(chunks);
      if taken <= length {
        dataList := dataList[1..];
        chunks := chunks[1..];
      } else {
        taken := length;
        FirstChunkCut(chunks, taken);
        var ok := dataList[0].TruncateData(taken, 0);
        chunks := [chunks[0][taken..]] + chunks[1..];
      }
      dataLength := dataLength - taken;
    }

    /** Drops bytes from the front. */
    method Drop(length: Word) returns (dropped: Word)
      requires Valid() && length <= dataLength
      modifies this, dataList
      ensures Valid() && dropped == length
      ensures Contents() == old(Contents())[length..]
      ensures IsSuffix(dataList, old(dataList))
    {
      var left := length;
      ghost var all := Contents();
      while left > 0
        invariant Valid() && 0 <= left <= length && left <= dataLength
        invariant IsSuffix(dataList, old(dataList))
        invariant length <= |all| && Contents() == all[length - left..]
        decreases |dataList|, left
      {
        var taken := DropFront(left);
        DropTwice(all, length - left, taken);
        left := left - taken;
      }
      dropped := length;
    }

    /** Moves bytes from the front to an external buffer. */
    method PopBytesToBuffer(target: array<Byte>, length: Word) returns (moved: Word)
      requires Valid() && length <= target.Length
      modifies this, dataList, target
      ensures Valid() && moved == Min(length, |old(Contents())|)
      ensures target[..] == old(Contents())[..moved] + old(target[moved..])
      ensures Contents() == old(Contents())[moved..]
      ensures IsSuffix(dataList, old(dataList))
    {
      NoOverreadWithinAWord(chunks, 0, length);
      var copied := GetBytesToBuffer(target, length, 0);
      moved := Drop(copied.value);
    }
  }

  datatype Operation = Push(bytes: seq<Byte>) | Pop(length: Word)

  /** Everything pushed in the first n operations, in order. */
  function Pushed(operations: seq<Operation>): seq<Byte> {
    if operations == [] then []
    else
      var last := operations[|operations| - 1];
      Pushed(operations[..|operations| - 1]) + if last.Push? then last.bytes else []
  }

  lemma PushedNext(operations: seq<Operation>, i: nat)
    requires i < |operations|
    ensures Pushed(operations[..i + 1]) ==
      Pushed(operations[..i]) + if operations[i].Push? then operations[i].bytes else []
  {
    var done := operations[..i + 1];
    assert done[..|done| - 1] == operations[..i] && done[|done| - 1] == operations[i];
  }

  /** Over every history, the bytes that came out and then those still inside are the bytes pushed, in order. */
  method Exchange(operations: seq<Operation>) returns (popped: seq<Byte>, inside: nat)
    requires forall k :: 0 <= k < |operations| && operations[k].Push? ==> |operations[k].bytes| < WORDS
    ensures popped <= Pushed(operations) && |popped| + inside == |Pushed(operations)|
  {
    var buffer := new ByteArrayBuffer();
    popped := [];
    var i := 0;
    while i < |operations|
      invariant 0 <= i <= |operations|
      invariant fresh(buffer) && fresh(buffer.dataList) && buffer.Valid()
      invariant popped + buffer.Contents() == Pushed(operations[..i])
    {
      PushedNext(operations, i);
      match operations[i] {
        case Push(bytes) =>
          Regroup(popped, buffer.Contents(), bytes);
          buffer.Push(bytes);
        case Pop(length) =>
          var target := new Byte[length];
          ghost var all := buffer.Contents();
          var moved := buffer.PopBytesToBuffer(target, length);
          assert all == target[..moved] + buffer.Contents();
          Regroup(popped, target[..moved], buffer.Contents());
          popped := popped + target[..moved];
      }
      i := i + 1;
    }
    assert operations[..i] == operations;
    inside := buffer.dataLength;
  }
}
