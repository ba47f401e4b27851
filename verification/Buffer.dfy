/** The indexed byte store behind every socket. Bytes move only to reclaim the
    writable tail or when the storage grows. */
module ByteBuffer {
  import opened Bytes

  /** How a call ends: normally, or with the exception the source throws. */
  datatype Status = Ok | LogicError | LengthError | RangeError

  class Buffer {
    var storage: array<char>
    var readIndex: nat
    var writeIndex: nat
    var preparedBytes: nat
    const maximumSize: nat

    ghost predicate Valid()
      reads this
    {
      && readIndex <= writeIndex
      && writeIndex + preparedBytes <= storage.Length
      && 0 < storage.Length <= maximumSize
    }

    /** The unread bytes: the abstract value of the buffer. */
    ghost function Readable(): (s: string)
      requires Valid()
      reads this, storage
      ensures |s| == writeIndex - readIndex
    {
      storage[readIndex..writeIndex]
    }

    constructor (initialSize: nat, maximum: nat)
      requires 0 < initialSize <= maximum
      ensures Valid() && fresh(storage)
      ensures maximumSize == maximum && Readable() == [] && preparedBytes == 0
    {
      storage := new char[initialSize];
      readIndex, writeIndex, preparedBytes := 0, 0, 0;
      maximumSize := maximum;
    }

    method ReadableBytes() returns (n: nat)
      requires Valid()
      ensures n == |Readable()|
    {
      n := writeIndex - readIndex;
    }

    method ReadableView() returns (s: string)
      requires Valid()
      ensures s == Readable()
    {
      s := storage[readIndex..writeIndex];
    }

    /** Makes room for `minimum` more bytes. It succeeds exactly when the unread
        bytes and the new ones fit the maximum together; the view never changes. */
    method Prepare(minimum: nat) returns (status: Status)
      requires Valid()
      modifies this, storage
      ensures Valid() && Readable() == old(Readable())
      ensures storage == old(storage) || fresh(storage)
      ensures old(preparedBytes) != 0 ==> status == LogicError && preparedBytes == old(preparedBytes)
      ensures old(preparedBytes) == 0 && minimum == 0 ==> status == Ok && preparedBytes == 0
      ensures old(preparedBytes) == 0 && minimum > 0 ==>
                && (status == Ok <==> |Readable()| + minimum <= maximumSize)
                && (status == Ok ==> preparedBytes >= minimum)
                && (status != Ok ==> status == LengthError && preparedBytes == 0)
    {
      if preparedBytes != 0 { return LogicError; }
      if minimum == 0 { return Ok; }
      status := CompactOrGrow(minimum);
      if status == Ok { preparedBytes := storage.Length - writeIndex; }
    }

    method CompactOrGrow(minimum: nat) returns (status: Status)
      requires Valid() && preparedBytes == 0 && minimum > 0
      modifies this`storage, this`readIndex, this`writeIndex, storage
      ensures Valid() && Readable() == old(Readable())
      ensures storage == old(storage) || fresh(storage)
      ensures status == Ok <==> |Readable()| + minimum <= maximumSize
      ensures status == Ok ==> writeIndex + minimum <= storage.Length
      ensures status != Ok ==> status == LengthError
    {
      if minimum > maximumSize { return LengthError; }
      if storage.Length - writeIndex >= minimum { return Ok; }
      var readable := writeIndex - readIndex;
      if storage.Length - readable >= minimum {
        forall i | 0 <= i < readable { storage[i] := storage[readIndex + i]; }
        readIndex, writeIndex := 0, readable;
        return Ok;
      }
      if readable > maximumSize - minimum { return LengthError; }
      var doubled := if storage.Length > maximumSize / 2 then maximumSize else storage.Length * 2;
      var newSize := if readable + minimum > doubled then readable + minimum else doubled;
      var grown := new char[newSize];
      forall i | 0 <= i < readable { grown[i] := storage[readIndex + i]; }
      storage := grown;
      readIndex, writeIndex := 0, readable;
      return Ok;
    }

    /** The caller writing `bytes` through the prepared span. */
    method Fill(bytes: string)
      requires Valid() && |bytes| <= preparedBytes
      modifies storage
      ensures Valid() && Readable() == old(Readable())
      ensures storage[writeIndex..writeIndex + |bytes|] == bytes
    {
      forall i | 0 <= i < |bytes| { storage[writeIndex + i] := bytes[i]; }
    }

    /** Publishes the first `count` bytes of the prepared span. */
    method Commit(count: nat) returns (status: Status)
      requires Valid()
      modifies this`writeIndex, this`preparedBytes
      ensures Valid()
      ensures status == if count > old(preparedBytes) then RangeError else Ok
      ensures status == Ok ==> preparedBytes == 0
      ensures status == Ok ==>
                Readable() == old(Readable()) + old(storage[writeIndex..writeIndex + count])
      ensures status != Ok ==> Readable() == old(Readable()) && preparedBytes == old(preparedBytes)
    {
      if count > preparedBytes { return RangeError; }
      writeIndex := writeIndex + count;
      preparedBytes := 0;
      return Ok;
    }

    method Consume(count: nat) returns (status: Status)
      requires Valid()
      modifies this`readIndex, this`writeIndex, this`preparedBytes
      ensures Valid() && preparedBytes == old(preparedBytes)
      ensures status == (if old(preparedBytes) != 0 then LogicError
                         else if count > |old(Readable())| then RangeError else Ok)
      ensures Readable() == if status == Ok then old(Readable())[count..] else old(Readable())
    {
      if preparedBytes != 0 { return LogicError; }
      if count > writeIndex - readIndex { return RangeError; }
      readIndex := readIndex + count;
      if readIndex == writeIndex { Clear(); }
      return Ok;
    }

    method Clear()
      modifies this`readIndex, this`writeIndex, this`preparedBytes
      ensures readIndex == writeIndex == preparedBytes == 0
    {
      readIndex, writeIndex, preparedBytes := 0, 0, 0;
    }

    /** One round of `append`: as many of `bytes` as the writable tail takes. */
    method AppendSome(bytes: string) returns (status: Status, count: nat)
      requires Valid() && bytes != []
      modifies this, storage
      ensures Valid() && preparedBytes == old(preparedBytes)
      ensures storage == old(storage) || fresh(storage)
      ensures count <= |bytes| && Readable() == old(Readable()) + bytes[..count]
      ensures old(preparedBytes) != 0 ==> status == LogicError && count == 0
      ensures old(preparedBytes) == 0 ==>
                status == if |old(Readable())| < maximumSize then Ok else LengthError
      ensures status == Ok <==> count > 0
    {
      count := 0;
      status := Prepare(1);
      if status == Ok {
        count := if preparedBytes < |bytes| then preparedBytes else |bytes|;
        Fill(bytes[..count]);
        status := Commit(count);
      }
    }

    /** Copies `bytes` in, as much as fits at a time. The whole input gets in
        exactly when it fits; otherwise the buffer is filled to its maximum. */
    method Append(bytes: string) returns (status: Status)
      requires Valid()
      modifies this, storage
      ensures Valid() && preparedBytes == old(preparedBytes)
      ensures storage == old(storage) || fresh(storage)
      ensures old(preparedBytes) != 0 && bytes != [] ==>
                status == LogicError && Readable() == old(Readable())
      ensures old(preparedBytes) == 0 ==>
                (status == Ok <==> |old(Readable())| + |bytes| <= maximumSize)
      ensures status == Ok ==> Readable() == old(Readable()) + bytes
      ensures old(preparedBytes) == 0 && status != Ok ==>
                && status == LengthError
                && Readable() == old(Readable()) + bytes[..maximumSize - |old(Readable())|]
    {
      hide Readable;
      var rest := bytes;
      ghost var n := 0;
      while rest != []
        invariant Valid() && (storage == old(storage) || fresh(storage))
        invariant preparedBytes == old(preparedBytes)
        invariant n <= |bytes| && rest == bytes[n..] && (old(preparedBytes) != 0 ==> n == 0)
        invariant Readable() == old(Readable()) + bytes[..n]
        decreases |rest|
      {
        var count;
        status, count := AppendSome(rest);
        if status != Ok { return; }
        Extend(old(Readable()), bytes, n, count);
        rest, n := rest[count..], n + count;
      }
      return Ok;
    }

    static lemma Extend(before: string, bytes: string, n: nat, count: nat)
      requires n + count <= |bytes|
      ensures before + bytes[..n] + bytes[n..][..count] == before + bytes[..n + count]
      ensures bytes[n..][count..] == bytes[n + count..]
    {}

    /** The search of `findCrlf`, as an offset into the view. */
    method LocateCrlf() returns (i: nat)
      requires Valid()
      ensures i == FindCrlf(Readable())
    {
      ghost var view := Readable();
      i := 0;
      while readIndex + i + 1 < writeIndex
        invariant i <= |view|
        invariant forall j: nat | j < i :: !CrlfAt(view, j)
      {
        if storage[readIndex + i] == '\r' && storage[readIndex + i + 1] == '\n' {
          FindCrlfIs(view, i);
          return;
        }
        i := i + 1;
      }
      i := writeIndex - readIndex;
      assert forall j: nat | j < |view| :: !CrlfAt(view, j);
    }

    method TakeString(count: nat) returns (status: Status, taken: string)
      requires Valid()
      modifies this`readIndex, this`writeIndex, this`preparedBytes
      ensures Valid() && preparedBytes == old(preparedBytes)
      ensures status == Ok <==> count <= |old(Readable())| && old(preparedBytes) == 0
      ensures status == Ok ==> taken + Readable() == old(Readable()) && |taken| == count
      ensures status != Ok ==> Readable() == old(Readable())
    {
      taken := "";
      if count > writeIndex - readIndex { return RangeError, taken; }
      taken := storage[readIndex..readIndex + count];
      status := Consume(count);
    }
  }
}
