/** The network byte buffer: one contiguous array split into a prependable
    area [0, readerIndex), the readable bytes [readerIndex, writerIndex) and
    the writable area [writerIndex, data.Length). Growing the std::vector is
    modelled by allocating a larger array and copying into it. */
module Buffers {
  import opened Common

  /** Room reserved in front of the data for cheap prepends. */
  const CheapPrepend: nat := 8
  /** Default writable capacity of a new buffer. */
  const InitialSize: nat := 1024

  predicate CrlfAt(s: seq<char>, i: int)
  {
    0 <= i && i + 1 < |s| && s[i] == '\r' && s[i + 1] == '\n'
  }

  /** Index of the first "\r\n" in `s`, as `std::search` finds it. */
  function FirstCrlf(s: seq<char>): (r: Option<nat>)
    ensures r.Some? ==> CrlfAt(s, r.value)
    ensures r.Some? ==> forall j :: 0 <= j < r.value ==> !CrlfAt(s, j)
    ensures r.None? ==> forall j :: !CrlfAt(s, j)
  {
    if |s| < 2 then None
    else if s[0] == '\r' && s[1] == '\n' then Some(0)
    else
      assert forall j :: 1 <= j ==> (CrlfAt(s, j) <==> CrlfAt(s[1..], j - 1));
      Shift(FirstCrlf(s[1..]), 1)
  }

  /** Index of the first '\n' in `s`, as `memchr` finds it. */
  function FirstEol(s: seq<char>): (r: Option<nat>)
    ensures r.Some? ==> r.value < |s| && s[r.value] == '\n'
    ensures r.Some? ==> forall j :: 0 <= j < r.value ==> s[j] != '\n'
    ensures r.None? ==> forall j :: 0 <= j < |s| ==> s[j] != '\n'
  {
    if s == [] then None
    else if s[0] == '\n' then Some(0)
    else Shift(FirstEol(s[1..]), 1)
  }

  lemma ShiftTwice(r: Option<nat>, a: nat, b: nat)
    ensures Shift(Shift(r, a), b) == Shift(r, a + b)
  {
  }

  class Buffer {
    var data: array<char>
    var readerIndex: nat
    var writerIndex: nat

    /** 0 <= readerIndex <= writerIndex <= size, and the array never shrinks
        below the cheap-prepend area. */
    ghost predicate Valid()
      reads this
    {
      readerIndex <= writerIndex <= data.Length && CheapPrepend <= data.Length
    }

    /** The readable bytes, the abstract content of the buffer. */
    function Readable(): seq<char>
      reads this, data
      requires Valid()
    {
      data[readerIndex..writerIndex]
    }

    constructor (initialSize: nat)
      ensures Valid() && fresh(data)
      ensures Readable() == []
      ensures ReadableBytes() == 0
      ensures WritableBytes() == initialSize
      ensures PrependableBytes() == CheapPrepend
    {
      data := new char[CheapPrepend + initialSize](_ => '\0');
      readerIndex := CheapPrepend;
      writerIndex := CheapPrepend;
    }

    function ReadableBytes(): (n: nat)
      reads this, data
      requires Valid()
      ensures n == |Readable()|
    {
      writerIndex - readerIndex
    }

    function WritableBytes(): (n: nat)
      reads this
      requires Valid()
      ensures readerIndex + ReadableBytes() + n == data.Length
    {
      data.Length - writerIndex
    }

    function PrependableBytes(): (n: nat)
      reads this
      requires Valid()
      ensures n + ReadableBytes() + WritableBytes() == data.Length
    {
      readerIndex
    }

    /** O(1) exchange of the whole state of two buffers. */
    method Swap(rhs: Buffer)
      requires Valid() && rhs.Valid()
      modifies this, rhs
      ensures Valid() && rhs.Valid()
      ensures Readable() == old(rhs.Readable()) && rhs.Readable() == old(Readable())
      ensures data == old(rhs.data) && rhs.data == old(data)
      ensures readerIndex == old(rhs.readerIndex) && rhs.readerIndex == old(readerIndex)
      ensures writerIndex == old(rhs.writerIndex) && rhs.writerIndex == old(writerIndex)
    {
      data, rhs.data := rhs.data, data;
      readerIndex, rhs.readerIndex := rhs.readerIndex, readerIndex;
      writerIndex, rhs.writerIndex := rhs.writerIndex, writerIndex;
    }

    /** First "\r\n" at or after `start` and before the writable area. */
    method FindCrlfFrom(start: nat) returns (r: Option<nat>)
      requires Valid() && readerIndex <= start <= writerIndex
      ensures r == Shift(FirstCrlf(data[start..writerIndex]), start)
      ensures r.Some? ==> start <= r.value && r.value + 2 <= writerIndex
    {
      var i := start;
      while i + 1 < writerIndex
        invariant start <= i <= writerIndex
        invariant FirstCrlf(data[start..writerIndex]) ==
                  Shift(FirstCrlf(data[i..writerIndex]), i - start)
      {
        if data[i] == '\r' && data[i + 1] == '\n' {
          assert FirstCrlf(data[i..writerIndex]) == Some(0);
          return Some(i);
        }
        assert data[i + 1..writerIndex] == data[i..writerIndex][1..];
        ShiftTwice(FirstCrlf(data[i + 1..writerIndex]), 1, i - start);
        i := i + 1;
      }
      assert FirstCrlf(data[i..writerIndex]) == None;
      return None;
    }

    method FindCrlf() returns (r: Option<nat>)
      requires Valid()
      ensures r == Shift(FirstCrlf(Readable()), readerIndex)
      ensures r.Some? ==> readerIndex <= r.value && r.value + 2 <= writerIndex
    {
      r := FindCrlfFrom(readerIndex);
    }

    /** First '\n' at or after `start` and before the writable area. */
    method FindEolFrom(start: nat) returns (r: Option<nat>)
      requires Valid() && readerIndex <= start <= writerIndex
      ensures r == Shift(FirstEol(data[start..writerIndex]), start)
      ensures r.Some? ==> start <= r.value < writerIndex
    {
      var i := start;
      while i < writerIndex
        invariant start <= i <= writerIndex
        invariant FirstEol(data[start..writerIndex]) ==
                  Shift(FirstEol(data[i..writerIndex]), i - start)
      {
        if data[i] == '\n' {
          assert FirstEol(data[i..writerIndex]) == Some(0);
          return Some(i);
        }
        assert data[i + 1..writerIndex] == data[i..writerIndex][1..];
        ShiftTwice(FirstEol(data[i + 1..writerIndex]), 1, i - start);
        i := i + 1;
      }
      return None;
    }

    method FindEol() returns (r: Option<nat>)
      requires Valid()
      ensures r == Shift(FirstEol(Readable()), readerIndex)
      ensures r.Some? ==> readerIndex <= r.value < writerIndex
    {
      r := FindEolFrom(readerIndex);
    }

    /** Drop the first `len` readable bytes; draining everything rewinds both
        indices to the cheap-prepend mark. */
    method Retrieve(len: nat)
      requires Valid() && len <= ReadableBytes()
      modifies this
      ensures Valid() && data == old(data)
      ensures Readable() == old(Readable())[len..]
      ensures len == old(ReadableBytes()) ==> readerIndex == writerIndex == CheapPrepend
      ensures len < old(ReadableBytes()) ==> writerIndex == old(writerIndex)
    {
      if len < writerIndex - readerIndex {
        readerIndex := readerIndex + len;
      } else {
        RetrieveAll();
      }
    }

    method RetrieveUntil(end: nat)
      requires Valid() && readerIndex <= end <= writerIndex
      modifies this
      ensures Valid() && data == old(data)
      ensures Readable() == old(data[end..writerIndex])
    {
      Retrieve(end - readerIndex);
    }

    method RetrieveAll()
      requires Valid()
      modifies this
      ensures Valid() && data == old(data)
      ensures Readable() == []
      ensures readerIndex == writerIndex == CheapPrepend
    {
      readerIndex := CheapPrepend;
      writerIndex := CheapPrepend;
    }

    method RetrieveAsString(len: nat) returns (s: string)
      requires Valid() && len <= ReadableBytes()
      modifies this
      ensures Valid() && data == old(data)
      ensures s == old(Readable())[..len]
      ensures old(Readable()) == s + Readable()
    {
      s := data[readerIndex..readerIndex + len];
      Retrieve(len);
    }

    method RetrieveAllAsString() returns (s: string)
      requires Valid()
      modifies this
      ensures Valid() && data == old(data)
      ensures s == old(Readable())
      ensures Readable() == []
    {
      s := RetrieveAsString(writerIndex - readerIndex);
    }

    /** Make room for `len` more bytes, moving the readable bytes to the front
        or growing the array; the readable content is unchanged. */
    method EnsureWritableBytes(len: nat)
      requires Valid()
      modifies this, data
      ensures Valid() && (data == old(data) || fresh(data))
      ensures Readable() == old(Readable())
      ensures WritableBytes() >= len
      ensures old(WritableBytes()) >= len ==>
                data == old(data) && readerIndex == old(readerIndex) && writerIndex == old(writerIndex)
    {
      if data.Length - writerIndex < len {
        MakeSpace(len);
      }
    }

    method MakeSpace(len: nat)
      requires Valid() && WritableBytes() < len
      modifies this, data
      ensures Valid() && (data == old(data) || fresh(data))
      ensures Readable() == old(Readable())
      ensures WritableBytes() >= len
    {
      if (data.Length - writerIndex) + readerIndex < len + CheapPrepend {
        // vector::resize(writerIndex + len): keep every byte, zero the rest
        var bigger := new char[writerIndex + len](_ => '\0');
        forall i | 0 <= i < data.Length {
          bigger[i] := data[i];
        }
        data := bigger;
      } else {
        assert CheapPrepend < readerIndex;
        var readable := writerIndex - readerIndex;
        // std::copy of the readable bytes down to the cheap-prepend mark
        forall i | 0 <= i < readable {
          data[CheapPrepend + i] := data[readerIndex + i];
        }
        readerIndex := CheapPrepend;
        writerIndex := CheapPrepend + readable;
      }
    }

    /** The readable bytes become the old readable bytes followed by `s`. */
    method Append(s: seq<char>)
      requires Valid()
      modifies this, data
      ensures Valid() && (data == old(data) || fresh(data))
      ensures Readable() == old(Readable()) + s
      ensures ReadableBytes() == old(ReadableBytes()) + |s|
      ensures old(WritableBytes()) >= |s| ==> data == old(data) && WritableBytes() == old(WritableBytes()) - |s|
    {
      EnsureWritableBytes(|s|);
      CopyIn(s);
      HasWritten(|s|);
    }

    /** Place `s` at the start of the writable area. */
    method CopyIn(s: seq<char>)
      requires Valid() && |s| <= WritableBytes()
      modifies data
      ensures Readable() == old(Readable())
      ensures data[writerIndex..writerIndex + |s|] == s
    {
      var at := writerIndex;
      forall i | 0 <= i < |s| {
        data[at + i] := s[i];
      }
    }

    /** Commit `len` bytes already placed in the writable area. */
    method HasWritten(len: nat)
      requires Valid() && len <= WritableBytes()
      modifies this
      ensures Valid() && data == old(data)
      ensures readerIndex == old(readerIndex) && writerIndex == old(writerIndex) + len
      ensures Readable() == old(Readable()) + data[old(writerIndex)..old(writerIndex) + len]
    {
      writerIndex := writerIndex + len;
    }

    /** Take back the last `len` readable bytes. */
    method Unwrite(len: nat)
      requires Valid() && len <= ReadableBytes()
      modifies this
      ensures Valid() && data == old(data)
      ensures readerIndex == old(readerIndex) && writerIndex == old(writerIndex) - len
      ensures Readable() == old(Readable())[..old(ReadableBytes()) - len]
    {
      writerIndex := writerIndex - len;
    }

    /** The readable bytes become `s` followed by the old readable bytes. */
    method Prepend(s: seq<char>)
      requires Valid() && |s| <= PrependableBytes()
      modifies this, data
      ensures Valid() && data == old(data)
      ensures readerIndex == old(readerIndex) - |s| && writerIndex == old(writerIndex)
      ensures Readable() == s + old(Readable())
    {
      readerIndex := readerIndex - |s|;
      var at := readerIndex;
      forall i | 0 <= i < |s| {
        data[at + i] := s[i];
      }
      assert data[readerIndex..writerIndex] == s + old(data[readerIndex..writerIndex]);
    }

    /** Copy the readable bytes into a fresh buffer with `reserve` writable
        bytes to spare, and take over its storage. */
    method Shrink(reserve: nat)
      requires Valid()
      modifies this
      ensures Valid() && fresh(data)
      ensures Readable() == old(Readable())
      ensures WritableBytes() >= reserve
    {
      var other := new Buffer(InitialSize);
      var content := data[readerIndex..writerIndex];
      other.EnsureWritableBytes(|content| + reserve);
      other.Append(content);
      Swap(other);
    }
  }
}
