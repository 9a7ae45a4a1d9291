/**
 * `Buffer`: bytes between a read and a write index in one vector, with the
 * unread bytes moved to the front when the read index passes the middle.
 */
module Buffers {
  import opened Bytes

  class Buffer {
    var storage: array<Byte>
    var reader: nat
    var writer: nat
    /** The most bytes ever unread at once. */
    ghost var peak: nat

    ghost predicate Valid()
      reads this, storage
    {
      && reader <= writer <= storage.Length
      && reader <= storage.Length / 2
      && storage.Length <= 2 * peak
      && writer - reader <= peak
    }

    ghost function Contents(): Bytes
      requires reader <= writer <= storage.Length
      reads this, storage
    {
      storage[reader..writer]
    }

    constructor ()
      ensures Valid() && Contents() == [] && peak == 0 && fresh(storage)
    {
      storage := new Byte[0];
      reader, writer, peak := 0, 0, 0;
    }

    /** `peek()` and `readable_bytes()`: the unread bytes. */
    method Peek() returns (data: Bytes)
      requires Valid()
      ensures data == Contents()
    {
      data := storage[reader..writer];
    }

    /** Grows the vector when the free tail is too short. */
    method EnsureWritable(len: nat)
      requires Valid()
      modifies this`storage
      ensures reader <= writer && writer + len <= storage.Length
      ensures storage[..writer] == old(storage[..writer])
      ensures if old(storage.Length) - writer < len then fresh(storage) && storage.Length == writer + len
              else storage == old(storage)
    {
      if storage.Length - writer < len {
        var bigger := new Byte[writer + len](_ => 0);
        forall i | 0 <= i < writer {
          bigger[i] := storage[i];
        }
        storage := bigger;
      }
    }

    /** Copies the data behind the written bytes. */
    method CopyIn(data: Bytes)
      requires writer + |data| <= storage.Length
      modifies storage
      ensures storage[..writer + |data|] == old(storage[..writer]) + data
    {
      forall i | 0 <= i < |data| {
        storage[writer + i] := data[i];
      }
    }

    lemma Grown(all: Bytes, before: Bytes, from: nat, data: Bytes)
      requires all == before + data && from <= |before|
      ensures all[from..] == before[from..] + data
    {
    }

    method Append(data: Bytes)
      requires Valid()
      modifies this, storage
      ensures Valid() && Contents() == old(Contents()) + data
      ensures peak == if old(peak) < |Contents()| then |Contents()| else old(peak)
      ensures storage == old(storage) || fresh(storage)
    {
      EnsureWritable(|data|);
      CopyIn(data);
      Grown(storage[..writer + |data|], old(storage[..writer]), reader, data);
      writer := writer + |data|;
      assert storage[reader..writer] == storage[..writer][reader..];
      peak := if peak < writer - reader then writer - reader else peak;
    }

    /** Drops the first `len` unread bytes, or all of them. */
    method Retrieve(len: nat)
      requires Valid()
      modifies this, storage
      ensures Valid() && storage == old(storage) && peak == old(peak)
      ensures Contents() == if len <= |old(Contents())| then old(Contents())[len..] else []
    {
      if len > writer - reader {
        reader := writer;
      } else {
        reader := reader + len;
      }
      if reader > storage.Length / 2 {
        Compact();
      }
    }

    method RetrieveAll()
      requires Valid()
      modifies this
      ensures Valid() && Contents() == [] && peak == old(peak) && storage == old(storage)
    {
      reader, writer := 0, 0;
    }

    /**
     * Moves the unread bytes to the front, last byte first.  Only reached when
     * the read index is past the middle, so source and destination are disjoint
     * and the direction of the copy does not matter.
     */
    method Compact()
      requires reader <= writer <= storage.Length
      requires reader > storage.Length / 2
      modifies this`reader, this`writer, storage
      ensures reader == 0 && writer == old(writer - reader)
      ensures writer <= storage.Length && Contents() == old(Contents())
    {
      var n := writer - reader;
      assert n <= reader;
      var i := n;
      while i > 0
        invariant 0 <= i <= n && unchanged(this)
        invariant storage[reader..writer] == old(storage[reader..writer])
        invariant storage[i..n] == old(storage[reader..writer])[i..]
      {
        i := i - 1;
        storage[i] := storage[reader + i];
        assert storage[i] == old(storage[reader..writer])[i];
        assert storage[i..n] == [storage[i]] + storage[i + 1..n];
      }
      writer := n;
      reader := 0;
    }
  }
}
