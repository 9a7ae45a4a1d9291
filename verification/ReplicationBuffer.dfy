/** The master's buffer of recent commands, addressed by replication offset. */
module ReplicationBuffers {
  import opened Bytes

  const LIMIT: nat := 10 * 1024 * 1024

  datatype BufferEntry = BufferEntry(command: Bytes, offset: nat)

  function Text(entries: seq<BufferEntry>): Bytes {
    if entries == [] then [] else Text(entries[..|entries| - 1]) + entries[|entries| - 1].command
  }

  /** Each entry starts where the one before it ends. */
  ghost predicate Contiguous(entries: seq<BufferEntry>, start: nat) {
    forall i | 0 <= i < |entries| :: entries[i].offset == start + |Text(entries[..i])|
  }

  lemma {:induction false} TextSplit(a: seq<BufferEntry>, b: seq<BufferEntry>)
    ensures Text(a + b) == Text(a) + Text(b)
    decreases |b|
  {
    if b == [] {
      assert a + b == a;
    } else {
      assert (a + b)[..|a + b| - 1] == a + b[..|b| - 1];
      TextSplit(a, b[..|b| - 1]);
    }
  }

  /** A tail of a contiguous buffer is contiguous from its own first offset. */
  lemma TailContiguous(entries: seq<BufferEntry>, start: nat, k: nat)
    requires Contiguous(entries, start) && k <= |entries|
    ensures Contiguous(entries[k..], start + |Text(entries[..k])|)
    ensures Text(entries) == Text(entries[..k]) + Text(entries[k..])
    ensures k < |entries| ==> entries[k].offset == start + |Text(entries[..k])|
    ensures k == |entries| ==> Text(entries[k..]) == []
  {
    assert entries == entries[..k] + entries[k..];
    TextSplit(entries[..k], entries[k..]);
    forall i | 0 <= i < |entries[k..]|
      ensures entries[k..][i].offset == start + |Text(entries[..k])| + |Text(entries[k..][..i])|
    {
      assert entries[..k + i] == entries[..k] + entries[k..][..i];
      TextSplit(entries[..k], entries[k..][..i]);
    }
  }

  lemma Behind(stream: Bytes, start: nat, a: Bytes, b: Bytes)
    requires start <= |stream| && stream[start..] == a + b
    ensures start + |a| <= |stream| && stream[start + |a|..] == b
  {
    assert |stream| - start == |a| + |b|;
    assert stream[start + |a|..] == stream[start..][|a|..] == b;
  }

  /** Offsets never decrease along the buffer. */
  lemma Ascending(entries: seq<BufferEntry>, start: nat, i: nat, j: nat)
    requires Contiguous(entries, start) && i <= j < |entries|
    ensures entries[i].offset <= entries[j].offset
  {
    assert entries[..j] == entries[..i] + entries[i..j];
    TextSplit(entries[..i], entries[i..j]);
  }

  class ReplicationBuffer {
    var entries: seq<BufferEntry>
    var masterOffset: nat
    var startOffset: nat
    /** Every command ever added, one after another. */
    ghost var history: Bytes

    ghost predicate Valid()
      reads this
    {
      && startOffset <= masterOffset == |history|
      && Contiguous(entries, startOffset)
      && Text(entries) == history[startOffset..]
    }

    constructor ()
      ensures Valid() && history == []
    {
      entries, masterOffset, startOffset, history := [], 0, 0, [];
    }

    /** The entry lands at the offset where the stream stood. */
    method Add(command: Bytes)
      requires Valid()
      modifies this
      ensures Valid() && history == old(history) + command && masterOffset == old(masterOffset) + |command|
      ensures startOffset >= old(startOffset)
      ensures var all := old(entries) + [BufferEntry(command, old(masterOffset))];
              entries == if |Text(all)| > 10485760 then all[|all| / 2..] else all
    {
      var entry := BufferEntry(command, masterOffset);
      OneMore(entries, startOffset, entry);
      hide Contiguous, Text;
      history := history + command;
      entries := entries + [entry];
      masterOffset := entry.offset + |command|;
      assert Text(entries) == history[startOffset..];
      var total := TotalSize();
      if total > LIMIT {
        Cleanup();
      }
    }

    method TotalSize() returns (total: nat)
      ensures total == |Text(entries)|
    {
      total := 0;
      var i := 0;
      while i < |entries|
        invariant 0 <= i <= |entries| && total == |Text(entries[..i])|
      {
        assert entries[..i + 1][..i] == entries[..i];
        total := total + |entries[i].command|;
        i := i + 1;
      }
      assert entries[..i] == entries;
    }

    lemma OneMore(entries: seq<BufferEntry>, start: nat, entry: BufferEntry)
      requires Contiguous(entries, start) && entry.offset == start + |Text(entries)|
      ensures Contiguous(entries + [entry], start) && Text(entries + [entry]) == Text(entries) + entry.command
    {
      assert (entries + [entry])[..|entries|] == entries;
      assert forall i | 0 <= i < |entries| :: (entries + [entry])[..i] == entries[..i];
    }

    /** Drops the older half; what stays still addresses the same bytes of the stream. */
    method Cleanup()
      requires Valid()
      modifies this`entries, this`startOffset
      ensures Valid() && startOffset >= old(startOffset)
      ensures entries == old(entries)[|old(entries)| / 2..]
    {
      hide Contiguous, Text;
      if entries == [] {
        return;
      }
      var keep := |entries| / 2;
      TailContiguous(entries, startOffset, keep);
      Behind(history, startOffset, Text(entries[..keep]), Text(entries[keep..]));
      startOffset := entries[keep].offset;
      entries := entries[keep..];
    }

    /** The end of the stream, or the start of a buffered command. */
    ghost predicate Boundary(from: nat)
      reads this
    {
      from <= |history| && (from == masterOffset || exists j | 0 <= j < |entries| :: entries[j].offset == from)
    }

    /** Entry `k` is the first at `from` or later. */
    ghost predicate StartsAt(k: nat, from: nat)
      requires k <= |entries|
      reads this
    {
      (forall j | 0 <= j < k :: entries[j].offset < from) && (k < |entries| ==> entries[k].offset >= from)
    }

    /** Asked from an offset still in the buffer that starts an entry, exactly the rest of the stream comes back. */
    method CommandsFrom(from: nat) returns (result: seq<BufferEntry>)
      requires Valid()
      ensures exists k | 0 <= k <= |entries| :: result == entries[k..] && StartsAt(k, from)
      ensures Boundary(from) ==> Text(result) == history[from..]
    {
      hide Text, Contiguous;
      result := [];
      var i: nat := 0;
      ghost var first: nat := |entries|;
      while i < |entries|
        invariant 0 <= i <= |entries| && first <= |entries|
        invariant first == |entries| ==> result == [] && forall j | 0 <= j < i :: entries[j].offset < from
        invariant first < |entries| ==> first < i && result == entries[first..i] && entries[first].offset >= from
        invariant first < |entries| ==> forall j | 0 <= j < first :: entries[j].offset < from
      {
        if entries[i].offset >= from {
          if first == |entries| {
            first := i;
          }
          assert entries[first..i + 1] == entries[first..i] + [entries[i]];
          result := result + [entries[i]];
        } else if first < |entries| {
          Ascending(entries, startOffset, first, i);
        }
        i := i + 1;
      }
      assert result == entries[first..] && StartsAt(first, from);
      Suffix(from, first);
    }

    lemma Suffix(from: nat, first: nat)
      requires Valid() && first <= |entries|
      requires forall j | 0 <= j < first :: entries[j].offset < from
      requires first < |entries| ==> entries[first].offset >= from
      ensures Boundary(from) ==> Text(entries[first..]) == history[from..]
    {
      hide Contiguous, Text;
      TailContiguous(entries, startOffset, first);
      var cut := |Text(entries[..first])|;
      Behind(history, startOffset, Text(entries[..first]), Text(entries[first..]));
      forall j | 0 <= j < |entries| && entries[j].offset == from
        ensures from == startOffset + cut
      {
        if j >= first {
          Ascending(entries, startOffset, first, j);
        }
      }
    }
  }
}
