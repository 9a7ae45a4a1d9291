/**
 * `FreeList`: objects threaded through their own first word.  Address 0 is the
 * null pointer; `contents` is the list from the head on.
 */
module FreeLists {
  import opened Seqs

  const NULL: nat := 0

  class Memory {
    var word: map<nat, nat>

    constructor () {
      word := map[];
    }
  }

  /** Following the words from `head` visits exactly `contents` and ends in the null pointer. */
  ghost predicate Chain(word: map<nat, nat>, head: nat, contents: seq<nat>)
    decreases contents
  {
    if contents == [] then head == NULL
    else head != NULL && head == contents[0] && head in word && Chain(word, word[head], contents[1..])
  }

  /** A write to an address outside the list leaves the list as it was. */
  lemma {:induction false} ChainFrame(word: map<nat, nat>, head: nat, contents: seq<nat>, a: nat, v: nat)
    requires Chain(word, head, contents) && a !in contents
    ensures Chain(word[a := v], head, contents)
    decreases contents
  {
    if contents != [] {
      ChainFrame(word, word[head], contents[1..], a, v);
    }
  }

  /** The words determine the list: nothing can be on it twice or be skipped. */
  lemma {:induction false} ChainUnique(word: map<nat, nat>, head: nat, c: seq<nat>, d: seq<nat>)
    requires Chain(word, head, c) && Chain(word, head, d)
    ensures c == d
    decreases c
  {
    if c != [] {
      ChainUnique(word, word[head], c[1..], d[1..]);
      assert c == [c[0]] + c[1..] && d == [d[0]] + d[1..];
    }
  }

  function Reversed(s: seq<nat>): seq<nat> {
    if s == [] then [] else Reversed(s[1..]) + [s[0]]
  }

  lemma {:induction false} ReversedStep(s: seq<nat>, x: nat)
    ensures Reversed(s + [x]) == [x] + Reversed(s)
  {
    if s != [] {
      assert (s + [x])[1..] == s[1..] + [x];
      ReversedStep(s[1..], x);
    }
  }

  class FreeList {
    const mem: Memory
    var head: nat
    var size: nat
    ghost var contents: seq<nat>

    ghost predicate Valid()
      reads this, mem
    {
      Chain(mem.word, head, contents) && NoDup(contents) && size == |contents|
    }

    constructor (mem: Memory)
      ensures Valid() && this.mem == mem && contents == []
    {
      this.mem := mem;
      head, size, contents := NULL, 0, [];
    }

    method Push(obj: nat)
      requires Valid() && obj != NULL && obj !in contents
      modifies this, mem
      ensures Valid() && contents == [obj] + old(contents)
      ensures mem.word == old(mem.word)[obj := old(head)]
    {
      ChainFrame(mem.word, head, contents, obj, head);
      mem.word := mem.word[obj := head];
      head := obj;
      size := size + 1;
      contents := [obj] + contents;
      assert contents[1..] == old(contents);
    }

    /** The head, or the null pointer on an empty list. */
    method Pop() returns (obj: nat)
      requires Valid()
      modifies this
      ensures Valid()
      ensures old(contents) == [] ==> obj == NULL && contents == []
      ensures old(contents) != [] ==> obj == old(contents)[0] && contents == old(contents)[1..]
    {
      if head == NULL {
        return NULL;
      }
      obj := head;
      head := mem.word[head];
      size := size - 1;
      contents := contents[1..];
    }

    method PopBatch(n: nat) returns (objs: seq<nat>)
      requires Valid()
      modifies this
      ensures Valid()
      ensures |objs| == if n < |old(contents)| then n else |old(contents)|
      ensures objs == old(contents)[..|objs|] && contents == old(contents)[|objs|..]
    {
      objs := [];
      var i := 0;
      while i < n && head != NULL
        invariant Valid() && 0 <= i == |objs| <= n && i <= |old(contents)|
        invariant objs == old(contents)[..i] && contents == old(contents)[i..]
      {
        var obj := Pop();
        objs := objs + [obj];
        i := i + 1;
      }
    }

    method PushBatch(objs: seq<nat>)
      requires Valid() && NoDup(objs) && NULL !in objs
      requires forall k | 0 <= k < |objs| :: objs[k] !in contents
      modifies this, mem
      ensures Valid() && contents == Reversed(objs) + old(contents)
    {
      hide Chain, NoDup;
      var i := 0;
      while i < |objs|
        invariant Valid() && 0 <= i <= |objs|
        invariant contents == Reversed(objs[..i]) + old(contents)
        invariant forall k | i <= k < |objs| :: objs[k] !in contents
      {
        Push(objs[i]);
        PushedStep(objs, i);
        i := i + 1;
      }
      assert objs[..i] == objs;
    }
  }

  lemma PushedStep(objs: seq<nat>, i: nat)
    requires i < |objs| && NoDup(objs)
    ensures Reversed(objs[..i + 1]) == [objs[i]] + Reversed(objs[..i])
    ensures forall k | i < k < |objs| :: objs[k] != objs[i]
  {
    ReversedStep(objs[..i], objs[i]);
    assert objs[..i + 1] == objs[..i] + [objs[i]];
  }
}
