/**
 * Incremental decoding of a byte stream that arrives in arbitrary chunks: a
 * receive loop over a decoder, and the theorem that well-framed messages come
 * out whole, in order and independently of the chunking.
 */
module Streaming {
  import opened Bytes

  /** What a decoder makes of the unread bytes. */
  datatype Outcome<M> = Incomplete | Message(m: M, used: nat) | Broken

  datatype Receiver<M> = Receiver(unread: Bytes, delivered: seq<M>, broken: bool)

  /** The loop after a read: decode until the rest is incomplete or broken. */
  function Drain<M>(next: Bytes -> Outcome<M>, r: Receiver<M>): Receiver<M>
    decreases |r.unread|
  {
    match next(r.unread)
    case Incomplete => r
    case Broken => r.(broken := true)
    case Message(m, used) =>
      if 0 < used <= |r.unread| then Drain(next, r.(unread := r.unread[used..], delivered := r.delivered + [m]))
      else r
  }

  function Receive<M>(next: Bytes -> Outcome<M>, r: Receiver<M>, chunk: Bytes): Receiver<M> {
    if r.broken then r else Drain(next, r.(unread := r.unread + chunk))
  }

  function ReceiveAll<M>(next: Bytes -> Outcome<M>, r: Receiver<M>, chunks: seq<Bytes>): Receiver<M> {
    if chunks == [] then r else Receive(next, ReceiveAll(next, r, chunks[..|chunks| - 1]), chunks[|chunks| - 1])
  }

  function Concat(chunks: seq<Bytes>): Bytes {
    if chunks == [] then [] else Concat(chunks[..|chunks| - 1]) + chunks[|chunks| - 1]
  }

  function EncodeAll<M>(encode: M -> Bytes, ms: seq<M>): Bytes {
    if ms == [] then [] else encode(ms[0]) + EncodeAll(encode, ms[1..])
  }

  /** The decoder recognises the encoding of `m` whatever follows it, and no shorter prefix of it. */
  ghost predicate Framed<M(!new)>(next: Bytes -> Outcome<M>, encode: M -> Bytes, m: M) {
    && encode(m) != []
    && (forall rest :: next(encode(m) + rest) == Message(m, |encode(m)|))
    && (forall k | 0 <= k < |encode(m)| :: next(encode(m)[..k]) == Incomplete)
  }

  /** `r` has delivered the first `n` messages and holds a proper prefix of the next. */
  ghost predicate InStep<M>(encode: M -> Bytes, ms: seq<M>, r: Receiver<M>, n: nat) {
    && n <= |ms| && !r.broken && r.delivered == ms[..n]
    && r.unread <= EncodeAll(encode, ms[n..])
    && (n < |ms| ==> |r.unread| < |encode(ms[n])|)
  }

  lemma WholeFrame<M(!new)>(next: Bytes -> Outcome<M>, encode: M -> Bytes, m: M, rest: Bytes)
    requires Framed(next, encode, m)
    ensures next(encode(m) + rest) == Message(m, |encode(m)|)
  {
  }

  lemma PartOfFrame<M(!new)>(next: Bytes -> Outcome<M>, encode: M -> Bytes, m: M, k: nat)
    requires Framed(next, encode, m) && k < |encode(m)|
    ensures next(encode(m)[..k]) == Incomplete
  {
  }

  lemma DrainStep<M>(next: Bytes -> Outcome<M>, r: Receiver<M>)
    ensures next(r.unread).Incomplete? ==> Drain(next, r) == r
    ensures next(r.unread).Message? && 0 < next(r.unread).used <= |r.unread| ==>
              Drain(next, r) ==
              Drain(next, r.(unread := r.unread[next(r.unread).used..], delivered := r.delivered + [next(r.unread).m]))
  {
  }

  lemma {:induction false} DrainInStep<M(!new)>(next: Bytes -> Outcome<M>, encode: M -> Bytes, ms: seq<M>,
                                                r: Receiver<M>, n: nat) returns (n': nat)
    requires forall m | m in ms :: Framed(next, encode, m)
    requires next([]) == Incomplete
    requires n <= |ms| && !r.broken && r.delivered == ms[..n] && r.unread <= EncodeAll(encode, ms[n..])
    ensures n <= n' <= |ms| && InStep(encode, ms, Drain(next, r), n')
    ensures EncodeAll(encode, ms[n..n']) + Drain(next, r).unread == r.unread
    decreases |r.unread|
  {
    hide Framed, Drain, EncodeAll, InStep;
    DrainStep(next, r);
    FirstCode(encode, ms, n);
    n' := n;
    if n == |ms| {
      EmptyPrefix(r.unread);
      NoneBetween(encode, ms, n, r.unread);
      StaysInStep(encode, ms, r, n);
      return;
    }
    var m, code := ms[n], encode(ms[n]);
    if |r.unread| < |code| {
      ShortPrefix(r.unread, code, EncodeAll(encode, ms[n + 1..]));
      PartOfFrame(next, encode, m, |r.unread|);
      NoneBetween(encode, ms, n, r.unread);
      StaysInStep(encode, ms, r, n);
    } else {
      var rest := r.unread[|code|..];
      LongPrefix(r.unread, code, EncodeAll(encode, ms[n + 1..]));
      WholeFrame(next, encode, m, rest);
      CodeNotEmpty(next, encode, m);
      var r' := r.(unread := rest, delivered := r.delivered + [m]);
      assert r'.delivered == ms[..n + 1];
      n' := DrainInStep(next, encode, ms, r', n + 1);
      OneMoreBetween(encode, ms, n, n', Drain(next, r').unread);
    }
  }

  lemma CodeNotEmpty<M(!new)>(next: Bytes -> Outcome<M>, encode: M -> Bytes, m: M)
    requires Framed(next, encode, m)
    ensures encode(m) != []
  {
  }

  lemma FirstCode<M>(encode: M -> Bytes, ms: seq<M>, n: nat)
    requires n <= |ms|
    ensures n == |ms| ==> EncodeAll(encode, ms[n..]) == []
    ensures n < |ms| ==> EncodeAll(encode, ms[n..]) == encode(ms[n]) + EncodeAll(encode, ms[n + 1..])
  {
    if n < |ms| {
      assert ms[n..][1..] == ms[n + 1..];
    }
  }

  lemma EmptyPrefix(a: Bytes)
    requires a <= []
    ensures a == []
  {
  }

  lemma ShortPrefix(a: Bytes, code: Bytes, tail: Bytes)
    requires a <= code + tail && |a| < |code|
    ensures a == code[..|a|]
  {
  }

  lemma LongPrefix(a: Bytes, code: Bytes, tail: Bytes)
    requires a <= code + tail && |a| >= |code|
    ensures a == code + a[|code|..] && a[|code|..] <= tail
  {
    assert (code + tail)[|code|..] == tail;
  }

  lemma NoneBetween<M>(encode: M -> Bytes, ms: seq<M>, n: nat, unread: Bytes)
    requires n <= |ms|
    ensures EncodeAll(encode, ms[n..n]) + unread == unread
  {
  }

  lemma OneMoreBetween<M>(encode: M -> Bytes, ms: seq<M>, n: nat, n': nat, unread: Bytes)
    requires n < n' <= |ms|
    ensures EncodeAll(encode, ms[n..n']) + unread == encode(ms[n]) + (EncodeAll(encode, ms[n + 1..n']) + unread)
  {
    assert ms[n..n'][1..] == ms[n + 1..n'];
  }

  lemma StaysInStep<M>(encode: M -> Bytes, ms: seq<M>, r: Receiver<M>, n: nat)
    requires n <= |ms| && !r.broken && r.delivered == ms[..n] && r.unread <= EncodeAll(encode, ms[n..])
    requires n < |ms| ==> |r.unread| < |encode(ms[n])|
    ensures InStep(encode, ms, r, n)
  {
  }

  lemma {:induction false} EncodeAllSplit<M>(encode: M -> Bytes, a: seq<M>, b: seq<M>)
    ensures EncodeAll(encode, a + b) == EncodeAll(encode, a) + EncodeAll(encode, b)
  {
    if a == [] {
      assert a + b == b;
    } else {
      assert (a + b)[1..] == a[1..] + b;
      EncodeAllSplit(encode, a[1..], b);
    }
  }

  lemma InStepMeans<M>(encode: M -> Bytes, ms: seq<M>, r: Receiver<M>, n: nat)
    requires InStep(encode, ms, r, n)
    ensures n <= |ms| && !r.broken && r.delivered == ms[..n]
    ensures n < |ms| ==> |r.unread| < |encode(ms[n])|
  {
  }

  /** One more chunk. */
  lemma ReceiveInStep<M(!new)>(next: Bytes -> Outcome<M>, encode: M -> Bytes, ms: seq<M>,
                               r: Receiver<M>, k: nat, chunk: Bytes) returns (n: nat)
    requires forall m | m in ms :: Framed(next, encode, m)
    requires next([]) == Incomplete && InStep(encode, ms, r, k)
    requires EncodeAll(encode, ms[..k]) + r.unread + chunk <= EncodeAll(encode, ms)
    ensures InStep(encode, ms, Receive(next, r, chunk), n)
    ensures EncodeAll(encode, ms[..n]) + Receive(next, r, chunk).unread == EncodeAll(encode, ms[..k]) + r.unread + chunk
  {
    InStepMeans(encode, ms, r, k);
    hide Framed, Drain, EncodeAll, InStep;
    assert ms == ms[..k] + ms[k..];
    EncodeAllSplit(encode, ms[..k], ms[k..]);
    AppendPrefix(EncodeAll(encode, ms[..k]), r.unread, chunk, EncodeAll(encode, ms[k..]));
    n := DrainInStep(next, encode, ms, r.(unread := r.unread + chunk), k);
    assert ms[..n] == ms[..k] + ms[k..n];
    EncodeAllSplit(encode, ms[..k], ms[k..n]);
    Regroup(EncodeAll(encode, ms[..k]), EncodeAll(encode, ms[k..n]), Receive(next, r, chunk).unread, r.unread, chunk);
  }

  lemma Regroup(done: Bytes, more: Bytes, left: Bytes, unread: Bytes, chunk: Bytes)
    requires more + left == unread + chunk
    ensures done + more + left == done + unread + chunk
  {
    assert done + more + left == done + (more + left);
    assert done + (unread + chunk) == done + unread + chunk;
  }

  /**
   * Whatever the chunks: if their bytes are a prefix of the encodings, exactly
   * the messages that have arrived whole are delivered, in order, and exactly
   * the bytes of the unfinished one are kept.
   */
  lemma {:induction false} ChunkingIsInvisible<M(!new)>(next: Bytes -> Outcome<M>, encode: M -> Bytes, ms: seq<M>,
                                                        chunks: seq<Bytes>) returns (n: nat)
    requires forall m | m in ms :: Framed(next, encode, m)
    requires next([]) == Incomplete
    requires Concat(chunks) <= EncodeAll(encode, ms)
    ensures InStep(encode, ms, ReceiveAll(next, Receiver([], [], false), chunks), n)
    ensures EncodeAll(encode, ms[..n]) + ReceiveAll(next, Receiver([], [], false), chunks).unread == Concat(chunks)
    decreases |chunks|
  {
    hide InStep, Receive;
    if chunks == [] {
      n := 0;
      NothingYet(next, encode, ms);
    } else {
      var before, chunk := chunks[..|chunks| - 1], chunks[|chunks| - 1];
      assert Concat(before) <= Concat(chunks);
      var k := ChunkingIsInvisible(next, encode, ms, before);
      var r := ReceiveAll(next, Receiver([], [], false), before);
      n := ReceiveInStep(next, encode, ms, r, k, chunk);
    }
  }

  lemma NothingYet<M(!new)>(next: Bytes -> Outcome<M>, encode: M -> Bytes, ms: seq<M>)
    requires forall m | m in ms :: Framed(next, encode, m)
    ensures InStep(encode, ms, Receiver([], [], false), 0)
  {
    if ms != [] {
      assert Framed(next, encode, ms[0]);
    }
  }

  lemma AppendPrefix(done: Bytes, unread: Bytes, chunk: Bytes, todo: Bytes)
    requires done + unread + chunk <= done + todo
    ensures unread + chunk <= todo
  {
    assert done + unread + chunk == done + (unread + chunk);
    assert forall i | 0 <= i < |unread + chunk| :: (done + (unread + chunk))[|done| + i] == (unread + chunk)[i];
    assert forall i | 0 <= i < |unread + chunk| :: (done + todo)[|done| + i] == todo[i];
  }
}
