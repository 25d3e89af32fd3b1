/** The jitter buffer between the network side and the audio callback: the
    `ringbuf` producer/consumer pair, modelled as one sequential bounded FIFO. */
module Ring {
  import opened Pcm

  datatype Option<T> = None | Some(value: T)

  function Min(a: nat, b: nat): nat
  {
    if a <= b then a else b
  }

  /** A bounded queue of samples; `contents[0]` is the oldest entry. */
  class SampleBuffer {
    const capacity: nat
    var contents: seq<BufferSample>

    ghost predicate Valid()
      reads this
    {
      |contents| <= capacity
    }

    /** `RingBuffer::new(capacity)` */
    constructor (capacity: nat)
      ensures Valid()
      ensures this.capacity == capacity && contents == []
    {
      this.capacity := capacity;
      contents := [];
    }

    /** `Consumer::len` */
    function Len(): (n: nat)
      reads this
      requires Valid()
      ensures n == |contents| && n <= capacity
    {
      |contents|
    }

    /** `Producer::push`: appends unless full; a full buffer is left as it was. */
    method Push(x: BufferSample) returns (ok: bool)
      requires Valid()
      modifies this
      ensures Valid()
      ensures ok <==> |old(contents)| < capacity
      ensures contents == PushOne(old(contents), x, capacity)
    {
      ok := |contents| < capacity;
      if ok {
        contents := contents + [x];
      }
    }

    /** `Consumer::pop`: the oldest entry, or None when empty. */
    method Pop() returns (r: Option<BufferSample>)
      requires Valid()
      modifies this
      ensures Valid()
      ensures r.Some? <==> old(contents) != []
      ensures r.Some? ==> r.value == old(contents)[0] && contents == old(contents)[1..]
      ensures r.None? ==> contents == old(contents)
    {
      if contents == [] {
        r := None;
      } else {
        r := Some(contents[0]);
        contents := contents[1..];
      }
    }
  }

  /** The queue after one push: unchanged when full. */
  function PushOne(q: seq<BufferSample>, x: BufferSample, capacity: nat): (r: seq<BufferSample>)
  {
    if |q| < capacity then q + [x] else q
  }

  /** The queue after pushing xs one by one, each push onto a full queue dropped. */
  function PushAll(q: seq<BufferSample>, xs: seq<BufferSample>, capacity: nat): (r: seq<BufferSample>)
    decreases |xs|
  {
    if xs == [] then q
    else PushOne(PushAll(q, xs[..|xs| - 1], capacity), xs[|xs| - 1], capacity)
  }

  /** With no consumer in between, a burst of pushes keeps its order and fills the
      queue from the front of the burst: exactly the leading entries that fit are
      kept, the rest are dropped, and the capacity is never exceeded. */
  lemma {:induction false} PushAllKeepsPrefix(q: seq<BufferSample>, xs: seq<BufferSample>, capacity: nat)
    requires |q| <= capacity
    ensures PushAll(q, xs, capacity) == q + xs[..Min(|xs|, capacity - |q|)]
    ensures |PushAll(q, xs, capacity)| <= capacity
    decreases |xs|
  {
    if xs != [] {
      var init := xs[..|xs| - 1];
      PushAllKeepsPrefix(q, init, capacity);
      assert init[..Min(|init|, capacity - |q|)] == xs[..Min(|init|, capacity - |q|)];
      if |init| < capacity - |q| {
        assert xs[..Min(|init|, capacity - |q|)] + [xs[|xs| - 1]] == xs[..Min(|xs|, capacity - |q|)];
      }
    }
  }

  /** Pushing never disturbs what is already queued: the old queue stays its
      prefix, whether or not the pushes fit. */
  lemma {:induction false} PushAllExtends(q: seq<BufferSample>, xs: seq<BufferSample>, capacity: nat)
    ensures q <= PushAll(q, xs, capacity)
    decreases |xs|
  {
    if xs != [] {
      PushAllExtends(q, xs[..|xs| - 1], capacity);
    }
  }

  /** FIFO order (a producer then a consumer): whatever is pushed into a buffer
      with room comes out in the order it went in, so popping the |q| entries
      that were there before leaves exactly the pushed ones. */
  lemma PushAllThenPop(q: seq<BufferSample>, xs: seq<BufferSample>, capacity: nat)
    requires |q| + |xs| <= capacity
    ensures PushAll(q, xs, capacity) == q + xs
    ensures PopN(PushAll(q, xs, capacity), |q|) == (q, xs)
  {
    PushAllKeepsPrefix(q, xs, capacity);
    assert xs[..|xs|] == xs;
    PopNSplits(q, xs);
  }

  /** `n` pops in a row from a queue holding at least n entries: the entries
      popped, oldest first, and the queue left behind. */
  function PopN(q: seq<BufferSample>, n: nat): (r: (seq<BufferSample>, seq<BufferSample>))
    requires n <= |q|
    ensures r.0 + r.1 == q && |r.0| == n
    decreases n
  {
    if n == 0 then ([], q)
    else
      var (popped, rest) := PopN(q[1..], n - 1);
      ([q[0]] + popped, rest)
  }

  /** Popping as many entries as the front part holds returns the front part
      and leaves the back part. */
  lemma PopNSplits(q: seq<BufferSample>, xs: seq<BufferSample>)
    ensures PopN(q + xs, |q|) == (q, xs)
  {
    var r := PopN(q + xs, |q|);
    assert r.0 + r.1 == q + xs && |r.0| == |q|;
    assert r.0 == (q + xs)[..|q|] == q;
    assert r.1 == (q + xs)[|q|..] == xs;
  }

  /** Two bursts pushed one after the other leave the queue as one burst of
      both would: pushing is a left fold over the samples. */
  lemma {:induction false} PushAllAppend(q: seq<BufferSample>, xs: seq<BufferSample>, ys: seq<BufferSample>,
                                         capacity: nat)
    ensures PushAll(PushAll(q, xs, capacity), ys, capacity) == PushAll(q, xs + ys, capacity)
    decreases |ys|
  {
    if ys == [] {
      assert xs + ys == xs;
    } else {
      var init := ys[..|ys| - 1];
      PushAllAppend(q, xs, init, capacity);
      assert (xs + ys)[..|xs + ys| - 1] == xs + init;
    }
  }
}
