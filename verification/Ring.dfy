/** The contents of a power-of-two ring buffer whose head and tail indices are
    masked, as a sequence (sw/zipos/syspipe.c). */
module Ring {
  import opened Bits

  /** The bytes from tail up to but not including head, going round the end. */
  function Contents<T>(buf: seq<T>, head: nat, tail: nat): (r: seq<T>)
    requires head < |buf| && tail < |buf|
    ensures |r| == (head - tail) % |buf|
  {
    if tail <= head then
      assert (head - tail) % |buf| == head - tail;
      buf[tail..head]
    else
      DivModUnique(head - tail, |buf|, -1, head - tail + |buf|);
      buf[tail..] + buf[..head]
  }

  /** The index after i. */
  function Next(i: nat, size: nat): (j: nat)
    requires i < size
    ensures j < size && j == (i + 1) % size
  {
    if i + 1 < size then
      assert (i + 1) % size == i + 1;
      i + 1
    else
      0
  }

  /** Slots that can still be filled: one is always kept empty. */
  function Free<T>(buf: seq<T>, head: nat, tail: nat): nat
    requires head < |buf| && tail < |buf|
  {
    |buf| - 1 - |Contents(buf, head, tail)|
  }

  lemma PopContents<T>(buf: seq<T>, head: nat, tail: nat)
    requires head < |buf| && tail < |buf| && head != tail
    ensures Contents(buf, head, tail) == [buf[tail]] + Contents(buf, head, Next(tail, |buf|))
  {
  }

  /** Storing at head and advancing it appends, unless that would make head meet tail. */
  lemma PushContents<T>(buf: seq<T>, head: nat, tail: nat, v: T)
    requires head < |buf| && tail < |buf| && Next(head, |buf|) != tail
    ensures Contents(buf[head := v], Next(head, |buf|), tail) == Contents(buf, head, tail) + [v]
  {
  }

  /** Head meets tail after one more byte exactly when no slot is free. */
  lemma FullContents<T>(buf: seq<T>, head: nat, tail: nat)
    requires head < |buf| && tail < |buf|
    ensures Next(head, |buf|) == tail <==> Free(buf, head, tail) == 0
    ensures head == tail <==> Contents(buf, head, tail) == []
  {
  }

  /** The free slots at head are not live: storing there leaves the contents alone. */
  lemma StoreFree<T>(buf: seq<T>, head: nat, tail: nat, k: nat, v: T)
    requires head < |buf| && tail < |buf| && head + k < |buf| && k < Free(buf, head, tail)
    ensures Contents(buf[head + k := v], head, tail) == Contents(buf, head, tail)
  {
  }

  /** Publishing n freshly stored bytes at head appends them in order. */
  lemma {:induction false} AdvanceContents<T>(buf: seq<T>, head: nat, tail: nat, n: nat)
    requires head < |buf| && tail < |buf| && head + n <= |buf| && n <= Free(buf, head, tail)
    ensures var head' := if head + n < |buf| then head + n else 0;
            Contents(buf, head', tail) == Contents(buf, head, tail) + buf[head..head + n]
  {
    if tail <= head {
      assert buf[tail..head] + buf[head..head + n] == buf[tail..head + n];
    } else {
      assert buf[..head] + buf[head..head + n] == buf[..head + n];
    }
  }

  /** (tail - head - 1) mod size counts the free slots. */
  lemma {:induction false} FreeCount<T>(buf: seq<T>, head: nat, tail: nat)
    requires head < |buf| && tail < |buf|
    ensures (tail - head - 1) % |buf| == Free(buf, head, tail)
  {
    var size := |buf|;
    if tail > head {
      DivModUnique(tail - head - 1, size, 0, tail - head - 1);
    } else {
      DivModUnique(tail - head - 1, size, -1, tail - head - 1 + size);
    }
  }
}
