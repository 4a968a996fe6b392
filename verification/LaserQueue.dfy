/** The ring queue between the FPGA FIFO and the frame parser. Push does not test for full, pop does not test for empty. */
module LaserQueue {
  import opened Machine

  const DEPTH := 2048

  datatype Ring = Ring(front: nat, rear: nat, data: seq<Word>) {
    predicate Valid() { front < DEPTH && rear < DEPTH && |data| == DEPTH }
  }

  type Q = r: Ring | r.Valid() witness Ring(0, 0, seq(DEPTH, _ => 0))

  predicate Empty(q: Q) { q.front == q.rear }
  predicate Full(q: Q) { q.front == (q.rear + 1) % DEPTH }
  function Count(q: Q): nat { if Empty(q) then 0 else (q.rear + DEPTH - q.front) % DEPTH }
  function Clear(q: Q): Q { q.(front := 0, rear := 0) }
  function Push(q: Q, x: Word): Q { q.(data := q.data[q.rear := x], rear := (q.rear + 1) % DEPTH) }
  function Head(q: Q): Word { q.data[q.front] }
  function Pop(q: Q): Q { q.(front := (q.front + 1) % DEPTH) }

  /** The queued words, oldest first. */
  function Contents(q: Q): (s: seq<Word>)
    ensures |s| == Count(q)
  {
    seq(Count(q), k requires 0 <= k < Count(q) => q.data[(q.front + k) % DEPTH])
  }

  lemma CountMeans(q: Q)
    ensures Count(q) == if q.front <= q.rear then q.rear - q.front else q.rear + DEPTH - q.front
    ensures Empty(q) <==> Count(q) == 0
    ensures Full(q) <==> Count(q) == DEPTH - 1
  {
  }

  lemma PushCount(q: Q, x: Word)
    ensures Count(Push(q, x)) == if Full(q) then 0 else Count(q) + 1
  {
    CountMeans(q);
    CountMeans(Push(q, x));
  }

  /** A push appends, except on a full queue, which it turns into an empty one. */
  lemma PushContents(q: Q, x: Word)
    ensures Contents(Push(q, x)) == if Full(q) then [] else Contents(q) + [x]
  {
    hide Count;
    PushCount(q, x);
    CountMeans(q);
    if !Full(q) {
      forall k | 0 <= k < Count(q) + 1
        ensures Contents(Push(q, x))[k] == (Contents(q) + [x])[k]
      {
        assert k < Count(q) ==> (q.front + k) % DEPTH != q.rear;
        assert (q.front + Count(q)) % DEPTH == q.rear;
      }
    }
  }

  lemma PopCount(q: Q)
    ensures Count(Pop(q)) == if Empty(q) then DEPTH - 1 else Count(q) - 1
  {
    CountMeans(q);
    CountMeans(Pop(q));
  }

  /** A pop takes the oldest word, except on an empty queue: then it returns a stale word and the queue turns full. */
  lemma PopContents(q: Q)
    ensures !Empty(q) ==> Contents(q) == [Head(q)] + Contents(Pop(q))
    ensures Empty(q) ==> Full(Pop(q))
  {
    hide Count;
    PopCount(q);
    CountMeans(q);
    CountMeans(Pop(q));
    if !Empty(q) {
      forall k | 0 <= k < Count(q)
        ensures Contents(q)[k] == ([Head(q)] + Contents(Pop(q)))[k]
      {
        if k > 0 {
          NextSlot(q.front, k);
        }
      }
    }
  }

  lemma NextSlot(front: nat, k: nat)
    requires front < DEPTH && 0 < k
    ensures (front + k) % DEPTH == ((front + 1) % DEPTH + (k - 1)) % DEPTH
  {
  }

  lemma ClearContents(q: Q)
    ensures Contents(Clear(q)) == [] && Empty(Clear(q))
  {
  }

  class Queue {
    var front: nat
    var rear: nat
    const data: array<Word>

    ghost predicate Valid()
      reads this, data
    {
      front < DEPTH && rear < DEPTH && data.Length == DEPTH
    }

    ghost function Value(): Q
      reads this, data
      requires Valid()
    {
      Ring(front, rear, data[..])
    }

    /** queue_init over a zeroed array of 2048 words */
    constructor ()
      ensures Valid() && fresh(data) && Empty(Value())
    {
      front := 0;
      rear := 0;
      data := new Word[DEPTH](_ => 0);
    }

    /** queue_clear */
    method ClearAll()
      requires Valid()
      modifies this
      ensures Valid() && Value() == Clear(old(Value()))
    {
      rear := 0;
      front := rear;
    }

    /** queue_push */
    method Enqueue(x: Word)
      requires Valid()
      modifies this, data
      ensures Valid() && Value() == Push(old(Value()), x)
    {
      data[rear] := x;
      rear := (rear + 1) % DEPTH;
    }

    /** queue_pop */
    method Dequeue() returns (x: Word)
      requires Valid()
      modifies this`front
      ensures Valid() && x == Head(old(Value())) && Value() == Pop(old(Value()))
    {
      x := data[front];
      front := (front + 1) % DEPTH;
    }

    /** queue_is_full */
    method IsFull() returns (full: bool)
      requires Valid()
      ensures full <==> Count(Value()) == DEPTH - 1
    {
      CountMeans(Value());
      full := front == (rear + 1) % DEPTH;
    }

    /** queue_is_empty */
    method IsEmpty() returns (empty: bool)
      requires Valid()
      ensures empty <==> Contents(Value()) == []
    {
      CountMeans(Value());
      empty := front == rear;
    }

    /** queue_count */
    method CountItems() returns (n: nat)
      requires Valid()
      ensures n == |Contents(Value())|
    {
      var empty := IsEmpty();
      n := if empty then 0 else (rear + DEPTH - front) % DEPTH;
    }
  }
}
