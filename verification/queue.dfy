/**
  The fixed-capacity circular queue behind "recent translations" (lib/queue.js).

  The queue is a backing array `datum` of length `maxSize` with two indices:
  `front` is the slot of the oldest item and `back` the slot the next push
  writes. It is empty when `front == back` and full when advancing `back`
  would reach `front`, so it never holds more than `maxSize - 1` items.
  Operations are pure: each returns the new queue instead of mutating.
*/
module CircularQueue {
  import opened Wrappers

  /** The message `pop` and `peek` throw on an empty queue. */
  const EmptyMessage: string := "Queue is empty"

  datatype Queue<T> = Queue(datum: seq<T>, front: int, back: int, maxSize: int)

  /** The representation invariant every operation keeps. */
  predicate Valid<T>(q: Queue<T>) {
    && q.maxSize >= 1
    && |q.datum| == q.maxSize
    && 0 <= q.front < q.maxSize
    && 0 <= q.back < q.maxSize
  }

  /**
    The items held, oldest first: the slots from `front` up to (not
    including) `back`, wrapping past the end of the array when `back` is
    behind `front`.
  */
  function Items<T>(q: Queue<T>): seq<T>
    requires Valid(q)
  {
    if q.front <= q.back then q.datum[q.front..q.back]
    else q.datum[q.front..] + q.datum[..q.back]
  }

  /** The slot after `i` in an array of `m` slots, wrapping to 0 after the last. */
  function NextSlot(i: int, m: int): int
    requires 0 <= i < m
  {
    if i + 1 == m then 0 else i + 1
  }

  /** `NextSlot` is the source's `(i + 1) % m`. */
  lemma NextSlotIsModulo(i: int, m: int)
    requires 0 <= i < m
    ensures NextSlot(i, m) == (i + 1) % m
  {
  }

  /** `Queue(max_size)`: an array of `maxSize` copies of `blank` with both indices at 0. */
  function Create<T>(maxSize: int, blank: T): (q: Queue<T>)
    requires maxSize >= 1
    ensures Valid(q) && q.maxSize == maxSize
    ensures q.front == 0 && q.back == 0
    ensures Items(q) == []
  {
    Queue(seq(maxSize, _ => blank), 0, 0, maxSize)
  }

  function IsEmpty<T>(q: Queue<T>): (r: bool)
    requires Valid(q)
    ensures r <==> |Items(q)| == 0
  {
    q.front == q.back
  }

  function IsFull<T>(q: Queue<T>): (r: bool)
    requires Valid(q)
    ensures r <==> |Items(q)| == q.maxSize - 1
  {
    NextSlot(q.back, q.maxSize) == q.front
  }

  function Size<T>(q: Queue<T>): (r: int)
    requires Valid(q)
    ensures r == |Items(q)|
    ensures 0 <= r <= q.maxSize - 1
  {
    if q.front <= q.back then q.back - q.front
    else (q.maxSize - q.front) + q.back
  }

  /** Removes and returns the oldest item; throws "Queue is empty" when there is none. */
  function Pop<T>(q: Queue<T>): (r: Result<(T, Queue<T>), string>)
    requires Valid(q)
    ensures r.Failure? <==> Items(q) == []
    ensures r.Failure? ==> r.error == EmptyMessage
    ensures r.Success? ==>
      var (item, q') := r.value;
      && Valid(q') && q'.maxSize == q.maxSize
      && item == Items(q)[0]
      && Items(q') == Items(q)[1..]
  {
    if IsEmpty(q) then Failure(EmptyMessage)
    else Success((q.datum[q.front], q.(front := NextSlot(q.front, q.maxSize))))
  }

  /** Returns the oldest item without removing it; throws "Queue is empty" when there is none. */
  function Peek<T>(q: Queue<T>): (r: Result<T, string>)
    requires Valid(q)
    ensures r.Failure? <==> Items(q) == []
    ensures r.Failure? ==> r.error == EmptyMessage
    ensures r.Success? ==> r.value == Items(q)[0]
  {
    if IsEmpty(q) then Failure(EmptyMessage)
    else Success(q.datum[q.front])
  }

  /**
    Appends `d`, first evicting the oldest item when the queue is full. With
    `maxSize == 1` the queue is both full and empty, so the eviction throws.
  */
  function Push<T>(q: Queue<T>, d: T): (r: Result<Queue<T>, string>)
    requires Valid(q)
    ensures q.maxSize == 1 <==> r.Failure?
    ensures r.Failure? ==> r.error == EmptyMessage
    ensures r.Success? ==>
      && Valid(r.value) && r.value.maxSize == q.maxSize
      && Items(r.value) == (if |Items(q)| == q.maxSize - 1 then Items(q)[1..] else Items(q)) + [d]
  {
    var popped :=
      if IsFull(q) then
        match Pop(q)
        case Failure(e) => Failure(e)
        case Success((_, q')) => Success(q')
      else Success(q);
    match popped
    case Failure(e) => Failure(e)
    case Success(p) => Success(Store(p, d))
  }

  /** The write half of `push`: stores `d` in the `back` slot and advances `back`. */
  function Store<T>(p: Queue<T>, d: T): (r: Queue<T>)
    requires Valid(p) && |Items(p)| < p.maxSize - 1
    ensures Valid(r) && r.maxSize == p.maxSize
    ensures Items(r) == Items(p) + [d]
  {
    p.(datum := p.datum[p.back := d], back := NextSlot(p.back, p.maxSize))
  }

  /** `toList`: walks the slots from `front` to `back`, wrapping at the end of the array. */
  method ToList<T>(q: Queue<T>) returns (result: seq<T>)
    requires Valid(q)
    ensures result == Items(q)
  {
    result := [];
    var i := q.front;
    while i != q.back
      invariant 0 <= i < q.maxSize
      invariant q.front <= q.back ==> q.front <= i <= q.back && result == q.datum[q.front..i]
      invariant q.back < q.front ==>
        || (q.front <= i && result == q.datum[q.front..i])
        || (i <= q.back && result == q.datum[q.front..] + q.datum[..i])
      decreases if i <= q.back then q.back - i else q.maxSize - i + q.back
    {
      result := result + [q.datum[i]];
      i := NextSlot(i, q.maxSize);
    }
  }

  /** With a single slot the queue is at once full and empty, which is why `Push` throws there. */
  lemma SingleSlotFullAndEmpty<T>(q: Queue<T>)
    requires Valid(q) && q.maxSize == 1
    ensures IsFull(q) && IsEmpty(q)
    ensures Push(q, q.datum[0]) == Failure(EmptyMessage)
  {
  }

  /** The last `c` elements of `s` (all of `s` when it is shorter). */
  function Newest<T>(s: seq<T>, c: nat): seq<T> {
    if |s| <= c then s else s[|s| - c..]
  }

  /** Keeping the newest, adding `x`, and keeping the newest again keeps the newest of all. */
  lemma NewestSnoc<T>(s: seq<T>, x: T, c: nat)
    requires c >= 1
    ensures Newest(Newest(s, c) + [x], c) == Newest(s + [x], c)
  {
    if |s| > c {
      assert s[|s| - c..] + [x] == (s + [x])[|s| - c..];
      assert (s + [x])[|s| - c..][1..] == (s + [x])[|s| + 1 - c..];
    }
  }

  /** Extending the prefix `xs[..i]` by its next element. */
  lemma PrefixSnoc<T>(s: seq<T>, xs: seq<T>, i: nat)
    requires i <= |xs|
    ensures s + xs[..0] == s
    ensures i < |xs| ==> s + xs[..i] + [xs[i]] == s + xs[..i + 1]
  {
    assert s + xs[..0] == s;
    if i < |xs| {
      assert xs[..i + 1] == xs[..i] + [xs[i]];
    }
  }

  /** A push into a queue holding the newest of `seen` holds the newest of `seen + [x]`. */
  lemma PushKeepsNewest<T>(q: Queue<T>, seen: seq<T>, x: T)
    requires Valid(q) && q.maxSize >= 2 && Items(q) == Newest(seen, q.maxSize - 1)
    ensures Items(Push(q, x).value) == Newest(seen + [x], q.maxSize - 1)
  {
    var c := q.maxSize - 1;
    var s := Items(q);
    if |s| == c {
      assert (s + [x])[1..] == s[1..] + [x];
    }
    assert Items(Push(q, x).value) == Newest(s + [x], c);
    NewestSnoc(seen, x, c);
  }

  /**
    Pushes every element of `xs` in order, as successive saved translations
    do. However many items are pushed, the queue holds exactly the newest
    `maxSize - 1` of everything it has seen, oldest first.
  */
  method PushAll<T>(q: Queue<T>, xs: seq<T>) returns (r: Queue<T>)
    requires Valid(q) && q.maxSize >= 2
    ensures Valid(r) && r.maxSize == q.maxSize
    ensures Items(r) == Newest(Items(q) + xs, q.maxSize - 1)
  {
    r := q;
    var i := 0;
    ghost var seen := Items(q);
    PrefixSnoc(Items(q), xs, 0);
    while i < |xs|
      invariant 0 <= i <= |xs|
      invariant Valid(r) && r.maxSize == q.maxSize
      invariant seen == Items(q) + xs[..i]
      invariant Items(r) == Newest(seen, q.maxSize - 1)
    {
      PushKeepsNewest(r, seen, xs[i]);
      PrefixSnoc(Items(q), xs, i);
      r := Push(r, xs[i]).value;
      seen := seen + [xs[i]];
      i := i + 1;
    }
    assert xs[..i] == xs;
  }
}
