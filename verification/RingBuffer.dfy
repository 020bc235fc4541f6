/** The contiguous-allocation ring buffer of app_trace_util.c.

    `Produce` and `Consume` compute the new indices and the offset handed to the
    caller; the class `Ring` is the mutable control structure over its storage. */
module RingBuffer {
  import opened Arithmetic
  import opened Options

  /** Unsigned 32-bit addition. */
  function Add32(a: nat, b: nat): nat
    requires a < U32 && b < U32
  {
    if a + b < U32 then a + b else a + b - U32
  }

  /** The four index fields of `esp_apptrace_rb_t`. */
  datatype Layout = Layout(rd: nat, wr: nat, cur: nat, size: nat) {
    ghost predicate Valid() {
      && size < U32
      && (if rd <= wr then cur == size && (wr < size || wr == size == 0) else rd < cur <= size)
    }

    function ReadSize(): nat
      requires rd <= wr || rd <= cur
    {
      if rd <= wr then wr - rd else cur - rd
    }

    function WriteSize(): nat
      requires rd <= wr ==> wr <= size
    {
      if rd <= wr then (if size - wr > 0 && rd == 0 then size - wr - 1 else size - wr)
      else rd - wr - 1
    }
  }

  function InitLayout(size: nat): Layout { Layout(0, 0, size, size) }

  /** The offset of the allocated chunk, if any, and the new indices. */
  function Produce(l: Layout, n: nat): (r: (Option<nat>, Layout))
    requires l.Valid() && n < U32
    ensures r.0.None? ==> r.1 == l
  {
    if l.rd <= l.wr then
      if Add32(l.wr, n) >= l.size then
        if l.rd == 0 then (None, l)
        else if Add32(l.wr, n) == l.size then (Some(l.wr), l.(wr := 0))
        else if n > l.rd - 1 then (None, l)
        else if l.rd == l.wr then (Some(0), l.(rd := 0, wr := n))
        else (Some(0), l.(cur := l.wr, wr := n))
      else (Some(l.wr), l.(wr := Add32(l.wr, n)))
    else if n > l.rd - l.wr - 1 then (None, l)
    else (Some(l.wr), l.(wr := Add32(l.wr, n)))
  }

  /** The offset of the consumed chunk, if any, and the new indices. */
  function Consume(l: Layout, n: nat): (r: (Option<nat>, Layout))
    requires l.Valid() && n < U32
    ensures r.0.None? ==> r.1 == l
  {
    if l.rd <= l.wr then
      if Add32(l.rd, n) > l.wr then (None, l) else (Some(l.rd), l.(rd := Add32(l.rd, n)))
    else if Add32(l.rd, n) > l.cur then (None, l)
    else if Add32(l.rd, n) == l.cur then (Some(l.rd), l.(rd := 0, cur := l.size))
    else (Some(l.rd), l.(rd := Add32(l.rd, n)))
  }

  /** The queued elements, oldest first. */
  ghost function Contents<T>(l: Layout, d: seq<T>): seq<T>
    requires l.Valid() && |d| == l.size
  {
    if l.rd <= l.wr then d[l.rd..l.wr] else d[l.rd..l.cur] + d[..l.wr]
  }

  /** The storage after the caller filled the allocated chunk at offset `p` with `x`. */
  ghost function Overwrite<T>(d: seq<T>, p: nat, x: seq<T>): (r: seq<T>)
    requires p + |x| <= |d|
    ensures |r| == |d|
  {
    d[..p] + x + d[p + |x|..]
  }

  /** An allocation refines a queue append: nothing changes on failure; on success the
      chunk lies inside the storage, and whatever the caller writes into it, the queue
      is the old queue followed by it (so the chunk misses every live element). */
  ghost predicate AppendsOn<T>(l: Layout, n: nat, d: seq<T>, x: seq<T>)
    requires l.Valid() && n < U32 && |d| == l.size && |x| == n
  {
    var (p, l') := Produce(l, n);
    if p.None? then l' == l
    else
      && l'.Valid() && l'.size == l.size && p.value + n <= l.size
      && Contents(l', Overwrite(d, p.value, x)) == Contents(l, d) + x
  }

  /** Index `i` of the storage holds a queued element. */
  predicate Live(l: Layout, i: nat)
  {
    if l.rd <= l.wr then l.rd <= i < l.wr else l.rd <= i < l.cur || i < l.wr
  }

  /** A place for `n` elements at offset `p`, behind the newest element or at the start of the
      storage: it lies in the storage, holds no queued element, and its end, where the next one
      will go, does not reach the oldest one. */
  ghost predicate Place(l: Layout, n: nat, p: nat)
  {
    && (p == l.wr || p == 0) && p + n <= l.size
    && (forall i | p <= i < p + n :: !Live(l, i))
    && !(p < l.rd <= p + n) && !(l.rd == 0 && p + n == l.size)
  }

  /** A consumption refines a queue removal, and succeeds exactly up to `ReadSize`. */
  ghost predicate RemovesOn<T>(l: Layout, n: nat, d: seq<T>)
    requires l.Valid() && n < U32 && |d| == l.size
  {
    var (p, l') := Consume(l, n);
    && (p.Some? <==> n <= l.ReadSize())
    && (p.None? ==> l' == l)
    && (p.Some? ==>
          && l'.Valid() && l'.size == l.size && p.value + n <= l.size
          && |Contents(l, d)| >= n
          && d[p.value..p.value + n] == Contents(l, d)[..n]
          && Contents(l', d) == Contents(l, d)[n..])
  }

  lemma OverwriteMisses<T>(d: seq<T>, p: nat, x: seq<T>, a: nat, b: nat)
    requires p + |x| <= |d| && a <= b <= |d| && (b <= p || p + |x| <= a)
    ensures Overwrite(d, p, x)[a..b] == d[a..b]
  {
  }

  lemma OverwriteExtends<T>(d: seq<T>, p: nat, x: seq<T>, a: nat)
    requires p + |x| <= |d| && a <= p
    ensures Overwrite(d, p, x)[a..p + |x|] == d[a..p] + x
  {
  }

  /** `produce` refines a FIFO append exactly when `wr + size` does not wrap in 32 bits,
      or the sum is not used because the free space lies between the indices. */
  lemma ProduceRefinesFifo<T>(l: Layout, n: nat, d: seq<T>, x: seq<T>)
    requires l.Valid() && n < U32 && |d| == l.size && |x| == n
    ensures AppendsOn(l, n, d, x) <==> l.rd > l.wr || l.wr + n < U32
  {
    hide Overwrite, Contents;
    if l.rd > l.wr {
      ProduceBetween(l, n, d, x);
    } else if l.wr + n < U32 {
      ProduceBehind(l, n, d, x);
    }
  }

  /** An allocation succeeds if and only if there is a place, and takes the one behind the newest
      element if both will do; only then does the ring stay unshrunk. */
  lemma ProduceFindsPlace(l: Layout, n: nat)
    requires l.Valid() && 0 < n < U32 && (l.rd > l.wr || l.wr + n < U32)
    ensures Produce(l, n).0.Some? <==> exists p :: Place(l, n, p)
    ensures Produce(l, n).0.Some? ==> Place(l, n, Produce(l, n).0.value)
    ensures Place(l, n, l.wr) ==> Produce(l, n).0 == Some(l.wr)
  {
    if l.rd > l.wr {
      PlaceBetween(l, n);
    } else {
      PlaceBehind(l, n);
    }
  }

  lemma PlaceBetween(l: Layout, n: nat)
    requires l.Valid() && 0 < n && l.rd > l.wr
    ensures Place(l, n, l.wr) <==> n <= l.rd - l.wr - 1
    ensures l.wr > 0 ==> !Place(l, n, 0)
  {
    assert Live(l, l.rd);
    if l.wr > 0 {
      assert Live(l, 0);
    }
  }

  lemma PlaceBehind(l: Layout, n: nat)
    requires l.Valid() && 0 < n && l.rd <= l.wr
    ensures Place(l, n, l.wr) <==> l.wr + n < l.size || (l.wr + n == l.size && l.rd > 0)
    ensures l.wr > 0 ==> (Place(l, n, 0) <==> n <= l.rd - 1)
  {
    if l.rd < l.wr {
      assert Live(l, l.rd);
    }
  }

  /** The free space lies between the indices. */
  lemma ProduceBetween<T>(l: Layout, n: nat, d: seq<T>, x: seq<T>)
    requires l.Valid() && n < U32 && |d| == l.size && |x| == n && l.rd > l.wr
    ensures AppendsOn(l, n, d, x)
  {
    hide Overwrite;
    if n <= l.rd - l.wr - 1 {
      OverwriteExtends(d, l.wr, x, 0);
      OverwriteMisses(d, l.wr, x, l.rd, l.cur);
    }
  }

  /** The free space lies behind the queued elements, and before them. */
  lemma ProduceBehind<T>(l: Layout, n: nat, d: seq<T>, x: seq<T>)
    requires l.Valid() && n < U32 && |d| == l.size && |x| == n && l.rd <= l.wr && l.wr + n < U32
    ensures AppendsOn(l, n, d, x)
  {
    hide Overwrite;
    var (p, l') := Produce(l, n);
    if p.Some? && p.value == l.wr {
      OverwriteExtends(d, l.wr, x, l.rd);
    } else if p.Some? {
      OverwriteExtends(d, 0, x, 0);
      OverwriteMisses(d, 0, x, l.rd, l.wr);
    }
  }

  /** Taking `n` bytes off the front of the contents, with or without the wrapped part. */
  lemma FrontTaken<T>(l: Layout, n: nat, d: seq<T>)
    requires l.Valid() && |d| == l.size && n <= l.ReadSize()
    ensures Contents(l, d)[..n] == d[l.rd..l.rd + n]
    ensures l.rd <= l.wr ==> Contents(l, d)[n..] == d[l.rd + n..l.wr]
    ensures l.rd > l.wr ==> Contents(l, d)[n..] == d[l.rd + n..l.cur] + d[..l.wr]
  {}

  /** `consume` refines a FIFO removal exactly when `rd + size` does not wrap. */
  lemma ConsumeRefinesFifo<T>(l: Layout, n: nat, d: seq<T>)
    requires l.Valid() && n < U32 && |d| == l.size
    ensures RemovesOn(l, n, d) <==> l.rd + n < U32
  {
    hide RemovesOn;
    if l.rd + n < U32 {
      ConsumeTakes(l, n, d);
    } else {
      ConsumeOverruns(l, n, d);
    }
  }

  lemma ConsumeTakes<T>(l: Layout, n: nat, d: seq<T>)
    requires l.Valid() && n < U32 && |d| == l.size && l.rd + n < U32
    ensures RemovesOn(l, n, d)
  {
    if n <= l.ReadSize() {
      FrontTaken(l, n, d);
    }
  }

  /** A wrapped sum looks small, so too much is granted. */
  lemma ConsumeOverruns<T>(l: Layout, n: nat, d: seq<T>)
    requires l.Valid() && n < U32 && |d| == l.size && l.rd + n >= U32
    ensures !RemovesOn(l, n, d)
  {
    assert Consume(l, n).0.Some? && n > l.ReadSize();
  }

  /** The ring is empty exactly when the indices meet, and `ReadSize` is zero only then. */
  lemma EmptyIffIndicesMeet<T>(l: Layout, d: seq<T>)
    requires l.Valid() && |d| == l.size
    ensures Contents(l, d) == [] <==> l.rd == l.wr
    ensures l.ReadSize() == 0 <==> l.rd == l.wr
    ensures l.ReadSize() <= |Contents(l, d)| < U32
  {
  }

  /** At most two consumptions drain the ring: taking all that is readable in one piece
      leaves a ring whose whole contents is readable. */
  lemma TwoPiecesDrain<T>(l: Layout, d: seq<T>)
    requires l.Valid() && |d| == l.size
    ensures var l' := Consume(l, l.ReadSize()).1; l'.Valid() && l'.ReadSize() == |Contents(l, d)| - l.ReadSize()
  {
  }

  /** On a ring that never shrank (`cur == size`) `WriteSize` is the longest piece that has a place
      behind the newest element; it is allocated there and does not shrink the ring. */
  lemma WriteSizeIsAvailable<T>(l: Layout, n: nat, d: seq<T>)
    requires l.Valid() && |d| == l.size && l.cur == l.size && 0 < n
    ensures n <= l.WriteSize() <==> Place(l, n, l.wr)
    ensures n <= l.WriteSize() ==>
              && l.wr + n < U32 && Produce(l, n).0 == Some(l.wr) && Produce(l, n).1.cur == l.size
              && |Contents(l, d)| + n < l.size
  {
    hide Place;
    if l.rd > l.wr {
      PlaceBetween(l, n);
    } else {
      PlaceBehind(l, n);
    }
  }

  lemma NoRoomMeansFull<T>(l: Layout, d: seq<T>)
    requires l.Valid() && |d| == l.size && l.cur == l.size
    ensures l.WriteSize() == 0 <==> |Contents(l, d)| + 1 >= l.size
  {
  }

  /** `memcpy` of `x` into the storage at offset `p`. */
  method CopyIn<T>(a: array<T>, p: nat, x: seq<T>)
    requires p + |x| <= a.Length
    modifies a
    ensures a[..] == Overwrite(old(a[..]), p, x)
  {
    forall i | 0 <= i < |x| {
      a[p + i] := x[i];
    }
  }

  /** The control structure together with its storage. */
  class Ring<T(0)> {
    const data: array<T>
    var rd: nat
    var wr: nat
    var cur: nat

    function L(): Layout
      reads this
    {
      Layout(rd, wr, cur, data.Length)
    }

    ghost predicate Valid()
      reads this
    {
      L().Valid()
    }

    /** The FIFO this ring implements. */
    ghost function Queue(): seq<T>
      reads this, data
      requires Valid()
    {
      Contents(L(), data[..])
    }

    constructor (size: nat)
      requires size < U32
      ensures Valid() && fresh(data) && L() == InitLayout(size) && Queue() == []
    {
      data := new T[size];
      rd, wr, cur := 0, 0, size;
    }

    /** Something can be read in one piece whenever the ring is not empty. */
    lemma Readable()
      requires Valid()
      ensures rd <= wr || rd <= cur
      ensures L().ReadSize() <= |Queue()| && (L().ReadSize() == 0 <==> Queue() == [])
    {
    }

    /** A ring that never shrank offers room exactly while one element is missing to full. */
    lemma Room()
      requires Valid() && cur == data.Length
      ensures rd <= wr ==> wr <= data.Length
      ensures L().WriteSize() == 0 <==> |Queue()| + 1 >= data.Length
      ensures L().WriteSize() <= data.Length
    {
      NoRoomMeansFull(L(), data[..]);
    }

    method ProduceBytes(n: nat) returns (p: Option<nat>)
      requires Valid() && n < U32
      modifies this
      ensures (p, L()) == Produce(old(L()), n)
    {
      p := Some(wr);
      if rd <= wr {
        if Add32(wr, n) >= data.Length {
          if rd == 0 {
            return None;
          }
          if Add32(wr, n) == data.Length {
            wr := 0;
          } else {
            if n > rd - 1 {
              return None;
            }
            // shrink the buffer; the full size is restored when rd wraps
            cur := wr;
            wr := 0;
            p := Some(0);
            if rd == cur {
              rd := 0;
              if cur < data.Length {
                cur := data.Length;
              }
            }
            wr := wr + n;
          }
        } else {
          wr := Add32(wr, n);
        }
      } else {
        if n > rd - wr - 1 {
          return None;
        }
        wr := Add32(wr, n);
      }
    }

    method ConsumeBytes(n: nat) returns (p: Option<nat>)
      requires Valid() && n < U32
      modifies this
      ensures (p, L()) == Consume(old(L()), n)
    {
      p := Some(rd);
      if rd <= wr {
        if Add32(rd, n) > wr {
          return None;
        }
        rd := Add32(rd, n);
      } else {
        if Add32(rd, n) > cur {
          return None;
        } else if Add32(rd, n) == cur {
          if cur < data.Length {
            cur := data.Length;
          }
          rd := 0;
        } else {
          rd := Add32(rd, n);
        }
      }
    }

    /** Allocate a chunk and fill it, as every caller of `produce` does. */
    method Append(x: seq<T>) returns (ok: bool)
      requires Valid() && data.Length + |x| < U32
      modifies this, data
      ensures Valid() && L() == Produce(old(L()), |x|).1
      ensures ok <==> Produce(old(L()), |x|).0.Some?
      ensures |x| > 0 ==> (ok <==> exists p :: Place(old(L()), |x|, p))
      ensures Queue() == if ok then old(Queue()) + x else old(Queue())
    {
      ghost var l, d := L(), data[..];
      ProduceRefinesFifo(l, |x|, d, x);
      if |x| > 0 {
        ProduceFindsPlace(l, |x|);
      }
      var p := ProduceBytes(|x|);
      ok := p.Some?;
      if ok {
        CopyIn(data, p.value, x);
      }
    }

    /** Take exactly `n` elements from the front, as every caller of `consume` does. */
    method Take(n: nat) returns (r: Option<seq<T>>)
      requires Valid() && data.Length + n < U32
      modifies this
      ensures Valid() && L() == Consume(old(L()), n).1
      ensures r.Some? <==> n <= old(L()).ReadSize()
      ensures r.Some? ==> n <= |old(Queue())| && r.value == old(Queue())[..n] && Queue() == old(Queue())[n..]
      ensures r.None? ==> Queue() == old(Queue())
    {
      ConsumeRefinesFifo(L(), n, data[..]);
      var p := ConsumeBytes(n);
      r := if p.Some? then Some(data[p.value..p.value + n]) else None;
      assert p.Some? ==> data[p.value..p.value + n] == data[..][p.value..p.value + n];
    }
  }

  /** How many of `n` bytes from the host the down buffer accepts when `used` are queued. */
  function DownRoom(size: nat, used: nat, n: nat): (r: nat)
    ensures r <= n
  {
    if used + 1 >= size then 0 else Min(n, size - 1 - used)
  }

  /** One pass of the loop: a piece no longer than `write_size_get` is always allocated,
      so the assertion on a null pointer cannot fail, and the ring does not shrink. */
  method StorePiece<T(0)>(rb: Ring<T>, x: seq<T>)
    requires rb.Valid() && rb.cur == rb.data.Length && 0 < |x| <= rb.L().WriteSize()
    requires rb.data.Length + |x| < U32
    modifies rb, rb.data
    ensures rb.Valid() && rb.cur == rb.data.Length
    ensures rb.Queue() == old(rb.Queue()) + x
    ensures |rb.Queue()| < rb.data.Length
  {
    WriteSizeIsAvailable(rb.L(), |x|, rb.data[..]);
    var ok := rb.Append(x);
    assert ok;
  }

  /** `esp_apptrace_trax_down_buffer_write_nolock`: the loop stores exactly the first
      bytes that fit, in order. */
  method DownBufferWrite<T(0)>(rb: Ring<T>, x: seq<T>) returns (total: nat)
    requires rb.Valid() && rb.cur == rb.data.Length && rb.data.Length + |x| < U32
    modifies rb, rb.data
    ensures rb.Valid() && rb.cur == rb.data.Length
    ensures total == DownRoom(rb.data.Length, |old(rb.Queue())|, |x|)
    ensures total <= |x| && rb.Queue() == old(rb.Queue()) + x[..total]
  {
    hide Contents, Layout.Valid, Layout.WriteSize, Ring.Valid, Ring.Queue;
    total := 0;
    while total < |x|
      invariant total <= |x| && rb.Valid() && rb.cur == rb.data.Length
      invariant rb.Queue() == old(rb.Queue()) + x[..total]
      invariant total == 0 || |rb.Queue()| < rb.data.Length
    {
      rb.Room();
      var room := rb.L().WriteSize();
      if room == 0 {
        break;
      }
      if room > |x| - total {
        room := |x| - total;
      }
      var piece := x[total..total + room];
      assert x[..total] + piece == x[..total + room];
      StorePiece(rb, piece);
      total := total + room;
    }
  }
}
