/**
 A fixed-capacity, overwrite-on-full byte buffer. It keeps only the most
 recent `size` bytes written to it, while counting every byte ever written.

 Storage is an array of `size` bytes; `writeCursor` is the slot the next byte
 goes to. Until the buffer has been filled once, its content sits at slots
 `[0, writeCursor)`; after that, the oldest retained byte sits at the cursor
 itself and the content runs on around the end of the array.
 */
module Circbuf {
  import opened History

  datatype Error = SizeNotPositive | IndexOutOfRange(n: int)

  datatype Result<T> = Ok(value: T) | Err(error: Error)

  /** The slot `k` slots after `c`, going around the end of storage at most once. */
  function SlotAfter(c: nat, k: nat, size: nat): (r: nat)
    requires c < size && k <= size
    ensures r < size
  {
    if c + k < size then c + k else c + k - size
  }

  /** Going round at most once is counting modulo the size, as the cursor arithmetic does. */
  lemma SlotAfterIsMod(c: nat, k: nat, size: nat)
    requires c < size && k <= size
    ensures SlotAfter(c, k, size) == (c + k) % size
  {
    var x := c + k;
    var q, r := x / size, x % size;
    assert x == q * size + r && 0 <= r < size;
    if x < size {
      assert q * size < size;
      assert q == 0;
    } else {
      assert 0 < q * size < 2 * size;
      assert q == 1;
    }
  }

  lemma SlotAfterNext(c: nat, k: nat, size: nat)
    requires c < size && k < size
    ensures SlotAfter(SlotAfter(c, k, size), 1, size) == SlotAfter(c, k + 1, size)
  {
  }

  /** Storage read starting at slot `c` and wrapping around the end. */
  function Rotate(d: seq<bv8>, c: nat): (r: seq<bv8>)
    requires c <= |d|
    ensures |r| == |d|
  {
    d[c..] + d[..c]
  }

  /** The `i`-th byte of the rotated view is `i` slots after `c`, wrapping around. */
  lemma RotateAt(d: seq<bv8>, c: nat, i: nat)
    requires c < |d| && i < |d|
    ensures Rotate(d, c)[i] == d[SlotAfter(c, i, |d|)]
  {
  }

  /**
   Storing one byte at the cursor and moving the cursor on drops the oldest
   slot of the rotated view and adds the byte as the newest.
   */
  lemma RotateStore(d: seq<bv8>, c: nat, b: bv8)
    requires c < |d|
    ensures Rotate(d[c := b], SlotAfter(c, 1, |d|)) == Rotate(d, c)[1..] + [b]
  {
    var d' := d[c := b];
    var r', r := Rotate(d', SlotAfter(c, 1, |d|)), Rotate(d, c)[1..] + [b];
    assert |r'| == |r|;
    forall i | 0 <= i < |d|
      ensures r'[i] == r[i]
    {
      RotateAt(d', SlotAfter(c, 1, |d|), i);
      if i < |d| - 1 {
        RotateAt(d, c, i + 1);
        assert r[i] == Rotate(d, c)[i + 1];
      }
    }
  }

  /**
   The rotated view ends with the retained window; after one more byte the
   view, shifted by one, ends with the next window.
   */
  lemma WindowStore(view: seq<bv8>, window: seq<bv8>, b: bv8)
    requires 0 < |view| && |window| <= |view|
    requires view[|view| - |window|..] == window
    ensures var next := Suffix(window + [b], |view|);
      (view[1..] + [b])[|view| - |next|..] == next
  {
    var size := |view|;
    var next := Suffix(window + [b], size);
    if |window| < size {
      assert next == window + [b];
      assert (view[1..] + [b])[size - |next|..] == view[size - |window|..] + [b];
    } else {
      assert next == (window + [b])[1..];
      assert (view[1..] + [b])[size - |next|..] == view[1..] + [b];
    }
  }

  /**
   Storage `d` with the cursor at `c` holds history `h`: before the first
   wrap the cursor is the count of bytes written (0 once exactly full), and
   the rotated view starting at the cursor ends with the last `|d|` bytes of `h`.
   */
  ghost predicate Holds(d: seq<bv8>, c: nat, h: seq<bv8>)
  {
    && c < |d|
    && (|h| < |d| ==> c == |h|)
    && (|h| == |d| ==> c == 0)
    && Rotate(d, c)[|d| - |Suffix(h, |d|)|..] == Suffix(h, |d|)
  }

  /** Storing a byte at the cursor and moving on holds the history extended by it. */
  lemma HoldsStore(d: seq<bv8>, c: nat, h: seq<bv8>, b: bv8)
    requires Holds(d, c, h)
    ensures Holds(d[c := b], SlotAfter(c, 1, |d|), h + [b])
  {
    RotateStore(d, c, b);
    WindowStore(Rotate(d, c), Suffix(h, |d|), b);
    SuffixOfAppend(h, [b], |d|);
  }

  /** Storage `d` after `t` has been copied into it from slot `c` on, wrapping around its end. */
  function Overlay(d: seq<bv8>, c: nat, t: seq<bv8>): (r: seq<bv8>)
    requires c < |d| && |t| <= |d|
    ensures |r| == |d|
    decreases |t|
  {
    if t == [] then d
    else Overlay(d, c, t[..|t| - 1])[SlotAfter(c, |t| - 1, |d|) := t[|t| - 1]]
  }

  /** Copying one more byte of `t` stores it in the next slot. */
  lemma OverlayNext(d: seq<bv8>, c: nat, t: seq<bv8>, i: nat)
    requires c < |d| && i < |t| <= |d|
    ensures Overlay(d, c, t[..i + 1]) == Overlay(d, c, t[..i])[SlotAfter(c, i, |d|) := t[i]]
  {
    assert t[..i + 1][..i] == t[..i];
  }

  /** `Holds` is a property of the values it is given, however they are written. */
  lemma HoldsSame(d: seq<bv8>, c: nat, h: seq<bv8>, d': seq<bv8>, c': nat, h': seq<bv8>)
    requires Holds(d, c, h) && d == d' && c == c' && h == h'
    ensures Holds(d', c', h')
  {
  }

  /**
   Copying `t` (no longer than storage) in from the cursor and moving the
   cursor past it holds the history extended by `t`.
   */
  lemma {:induction false} HoldsOverlay(d: seq<bv8>, c: nat, h: seq<bv8>, t: seq<bv8>)
    requires Holds(d, c, h) && |t| <= |d|
    ensures Holds(Overlay(d, c, t), SlotAfter(c, |t|, |d|), h + t)
    decreases |t|
  {
    if t == [] {
      assert h + t == h;
    } else {
      var t', b := t[..|t| - 1], t[|t| - 1];
      var d', c' := Overlay(d, c, t'), SlotAfter(c, |t'|, |d|);
      HoldsOverlay(d, c, h, t');
      HoldsStore(d', c', h + t', b);
      SlotAfterNext(c, |t'|, |d|);
      AppendLast(h, t);
      HoldsSame(d'[c' := b], SlotAfter(c', 1, |d|), h + t' + [b], Overlay(d, c, t), SlotAfter(c, |t|, |d|), h + t);
    }
  }

  /** Holding the history extended by the last `|d|` bytes of `p` is holding it extended by all of `p`. */
  lemma HoldsTail(d: seq<bv8>, c: nat, h: seq<bv8>, p: seq<bv8>)
    requires Holds(d, c, h + Suffix(p, |d|))
    ensures Holds(d, c, h + p)
  {
    SuffixOfTail(h, p, |d|);
  }

  /**
   Copies `t` into `data` from slot `c` on, going on at slot 0 when the end
   of storage is reached; returns the slot just past the last byte copied.
   */
  method CopyIn(data: array<bv8>, c: nat, t: seq<bv8>) returns (j: nat)
    requires c < data.Length && |t| <= data.Length
    modifies data
    ensures data[..] == Overlay(old(data[..]), c, t)
    ensures j == SlotAfter(c, |t|, data.Length)
  {
    ghost var d0 := data[..];
    var i: nat := 0;
    j := c;
    while i < |t|
      invariant i <= |t|
      invariant j == SlotAfter(c, i, data.Length)
      invariant data[..] == Overlay(d0, c, t[..i])
    {
      OverlayNext(d0, c, t, i);
      SlotAfterNext(c, i, data.Length);
      data[j] := t[i];
      j := SlotAfter(j, 1, data.Length);
      i := i + 1;
    }
    assert t[..i] == t;
  }

  class Buffer {
    const size: nat
    const data: array<bv8>
    var writeCursor: nat
    var written: nat
    /** Every byte ever written, oldest first. */
    ghost var history: seq<bv8>

    ghost predicate Valid()
      reads this, data
    {
      && 0 < size == data.Length
      && written == |history|
      && Holds(data[..], writeCursor, history)
    }

    constructor (size: nat)
      requires size > 0
      ensures Valid() && fresh(data)
      ensures this.size == size && history == []
      ensures writeCursor == 0 && written == 0
      ensures forall i :: 0 <= i < size ==> data[i] == 0
    {
      this.size := size;
      data := new bv8[size](_ => 0);
      writeCursor := 0;
      written := 0;
      history := [];
    }

    /**
     Accepts all of `p`: the total grows by `|p|`, only the last `size` bytes
     of `p` are stored, from the cursor on, wrapping around the end of storage.
     */
    method Write(p: seq<bv8>) returns (r: Result<nat>)
      requires Valid()
      modifies this, data
      ensures Valid()
      ensures r == Ok(|p|)
      ensures history == old(history) + p
      ensures written == old(written) + |p|
      ensures writeCursor == (old(writeCursor) + Min(|p|, size)) % size
    {
      var n := |p|;
      written := written + n;
      var tail := p;
      if n > size {
        tail := p[n - size..];
      }
      assert tail == Suffix(p, size) && |tail| == Min(n, size);
      ghost var h0, c0, d0 := history, writeCursor, data[..];
      var j := CopyIn(data, writeCursor, tail);
      SlotAfterIsMod(c0, Min(n, size), size);
      writeCursor := j;
      history := h0 + p;
      assert Holds(data[..], writeCursor, history) by {
        HoldsOverlay(d0, c0, h0, tail);
        HoldsTail(data[..], writeCursor, h0, p);
      }
      r := Ok(n);
    }

    /** Accepts one byte, exactly as a write of `[c]`. */
    method WriteByte(c: bv8) returns (r: Result<()>)
      requires Valid()
      modifies this, data
      ensures Valid()
      ensures r == Ok(())
      ensures history == old(history) + [c]
      ensures written == old(written) + 1
      ensures writeCursor == (old(writeCursor) + 1) % size
    {
      HoldsStore(data[..], writeCursor, history, c);
      SlotAfterIsMod(writeCursor, 1, size);
      data[writeCursor] := c;
      writeCursor := (writeCursor + 1) % size;
      written := written + 1;
      history := history + [c];
      r := Ok(());
    }

    /** The cumulative number of bytes written, not capped by the capacity. */
    method TotalWritten() returns (t: nat)
      requires Valid()
      ensures t == |history|
    {
      t := written;
    }

    /** A copy of the retained content, oldest byte first. */
    method Bytes() returns (r: seq<bv8>)
      requires Valid()
      ensures r == Suffix(history, size)
    {
      if written >= size && writeCursor == 0 {
        r := data[..];
      } else if written > size {
        r := data[writeCursor..] + data[..writeCursor];
      } else {
        r := data[..writeCursor];
      }
    }

    /** The byte at logical position `n` of the retained content, 0 being the oldest. */
    method Get(n: int) returns (r: Result<bv8>)
      requires Valid()
      ensures 0 <= n < |Suffix(history, size)| ==> r == Ok(Suffix(history, size)[n])
      ensures !(0 <= n < |Suffix(history, size)|) ==> r == Err(IndexOutOfRange(n))
    {
      if n < 0 || n >= written || n >= size {
        r := Err(IndexOutOfRange(n));
      } else if written > size {
        SlotAfterIsMod(writeCursor, n, size);
        var k := (writeCursor + n) % size;
        RotateAt(data[..], writeCursor, n);
        assert Suffix(history, size)[n] == Rotate(data[..], writeCursor)[n] == data[k];
        r := Ok(data[k]);
      } else {
        r := Ok(data[n]);
      }
    }
  }

  /** Creates a buffer of `size` bytes; a size that is not positive is refused. */
  method NewBuffer(size: int) returns (r: Result<Buffer>)
    ensures r.Err? <==> size <= 0
    ensures r.Err? ==> r.error == SizeNotPositive
    ensures r.Ok? ==> fresh(r.value) && fresh(r.value.data) && r.value.Valid()
    ensures r.Ok? ==> r.value.size == size && r.value.history == []
  {
    if size <= 0 {
      r := Err(SizeNotPositive);
    } else {
      var b := new Buffer(size);
      r := Ok(b);
    }
  }
}
