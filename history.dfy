/**
 The abstract meaning of an overwrite-on-full buffer: the stream of every byte
 ever written (its history), and the window of it that a buffer of a given
 capacity retains, namely the last `size` bytes of that stream.
 */
module History {

  function Min(a: int, b: int): int
  {
    if a < b then a else b
  }

  /** The last `size` elements of `h`, or all of `h` when it is shorter. */
  function Suffix<T>(h: seq<T>, size: nat): (r: seq<T>)
    ensures |r| == Min(|h|, size)
  {
    if |h| <= size then h else h[|h| - size..]
  }

  /** The `i`-th element of the window is the element of `h` that far into its tail. */
  lemma SuffixAt<T>(h: seq<T>, size: nat, i: nat)
    requires i < |Suffix(h, size)|
    ensures Suffix(h, size)[i] == h[|h| - |Suffix(h, size)| + i]
  {
  }

  /** A window no longer than the capacity is retained whole. */
  lemma SuffixShort<T>(h: seq<T>, size: nat)
    requires |h| <= size
    ensures Suffix(h, size) == h
  {
  }

  /**
   Retaining the window of `h` and then appending `x` keeps the same window
   as appending `x` to the whole of `h`: the bytes a buffer has already
   discarded can never come back into its window.
   */
  lemma SuffixOfAppend<T>(h: seq<T>, x: seq<T>, size: nat)
    ensures Suffix(Suffix(h, size) + x, size) == Suffix(h + x, size)
  {
    var s := Suffix(h, size);
    var a, b := Suffix(s + x, size), Suffix(h + x, size);
    assert |a| == |b|;
    forall i | 0 <= i < |a|
      ensures a[i] == b[i]
    {
      var k := |x| - |a| + i;  // position of a[i] relative to the start of x
      SuffixAt(s + x, size, i);
      SuffixAt(h + x, size, i);
      if k < 0 {
        SuffixAt(h, size, |s| + k);
        assert a[i] == s[|s| + k];
        assert b[i] == h[|h| + k];
      } else {
        assert a[i] == x[k] == b[i];
      }
    }
  }

  /**
   Of a single write, only its own last `size` bytes matter for the window:
   the part of it that is longer than the capacity is overwritten by itself.
   */
  lemma SuffixOfTail<T>(h: seq<T>, p: seq<T>, size: nat)
    ensures Suffix(h + Suffix(p, size), size) == Suffix(h + p, size)
  {
    if |p| > size {
      var t := Suffix(p, size);
      var a, b := Suffix(h + t, size), Suffix(h + p, size);
      assert |a| == |b| == size;
      forall i | 0 <= i < size
        ensures a[i] == b[i]
      {
        SuffixAt(h + t, size, i);
        SuffixAt(p, size, i);
        SuffixAt(h + p, size, i);
        assert a[i] == t[i] == p[|p| - size + i] == b[i];
      }
    }
  }

  /** The window of `x + y` ends with all of `y` when `y` fits into it. */
  lemma SuffixSplit<T>(x: seq<T>, y: seq<T>, size: nat)
    requires |y| <= size
    ensures Suffix(x + y, size) == Suffix(x, size - |y|) + y
  {
    if |x + y| > size {
      assert (x + y)[|x + y| - size..] == x[|x| - (size - |y|)..] + y;
    }
  }

  /** When `y` alone fills the window, nothing written before it is retained. */
  lemma SuffixWithin<T>(x: seq<T>, y: seq<T>, size: nat)
    requires size <= |y|
    ensures Suffix(x + y, size) == Suffix(y, size)
  {
    assert (x + y)[|x + y| - size..] == y[|y| - size..];
  }

  /** Appending `t` is appending all but its last element, then that element. */
  lemma AppendLast<T>(h: seq<T>, t: seq<T>)
    requires t != []
    ensures h + t[..|t| - 1] + [t[|t| - 1]] == h + t
  {
    assert t == t[..|t| - 1] + [t[|t| - 1]];
  }

  lemma TakeAll<T>(s: seq<T>)
    ensures s[..|s|] == s
  {
  }

  /** The bytes of successive writes, in the order they were written. */
  function Concat<T>(chunks: seq<seq<T>>): seq<T>
  {
    if chunks == [] then [] else chunks[0] + Concat(chunks[1..])
  }

  /** The sum of the lengths of successive writes. */
  function TotalLength<T>(chunks: seq<seq<T>>): nat
  {
    if chunks == [] then 0 else |chunks[0]| + TotalLength(chunks[1..])
  }

  /** The total of the write lengths is the length of everything written. */
  lemma {:induction false} TotalLengthIsConcatLength<T>(chunks: seq<seq<T>>)
    ensures TotalLength(chunks) == |Concat(chunks)|
  {
    if chunks != [] {
      TotalLengthIsConcatLength(chunks[1..]);
    }
  }

  /**
   The window after each write in turn, starting from `window`: what a
   buffer of capacity `size` holds after each of `chunks` is written to it.
   */
  function Retain<T>(window: seq<T>, chunks: seq<seq<T>>, size: nat): seq<T>
    decreases |chunks|
  {
    if chunks == [] then window
    else Retain(Suffix(window + chunks[0], size), chunks[1..], size)
  }

  /**
   Writing chunk after chunk retains the last `size` bytes of everything
   written: the same window as one write of the concatenation.
   */
  lemma {:induction false} RetainIsSuffix<T>(h: seq<T>, chunks: seq<seq<T>>, size: nat)
    ensures Retain(Suffix(h, size), chunks, size) == Suffix(h + Concat(chunks), size)
    decreases |chunks|
  {
    if chunks != [] {
      var c, rest := chunks[0], chunks[1..];
      calc {
        Retain(Suffix(h, size), chunks, size);
        Retain(Suffix(Suffix(h, size) + c, size), rest, size);
        { SuffixOfAppend(h, c, size); }
        Retain(Suffix(h + c, size), rest, size);
        { RetainIsSuffix(h + c, rest, size); }
        Suffix(h + c + Concat(rest), size);
        { assert h + c + Concat(rest) == h + Concat(chunks); }
        Suffix(h + Concat(chunks), size);
      }
    }
  }

  /** The retained window does not depend on how the bytes were split into writes. */
  lemma ChunkingIrrelevant<T>(chunks1: seq<seq<T>>, chunks2: seq<seq<T>>, size: nat)
    requires Concat(chunks1) == Concat(chunks2)
    ensures Retain([], chunks1, size) == Retain([], chunks2, size)
  {
    var empty: seq<T> := [];
    assert Suffix(empty, size) == empty;
    RetainIsSuffix(empty, chunks1, size);
    RetainIsSuffix(empty, chunks2, size);
  }

  /** `s` split into one write per element. */
  function Singles<T>(s: seq<T>): (r: seq<seq<T>>)
    ensures |r| == |s|
    ensures forall i :: 0 <= i < |s| ==> r[i] == [s[i]]
  {
    seq(|s|, i requires 0 <= i < |s| => [s[i]])
  }

  /** One write per byte is the same stream of bytes as one write of them all. */
  lemma {:induction false} ConcatSingles<T>(s: seq<T>)
    ensures Concat(Singles(s)) == s
  {
    if s != [] {
      assert Singles(s)[1..] == Singles(s[1..]);
      ConcatSingles(s[1..]);
      assert s == [s[0]] + s[1..];
    }
  }
}
