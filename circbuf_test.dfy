/**
 The scenarios of the package's tests, each as a method that drives a
 buffer and returns what the test inspects; the postconditions are the
 test's assertions.
 */
module CircbufTest {
  import opened History
  import opened Circbuf

  /** The bytes of an ASCII string. */
  function Ascii(s: string): (r: seq<bv8>)
    requires forall i | 0 <= i < |s| :: s[i] as int < 256
    ensures |r| == |s|
  {
    seq(|s|, i requires 0 <= i < |s| => s[i] as int as bv8)
  }

  /** The bytes of two strings one after the other are the bytes of their concatenation. */
  lemma AsciiConcat(a: string, b: string)
    requires forall i | 0 <= i < |a| :: a[i] as int < 256
    requires forall i | 0 <= i < |b| :: b[i] as int < 256
    ensures Ascii(a) + Ascii(b) == Ascii(a + b)
  {
    assert forall i | 0 <= i < |b| :: (a + b)[|a| + i] == b[i];
  }

  /** The last `k` bytes of a string are the bytes of its last `k` characters. */
  lemma AsciiSuffix(s: string, k: nat)
    requires forall i | 0 <= i < |s| :: s[i] as int < 256
    requires k <= |s|
    ensures Suffix(Ascii(s), k) == Ascii(s[|s| - k..])
  {
    forall i | 0 <= i < k
      ensures Suffix(Ascii(s), k)[i] == Ascii(s[|s| - k..])[i]
    {
      SuffixAt(Ascii(s), k, i);
    }
  }

  /** Writes `inp` into a fresh buffer of `size` bytes; returns what `Write` and `Bytes` report. */
  method WriteOnce(size: int, inp: seq<bv8>) returns (w: Result<nat>, bytes: seq<bv8>)
    requires size > 0
    ensures w == Ok(|inp|)
    ensures bytes == Suffix(inp, size)
  {
    var r := NewBuffer(size);
    var buf := r.value;
    w := buf.Write(inp);
    bytes := buf.Bytes();
  }

  /** A write shorter than the capacity is retained whole. */
  method ShortWrite() returns (w: Result<nat>, bytes: seq<bv8>)
    ensures w == Ok(11)
    ensures bytes == Ascii("hello world")
  {
    w, bytes := WriteOnce(1024, Ascii("hello world"));
  }

  /** A write of exactly the capacity is retained whole. */
  method FullWrite() returns (w: Result<nat>, bytes: seq<bv8>)
    ensures w == Ok(11)
    ensures bytes == Ascii("hello world")
  {
    w, bytes := WriteOnce(11, Ascii("hello world"));
  }

  /** A write longer than the capacity keeps only its last 6 bytes. */
  method LongWrite() returns (w: Result<nat>, bytes: seq<bv8>)
    ensures w == Ok(11)
    ensures bytes == Ascii(" world")
  {
    w, bytes := WriteOnce(6, Ascii("hello world"));
  }

  /** A write much longer than the capacity keeps only its last 3 bytes. */
  method HugeWrite() returns (w: Result<nat>, bytes: seq<bv8>)
    ensures w == Ok(11)
    ensures bytes == Ascii("rld")
  {
    w, bytes := WriteOnce(3, Ascii("hello world"));
  }

  /** The history after writing the first `i` chunks and then chunk `i`. */
  lemma {:induction false} ConcatSnoc<T>(chunks: seq<seq<T>>, i: nat)
    requires i < |chunks|
    ensures Concat(chunks[..i + 1]) == Concat(chunks[..i]) + chunks[i]
  {
    if i == 0 {
      assert chunks[..1] == [chunks[0]];
      assert Concat(chunks[..1]) == chunks[0] + Concat(chunks[..1][1..]);
    } else {
      var rest := chunks[1..];
      assert chunks[..i + 1][1..] == rest[..i];
      assert chunks[..i][1..] == rest[..i - 1];
      ConcatSnoc(rest, i - 1);
    }
  }

  /**
   Writes each of `inputs` in turn into a fresh buffer of `size` bytes;
   returns what each `Write` reports, the running total the test keeps,
   and what `TotalWritten` and `Bytes` report at the end.
   */
  method WriteAll(size: int, inputs: seq<seq<bv8>>)
    returns (ws: seq<Result<nat>>, total: int, written: nat, bytes: seq<bv8>)
    requires size > 0
    ensures |ws| == |inputs| && forall k | 0 <= k < |ws| :: ws[k] == Ok(|inputs[k]|)
    ensures total == TotalLength(inputs) && written == |Concat(inputs)|
    ensures bytes == Suffix(Concat(inputs), size)
  {
    total := 0;
    var r := NewBuffer(size);
    var buf := r.value;
    ws := [];
    for i := 0 to |inputs|
      invariant buf.Valid() && buf.size == size
      invariant buf.history == Concat(inputs[..i])
      invariant total == |buf.history|
      invariant |ws| == i && forall k | 0 <= k < i :: ws[k] == Ok(|inputs[k]|)
    {
      total := total + |inputs[i]|;
      var w := buf.Write(inputs[i]);
      ConcatSnoc(inputs, i);
      ws := ws + [w];
    }
    TakeAll(inputs);
    TotalLengthIsConcatLength(inputs);
    written := buf.TotalWritten();
    bytes := buf.Bytes();
  }

  /** Eleven one-byte writes retain what one eleven-byte write does. */
  method ManySmall() returns (ws: seq<Result<nat>>, bytes: seq<bv8>)
    ensures |ws| == 11 && forall k | 0 <= k < |ws| :: ws[k] == Ok(1)
    ensures bytes == Ascii("rld")
  {
    var inp := Ascii("hello world");
    var total: int, written: nat;
    ws, total, written, bytes := WriteAll(3, Singles(inp));
    ConcatSingles(inp);
  }

  /** Three writes in a row are their bytes one after the other. */
  lemma Concat3<T>(a: seq<T>, b: seq<T>, c: seq<T>)
    ensures Concat([a, b, c]) == a + b + c
  {
    assert [a, b, c][1..] == [b, c];
    assert [b, c][1..] == [c];
    assert [c][1..] == [];
    assert Concat([c]) == c + [] == c;
    assert Concat([b, c]) == b + c;
  }

  /** The last 16 bytes of the three inputs of the multi-part test. */
  lemma MultiPartWindow(a: seq<bv8>, b: seq<bv8>, c: seq<bv8>)
    requires a == Ascii("hello world\n") && b == Ascii("this is a test\n") && c == Ascii("my cool input\n")
    ensures |Concat([a, b, c])| == 41
    ensures Suffix(Concat([a, b, c]), 16) == Ascii("t\n") + Ascii("my cool input\n")
  {
    Concat3(a, b, c);
    calc {
      Suffix(a + b + c, 16);
      { SuffixSplit(a + b, c, 16); }
      Suffix(a + b, 2) + c;
      { SuffixWithin(a, b, 2); }
      Suffix(b, 2) + c;
      { AsciiSuffix("this is a test\n", 2); assert "this is a test\n"[13..] == "t\n"; }
      Ascii("t\n") + c;
    }
  }

  /** Three writes into 16 bytes: the total counts all 41 bytes, the content is the last 16. */
  method MultiPart() returns (ws: seq<Result<nat>>, total: int, written: nat, bytes: seq<bv8>)
    ensures ws == [Ok(12), Ok(15), Ok(14)]
    ensures total == written == 41
    ensures bytes == Ascii("t\n") + Ascii("my cool input\n")
  {
    var a, b, c := Ascii("hello world\n"), Ascii("this is a test\n"), Ascii("my cool input\n");
    ws, total, written, bytes := WriteAll(16, [a, b, c]);
    MultiPartWindow(a, b, c);
    TotalLengthIsConcatLength([a, b, c]);
    assert ws[0] == Ok(12) && ws[1] == Ok(15) && ws[2] == Ok(14);
  }
}
