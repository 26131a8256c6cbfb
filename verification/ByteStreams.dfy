/** Byte strings, their concatenation chunk by chunk, and the "last n bytes" of a stream. */
module ByteStreams {

  newtype byte = n: int | 0 <= n < 256

  type Bytes = seq<byte>

  /** The stream that a sequence of chunks spells out. */
  function Flatten(chunks: seq<Bytes>): Bytes {
    if chunks == [] then []
    else Flatten(chunks[..|chunks| - 1]) + chunks[|chunks| - 1]
  }

  /** The last `cap` elements of `s`, or all of it when it is shorter. */
  function Keep(s: Bytes, cap: nat): Bytes {
    if |s| <= cap then s else s[|s| - cap..]
  }

  /** `s` is the end of `t`. */
  predicate IsTailOf(s: Bytes, t: Bytes) {
    |s| <= |t| && s == t[|t| - |s|..]
  }

  function Ascii(text: string): Bytes {
    seq(|text|, i requires 0 <= i < |text| => (text[i] as int % 256) as byte)
  }

  lemma AsciiCodes(text: string, i: nat)
    requires i < |text| && text[i] as int < 128
    ensures |Ascii(text)| == |text| && Ascii(text)[i] as int == text[i] as int
  {
  }

  lemma Regroup<T>(a: seq<T>, b: seq<T>, c: seq<T>)
    ensures (a + b) + c == a + (b + c)
  {
  }

  lemma FlattenSnoc(chunks: seq<Bytes>, chunk: Bytes)
    ensures Flatten(chunks + [chunk]) == Flatten(chunks) + chunk
  {
    assert (chunks + [chunk])[..|chunks|] == chunks;
  }

  lemma {:induction false} FlattenAppend(a: seq<Bytes>, b: seq<Bytes>)
    ensures Flatten(a + b) == Flatten(a) + Flatten(b)
  {
    if b == [] {
      assert a + b == a;
    } else {
      var rest, last := b[..|b| - 1], b[|b| - 1];
      FlattenAppend(a, rest);
      assert a + b == (a + rest) + [last];
      FlattenSnoc(a + rest, last);
    }
  }

  /** Trimming early loses nothing that trimming late would keep. */
  lemma KeepAbsorbs(s: Bytes, t: Bytes, cap: nat)
    ensures Keep(Keep(s, cap) + t, cap) == Keep(s + t, cap)
  {
    var k := Keep(s, cap);
    if |s| > cap && |k + t| > cap {
      assert (s + t)[|s| - cap..] == k + t;
      assert (s + t)[|s + t| - cap..] == (k + t)[|k + t| - cap..];
    }
  }
}
