/** Byte-addressed main memory with big-endian halfwords and words. */
module Ram {

  type Byte = b: int | 0 <= b < 256

  type Memory = map<int, Byte>

  function Get(m: Memory, a: int): Byte { if a in m then m[a] else 0 }

  /** Consecutive bytes from an address. */
  function Bytes(m: Memory, a: int, n: nat): (s: seq<Byte>)
    ensures |s| == n && forall i :: 0 <= i < n ==> s[i] == Get(m, a + i)
  {
    seq<Byte>(n, i => Get(m, a + i))
  }

  function Put(m: Memory, a: int, s: seq<Byte>): Memory
    decreases |s|
  {
    if s == [] then m else Put(m[a := s[0]], a + 1, s[1..])
  }

  lemma {:induction false} PutGet(m: Memory, a: int, s: seq<Byte>, x: int)
    ensures Get(Put(m, a, s), x) == if a <= x < a + |s| then s[x - a] else Get(m, x)
    decreases |s|
  {
    if s != [] {
      PutGet(m[a := s[0]], a + 1, s[1..], x);
    }
  }

  /** Writing two pieces one after the other is writing both. */
  lemma {:induction false} PutPut(m: Memory, a: int, s: seq<Byte>, t: seq<Byte>)
    ensures Put(Put(m, a, s), a + |s|, t) == Put(m, a, s + t)
    decreases |s|
  {
    if s == [] {
      assert s + t == t;
    } else {
      PutPut(m[a := s[0]], a + 1, s[1..], t);
      assert (s + t)[1..] == s[1..] + t;
    }
  }

  /** What was written is read back; bytes elsewhere are as before. */
  lemma PutBytes(m: Memory, a: int, s: seq<Byte>)
    ensures Bytes(Put(m, a, s), a, |s|) == s
  {
    var t := Bytes(Put(m, a, s), a, |s|);
    forall i | 0 <= i < |s|
      ensures t[i] == s[i]
    {
      PutGet(m, a, s, a + i);
    }
  }

  lemma PutElsewhere(m: Memory, a: int, s: seq<Byte>, b: int, n: nat)
    requires b + n <= a || a + |s| <= b
    ensures Bytes(Put(m, a, s), b, n) == Bytes(m, b, n)
  {
    var t := Bytes(Put(m, a, s), b, n);
    forall i | 0 <= i < n
      ensures t[i] == Bytes(m, b, n)[i]
    {
      PutGet(m, a, s, b + i);
    }
  }

  // ------------------------------------------------------------ halfwords and words

  type Half = h: int | 0 <= h < 0x1_0000
  type Word = w: int | 0 <= w < 0x1_0000_0000

  function HalfBytes(h: Half): (s: seq<Byte>)
    ensures |s| == 2
  {
    [h / 256, h % 256]
  }

  function WordBytes(w: Word): (s: seq<Byte>)
    ensures |s| == 4
  {
    [w / 0x100_0000, w / 0x1_0000 % 256, w / 256 % 256, w % 256]
  }

  function HalfOf(s: seq<Byte>): Half
    requires |s| == 2
  {
    s[0] as int * 256 + s[1]
  }

  function WordOf(s: seq<Byte>): Word
    requires |s| == 4
  {
    ((s[0] as int * 256 + s[1]) * 256 + s[2]) * 256 + s[3]
  }

  lemma HalfRoundTrip(h: Half)
    ensures HalfOf(HalfBytes(h)) == h
  {
  }

  lemma WordRoundTrip(w: Word)
    ensures WordOf(WordBytes(w)) == w
  {
    var x: int := w / 0x100;
    var y: int := x / 0x100;
    assert y == w / 0x1_0000;
    assert y / 0x100 == w / 0x100_0000;
    assert w == x * 0x100 + w % 0x100 && x == y * 0x100 + x % 0x100 && y == y / 0x100 * 0x100 + y % 0x100;
  }

  lemma HalfBack(s: seq<Byte>)
    requires |s| == 2
    ensures HalfBytes(HalfOf(s)) == s
  {
  }

  lemma WordBack(s: seq<Byte>)
    requires |s| == 4
    ensures WordBytes(WordOf(s)) == s
  {
    var a: int, b: int, c: int, d: int := s[0], s[1], s[2], s[3];
    var w: int := WordOf(s);
    assert w == a * 0x100_0000 + (b * 0x1_0000 + c * 0x100 + d);
    assert w == (a * 0x100 + b) * 0x1_0000 + (c * 0x100 + d);
    assert w == (a * 0x1_0000 + b * 0x100 + c) * 0x100 + d;
    assert w / 0x100_0000 == a && w / 0x1_0000 == a * 0x100 + b && w / 0x100 == a * 0x1_0000 + b * 0x100 + c;
  }

  function ReadHalf(m: Memory, a: int): Half { HalfOf(Bytes(m, a, 2)) }

  function ReadWord(m: Memory, a: int): Word { WordOf(Bytes(m, a, 4)) }

  function WriteHalf(m: Memory, a: int, h: Half): Memory { Put(m, a, HalfBytes(h)) }

  function WriteWord(m: Memory, a: int, w: Word): Memory { Put(m, a, WordBytes(w)) }

  lemma WriteReadHalf(m: Memory, a: int, h: Half)
    ensures ReadHalf(WriteHalf(m, a, h), a) == h
  {
    hide Put, Bytes, HalfOf, HalfBytes;
    PutBytes(m, a, HalfBytes(h));
    HalfRoundTrip(h);
  }

  lemma WriteReadWord(m: Memory, a: int, w: Word)
    ensures ReadWord(WriteWord(m, a, w), a) == w
  {
    hide Put, Bytes, WordOf, WordBytes;
    PutBytes(m, a, WordBytes(w));
    WordRoundTrip(w);
  }
}
