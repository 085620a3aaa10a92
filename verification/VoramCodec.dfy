/** The storage format of one vORAM bucket:
    key of child 0 | key of child 1 | (ident | length | data)* | zeros. */
module VoramCodec {

  import opened Bits
  import opened Positions

  type Byte = b: nat | b < 256

  type Bytes = seq<Byte>

  type Key = Bytes

  type Ident = nat

  datatype Chunk = Chunk(id: Ident, data: Bytes)

  datatype Bucket = Bucket(key0: Key, key1: Key, chunks: seq<Chunk>)

  /** The sizes, in bytes, that fix the format: of a bucket, of a key, of an ident and of the field
      that holds the length of a chunk. */
  datatype Format = Format(z: nat, keyLen: nat, idLen: nat, lenLen: nat)
  {
    /** What the constructor of a vORAM computes and checks: the length field is wide enough for
        a bucket, and at most half of a bucket is metadata. */
    ghost predicate Valid() {
      && keyLen > 0 && idLen > 0
      && z >= 2 * keyLen + 2
      && lenLen == LengthBytes(z - 2 * keyLen - 2)
      && z <= 2 * (z - 2 * keyLen - idLen - lenLen)
    }

    function Header(): nat {
      idLen + lenLen
    }

    ghost predicate IsChunk(c: Chunk) {
      IsIdent(8 * idLen, c.id) && |c.data| < Pow2(8 * lenLen)
    }

    ghost predicate IsBucket(b: Bucket) {
      && |b.key0| == keyLen && |b.key1| == keyLen
      && (forall c <- b.chunks :: IsChunk(c))
      && 2 * keyLen + |Encode(b.chunks)| <= z
    }

    function EncodeOne(c: Chunk): Bytes {
      Digits(c.id, idLen) + Digits(|c.data|, lenLen) + c.data
    }

    function Encode(chunks: seq<Chunk>): Bytes {
      if chunks == [] then [] else Encode(chunks[..|chunks| - 1]) + EncodeOne(chunks[|chunks| - 1])
    }

    /** What is stored for a bucket, before encryption. */
    function Image(b: Bucket): (r: Bytes) {
      var body := b.key0 + b.key1 + Encode(b.chunks);
      body + Zeros(if |body| <= z then z - |body| else 0)
    }

    /** Reads chunks up to an ident of zeros or the end; a chunk that is cut off by the end of the
        bucket is shorter than it says. */
    function Parse(raw: Bytes): (r: seq<Chunk>)
      decreases |raw|
    {
      if idLen == 0 || |raw| < idLen || raw[..idLen] == Zeros(idLen) then []
      else [Front(raw)] + Parse(raw[FrontEnd(raw)..])
    }

    /** Where the length field of the first chunk ends. */
    function LengthEnd(raw: Bytes): (r: nat)
      requires idLen <= |raw|
      ensures idLen <= r <= |raw|
    {
      if Header() <= |raw| then Header() else |raw|
    }

    /** Where the first chunk ends. */
    function FrontEnd(raw: Bytes): (r: nat)
      requires idLen <= |raw|
      ensures LengthEnd(raw) <= r <= |raw|
    {
      var end := LengthEnd(raw);
      var len := Number(raw[idLen..end]);
      if end + len <= |raw| then end + len else |raw|
    }

    function Front(raw: Bytes): Chunk
      requires idLen <= |raw|
    {
      Chunk(Number(raw[..idLen]), raw[LengthEnd(raw)..FrontEnd(raw)])
    }

    function Decode(raw: Bytes): Bucket
      requires 2 * keyLen <= |raw|
    {
      Bucket(raw[..keyLen], raw[keyLen..2 * keyLen], Parse(raw[2 * keyLen..]))
    }
  }

  /** The bytes needed for the numbers up to x. */
  function LengthBytes(x: nat): nat {
    (BitLength(x) + 7) / 8
  }

  function Zeros(n: nat): (r: Bytes)
    ensures |r| == n
  {
    seq(n, _ => 0)
  }

  /** The last `len` base-256 digits of x, most significant first. */
  function Digits(x: nat, len: nat): (r: Bytes)
    ensures |r| == len
  {
    if len == 0 then [] else Digits(x / 256, len - 1) + [x % 256]
  }

  function Number(s: Bytes): nat {
    if s == [] then 0 else 256 * Number(s[..|s| - 1]) + s[|s| - 1]
  }

  // ---------------------------------------------------------------- numbers

  lemma {:induction false} DigitsNumber(x: nat, len: nat)
    requires x < Pow2(8 * len)
    ensures Number(Digits(x, len)) == x
  {
    if len > 0 {
      Pow2Bytes(len);
      DigitsNumber(x / 256, len - 1);
      var s := Digits(x, len);
      assert s[..|s| - 1] == Digits(x / 256, len - 1);
    }
  }

  lemma Pow2Bytes(len: nat)
    requires len > 0
    ensures Pow2(8 * len) == 256 * Pow2(8 * (len - 1))
  {
    var k := 8 * len;
    assert Pow2(k) == 2 * Pow2(k - 1);
    assert Pow2(k - 1) == 2 * Pow2(k - 2);
    assert Pow2(k - 2) == 2 * Pow2(k - 3);
    assert Pow2(k - 3) == 2 * Pow2(k - 4);
    assert Pow2(k - 4) == 2 * Pow2(k - 5);
    assert Pow2(k - 5) == 2 * Pow2(k - 6);
    assert Pow2(k - 6) == 2 * Pow2(k - 7);
    assert Pow2(k - 7) == 2 * Pow2(k - 8);
  }

  lemma {:induction false} ZerosNumber(n: nat)
    ensures Number(Zeros(n)) == 0
  {
    if n > 0 {
      assert Zeros(n)[..n - 1] == Zeros(n - 1);
      ZerosNumber(n - 1);
    }
  }

  /** The length field is wide enough for every chunk that fits a bucket, and no wider than it must be. */
  lemma LengthFits(f: Format, len: nat)
    requires f.Valid()
    requires len + f.Header() + 2 * f.keyLen <= f.z
    ensures len < Pow2(8 * f.lenLen)
    ensures f.lenLen > 0 && Pow2(8 * (f.lenLen - 1)) <= f.z - 2 * f.keyLen - 2
  {
    hide Pow2;
    var x: nat := f.z - 2 * f.keyLen - 2;
    assert BitLength(x) <= 8 * f.lenLen;
    Pow2Monotone(BitLength(x), 8 * f.lenLen);
    assert x > 0;
    Pow2Monotone(8 * (f.lenLen - 1), BitLength(x) - 1);
  }

  // ---------------------------------------------------------------- layout

  /** Byte i of a number, the most significant byte first. */
  lemma {:induction false} DigitsAt(x: nat, len: nat, i: nat)
    requires i < len
    ensures Digits(x, len)[i] == Shr(x, 8 * (len - 1 - i)) % 256
  {
    if i < len - 1 {
      DigitsAt(x / 256, len - 1, i);
      ShrByte(x);
      ShrShr(x, 8, 8 * (len - 2 - i));
    }
  }

  lemma ShrByte(x: nat)
    ensures Shr(x, 8) == x / 256
  {
    assert Shr(x, 8) == Shr(x, 7) / 2;
    assert Shr(x, 6) == Shr(x, 5) / 2;
    assert Shr(x, 4) == Shr(x, 3) / 2;
    assert Shr(x, 2) == Shr(x, 1) / 2;
  }

  /** A chunk is its ident, the length of its data and the data. */
  lemma ChunkLayout(f: Format, c: Chunk)
    ensures |f.EncodeOne(c)| == f.idLen + f.lenLen + |c.data| && f.EncodeOne(c)[f.idLen + f.lenLen..] == c.data
    ensures forall i :: 0 <= i < f.idLen ==> f.EncodeOne(c)[i] == Shr(c.id, 8 * (f.idLen - 1 - i)) % 256
    ensures forall i :: f.idLen <= i < f.idLen + f.lenLen ==>
              f.EncodeOne(c)[i] == Shr(|c.data|, 8 * (f.idLen + f.lenLen - 1 - i)) % 256
  {
    forall i | 0 <= i < f.idLen
      ensures f.EncodeOne(c)[i] == Shr(c.id, 8 * (f.idLen - 1 - i)) % 256
    {
      DigitsAt(c.id, f.idLen, i);
    }
    forall i | f.idLen <= i < f.idLen + f.lenLen
      ensures f.EncodeOne(c)[i] == Shr(|c.data|, 8 * (f.idLen + f.lenLen - 1 - i)) % 256
    {
      DigitsAt(|c.data|, f.lenLen, i - f.idLen);
    }
  }

  /** A bucket is the keys of its children, its chunks one after the other, and zeros. */
  lemma ImageLayout(f: Format, b: Bucket)
    requires f.IsBucket(b)
    ensures var image, end := f.Image(b), 2 * f.keyLen + |f.Encode(b.chunks)|;
            && |image| == f.z >= end
            && image[..f.keyLen] == b.key0 && image[f.keyLen..2 * f.keyLen] == b.key1
            && image[2 * f.keyLen..end] == f.Encode(b.chunks)
            && forall i :: end <= i < f.z ==> image[i] == 0
  {
  }

  // ---------------------------------------------------------------- round trip

  /** Encoding from the front instead of from the back. */
  lemma {:induction false} EncodeFront(f: Format, chunks: seq<Chunk>)
    requires chunks != []
    ensures f.Encode(chunks) == f.EncodeOne(chunks[0]) + f.Encode(chunks[1..])
  {
    var n := |chunks|;
    if n == 1 {
      assert f.Encode(chunks[..0]) == [] && f.Encode(chunks[1..]) == [];
    } else {
      EncodeFront(f, chunks[..n - 1]);
      assert chunks[..n - 1][1..] == chunks[1..][..n - 2];
      assert chunks[1..][n - 2] == chunks[n - 1];
    }
  }

  /** Reading one encoded chunk. */
  lemma ParseFront(f: Format, c: Chunk, rest: Bytes)
    requires f.IsChunk(c)
    ensures f.Parse(f.EncodeOne(c) + rest) == [c] + f.Parse(rest)
  {
    var raw := f.EncodeOne(c) + rest;
    var h := f.Header();
    assert raw[..f.idLen] == Digits(c.id, f.idLen);
    assert raw[f.idLen..h] == Digits(|c.data|, f.lenLen);
    assert raw[h..h + |c.data|] == c.data;
    assert raw[h + |c.data|..] == rest;
    DigitsNumber(c.id, f.idLen);
    DigitsNumber(|c.data|, f.lenLen);
    ZerosNumber(f.idLen);
  }

  lemma {:induction false} ParseEncode(f: Format, chunks: seq<Chunk>, pad: nat)
    requires forall c <- chunks :: f.IsChunk(c)
    ensures f.Parse(f.Encode(chunks) + Zeros(pad)) == chunks
    decreases |chunks|
  {
    if chunks == [] {
      assert f.Encode(chunks) + Zeros(pad) == Zeros(pad);
      if f.idLen <= pad {
        assert Zeros(pad)[..f.idLen] == Zeros(f.idLen);
      }
    } else {
      EncodeFront(f, chunks);
      var rest := f.Encode(chunks[1..]) + Zeros(pad);
      assert f.Encode(chunks) + Zeros(pad) == f.EncodeOne(chunks[0]) + rest;
      ParseFront(f, chunks[0], rest);
      ParseEncode(f, chunks[1..], pad);
      assert [chunks[0]] + chunks[1..] == chunks;
    }
  }

  /** A stored bucket has exactly the bucket size, and reading it gives back the keys and chunks. */
  lemma DecodeImage(f: Format, b: Bucket)
    requires f.IsBucket(b)
    ensures |f.Image(b)| == f.z
    ensures f.Decode(f.Image(b)) == b
  {
    var image := f.Image(b);
    var pad := f.z - 2 * f.keyLen - |f.Encode(b.chunks)|;
    assert image[..f.keyLen] == b.key0;
    assert image[f.keyLen..2 * f.keyLen] == b.key1;
    assert image[2 * f.keyLen..] == f.Encode(b.chunks) + Zeros(pad);
    ParseEncode(f, b.chunks, pad);
  }

  /** So two buckets that are stored alike are the same. */
  lemma ImageInjective(f: Format, b: Bucket, b': Bucket)
    requires f.IsBucket(b) && f.IsBucket(b') && f.Image(b) == f.Image(b')
    ensures b == b'
  {
    DecodeImage(f, b);
    DecodeImage(f, b');
  }
}
