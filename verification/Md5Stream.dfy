/** Progressive MD5 (md5_init, md5_process, md5_finish) against the padded one-shot
    definition of sections 3.1 to 3.4 of RFC 1321, for any 64-byte compression. */
module Md5Streams {
  import opened Bytes

  type Word = x: int | 0 <= x < TWO32

  /** The four accumulators. */
  datatype Chain = Chain(a: Word, b: Word, c: Word, d: Word)

  type Compression = (Chain, seq<Byte>) -> Chain

  const IV: Chain := Chain(0x67452301, 0xefcdab89, 0x98badcfe, 0x10325476)

  // ------------------------------------------------------------ the definition

  /** Section 3.4: the compression applied to each whole block in turn. */
  function Fold(f: Compression, chain: Chain, data: seq<Byte>): Chain
    decreases |data|
  {
    if |data| < 64 then chain else Fold(f, f(chain, data[..64]), data[64..])
  }

  /** Four bytes as a number, the low order byte first. */
  function Value32(s: seq<Byte>): nat
    requires |s| == 4
  {
    s[0] as nat + 256 * (s[1] as nat + 256 * (s[2] as nat + 256 * s[3] as nat))
  }

  function LittleEndian32(w: Word): (s: seq<Byte>)
    ensures |s| == 4
    ensures Value32(s) == w
  {
    ThreeShifts(w);
    [(w % 256) as Byte, (w / 256 % 256) as Byte, (w / 65536 % 256) as Byte, (w / 16777216) as Byte]
  }

  lemma ThreeShifts(w: Word)
    ensures w / 65536 == w / 256 / 256 && w / 16777216 == w / 65536 / 256 && w / 16777216 < 256
    ensures w == w % 256 + 256 * (w / 256 % 256 + 256 * (w / 65536 % 256 + 256 * (w / 16777216)))
  {
  }

  function LittleEndian64(n: nat): (s: seq<Byte>)
    requires n < TWO64
    ensures |s| == 8
  {
    LittleEndian32(n % TWO32) + LittleEndian32(n / TWO32)
  }

  function Zeros(n: nat): (s: seq<Byte>)
    ensures |s| == n
  {
    seq(n, _ => 0)
  }

  /** What sections 3.1 and 3.2 put behind a message of n bytes: a 0x80 byte, the fewest zero
      bytes that leave 56 modulo 64, and the length in bits modulo 2^64. */
  function Trailer(n: nat): seq<Byte> {
    [0x80] + Zeros((55 - n) % 64) + LittleEndian64(8 * n % TWO64)
  }

  function Padded(msg: seq<Byte>): (p: seq<Byte>)
    ensures |p| % 64 == 0
  {
    PaddedLength(|msg|);
    msg + Trailer(|msg|)
  }

  lemma PaddedLength(n: nat)
    ensures (n + 1 + (55 - n) % 64 + 8) % 64 == 0
  {
  }

  function Signature(c: Chain): (s: seq<Byte>) {
    LittleEndian32(c.a) + LittleEndian32(c.b) + LittleEndian32(c.c) + LittleEndian32(c.d)
  }

  function Digest(f: Compression, msg: seq<Byte>): seq<Byte> {
    Signature(Fold(f, IV, Padded(msg)))
  }

  /** The bytes of the 64-bit length, low order first. */
  lemma LengthValue(n: nat)
    requires n < TWO64
    ensures Value32(LittleEndian64(n)[..4]) + TWO32 * Value32(LittleEndian64(n)[4..]) == n
  {
    var low, high := LittleEndian32(n % TWO32), LittleEndian32(n / TWO32);
    assert LittleEndian64(n)[..4] == low && LittleEndian64(n)[4..] == high;
    hide LittleEndian32, Value32;
  }

  /** The digest of the initial values is their byte string in section 3.3. */
  lemma InitialSignature()
    ensures Signature(IV) == [0x01, 0x23, 0x45, 0x67, 0x89, 0xab, 0xcd, 0xef,
                              0xfe, 0xdc, 0xba, 0x98, 0x76, 0x54, 0x32, 0x10]
  {
    BytesOf(0x67452301, 0x01, 0x23, 0x45, 0x67);
    BytesOf(0xefcdab89, 0x89, 0xab, 0xcd, 0xef);
    BytesOf(0x98badcfe, 0xfe, 0xdc, 0xba, 0x98);
    BytesOf(0x10325476, 0x76, 0x54, 0x32, 0x10);
    hide LittleEndian32;
  }

  /** No other four bytes have the word's value. */
  lemma BytesOf(w: Word, a: Byte, b: Byte, c: Byte, d: Byte)
    requires a as nat + 256 * (b as nat + 256 * (c as nat + 256 * d as nat)) == w
    ensures LittleEndian32(w) == [a, b, c, d]
  {
    hide LittleEndian32;
    var s := LittleEndian32(w);
    OneByte(s[0], s[1] as nat + 256 * (s[2] as nat + 256 * s[3] as nat), a, b as nat + 256 * (c as nat + 256 * d as nat));
    OneByte(s[1], s[2] as nat + 256 * s[3] as nat, b, c as nat + 256 * d as nat);
    OneByte(s[2], s[3] as nat, c, d as nat);
  }

  lemma OneByte(a: Byte, x: nat, b: Byte, y: nat)
    requires a as nat + 256 * x == b as nat + 256 * y
    ensures a == b && x == y
  {
  }

  /** The accumulators, from the bytes of a signature. */
  lemma SignatureValue(c: Chain)
    ensures
      var s := Signature(c);
      && |s| == 16 && s[0..4] == LittleEndian32(c.a) && s[4..8] == LittleEndian32(c.b)
      && s[8..12] == LittleEndian32(c.c) && s[12..16] == LittleEndian32(c.d)
  {
    hide LittleEndian32;
  }

  /** The padded message is the message, one bit, zeros up to the next 56 modulo 64, and eight
      bytes of length. */
  lemma PaddedShape(msg: seq<Byte>)
    ensures
      var p := Padded(msg);
      var n := |msg|;
      && n + 9 <= |p| < n + 73 && p[..n] == msg && p[n] == 0x80
      && (forall k :: n < k < |p| - 8 ==> p[k] == 0)
      && p[|p| - 8..] == LittleEndian64(8 * n % TWO64)
  {
    hide LittleEndian64;
    var n := |msg|;
    var zeros := Zeros((55 - n) % 64);
    assert Padded(msg) == msg + ([0x80] + zeros + LittleEndian64(8 * n % TWO64));
  }

  /** The blocks go into the compression one after the other, the latest last. */
  lemma FoldNext(f: Compression, chain: Chain, data: seq<Byte>, block: seq<Byte>)
    requires |data| % 64 == 0 && |block| == 64
    ensures Fold(f, chain, []) == chain
    ensures Fold(f, chain, data + block) == f(Fold(f, chain, data), block)
  {
    FoldAppend(f, chain, data, block);
    assert block[..64] == block && block[64..] == [];
  }

  lemma {:induction false} FoldAppend(f: Compression, chain: Chain, s: seq<Byte>, t: seq<Byte>)
    requires |s| % 64 == 0
    ensures Fold(f, chain, s + t) == Fold(f, Fold(f, chain, s), t)
    decreases |s|
  {
    if s == [] {
      assert s + t == t;
    } else {
      assert (s + t)[..64] == s[..64] && (s + t)[64..] == s[64..] + t;
      FoldAppend(f, f(chain, s[..64]), s[64..], t);
    }
  }

  // ------------------------------------------------------------ the byte counter

  /** The two-word counter as one number. */
  function Count(low: Word, high: Word): (n: nat)
    ensures n < TWO64
  {
    low + TWO32 * high
  }

  /** The two-word addition of process_block and md5_finish, carry included. */
  method AddBytes(low: Word, high: Word, n: nat) returns (low': Word, high': Word)
    requires n < TWO32
    ensures Count(low', high') == (Count(low, high) + n) % TWO64
  {
    if low > TWO32 - 1 - n {
      CarryOut(low, high, n);
      high' := (high + 1) % TWO32;
      low' := (low - (TWO32 - n)) % TWO32;
    } else {
      SameRemainder(Count(low, high) + n, TWO64, 0, Count(low + n, high));
      high' := high;
      low' := low + n;
    }
  }

  lemma CarryOut(low: Word, high: Word, n: nat)
    requires n < TWO32 <= low + n
    ensures (low - (TWO32 - n)) % TWO32 == low + n - TWO32
    ensures var high' := (high + 1) % TWO32;
            (Count(low, high) + n) % TWO64 == Count(low + n - TWO32, high')
  {
    SameRemainder(low - (TWO32 - n), TWO32, 0, low + n - TWO32);
    if high + 1 < TWO32 {
      SameRemainder(high + 1, TWO32, 0, high + 1);
      SameRemainder(Count(low, high) + n, TWO64, 0, Count(low + n - TWO32, high + 1));
    } else {
      SameRemainder(high + 1, TWO32, 1, 0);
      SameRemainder(Count(low, high) + n, TWO64, 1, low + n - TWO32);
    }
  }

  lemma Halves(n: nat, lower: Word, upper: Word)
    requires n == lower + TWO32 * upper
    ensures n % TWO32 == lower && n / TWO32 == upper
  {
  }

  lemma HighBits(high: Word)
    ensures high * 8 % TWO32 == high % 0x2000_0000 * 8
    ensures high * 8 == high % 0x2000_0000 * 8 + TWO32 * (high / 0x2000_0000)
  {
  }

  lemma LowBits(low: Word)
    ensures 8 * low == low % 0x2000_0000 * 8 + TWO32 * (low / 0x2000_0000)
    ensures low / 0x2000_0000 < 8
  {
  }

  lemma BitCount(low: Word, high: Word)
    ensures var n := low % 0x2000_0000 * 8 + TWO32 * (high % 0x2000_0000 * 8 + low / 0x2000_0000);
            n < TWO64 && 8 * Count(low, high) == n + TWO64 * (high / 0x2000_0000)
  {
    HighBits(high);
    LowBits(low);
  }

  /** The two length words that md5_finish shifts out of a byte count are the halves of the
      64-bit number of bits. */
  lemma LengthWords(low: Word, high: Word)
    ensures var bits := 8 * Count(low, high) % TWO64;
            low % 0x2000_0000 * 8 == bits % TWO32
            && high * 8 % TWO32 + low / 0x2000_0000 == bits / TWO32 < TWO32
  {
    var lower, upper := low % 0x2000_0000 * 8, high % 0x2000_0000 * 8 + low / 0x2000_0000;
    HighBits(high);
    LowBits(low);
    BitCount(low, high);
    SameRemainder(8 * Count(low, high), TWO64, high / 0x2000_0000, lower + TWO32 * upper);
    Halves(lower + TWO32 * upper, lower, upper);
  }

  lemma CountStep(total: nat, more: nat)
    requires total % 64 == 0 && more % 64 == 0
    ensures (total + more) % 64 == 0
    ensures (total % TWO64 + more) % TWO64 == (total + more) % TWO64
  {
  }

  lemma FoldStep(f: Compression, chain: Chain, data: seq<Byte>, at: nat)
    requires at + 64 <= |data|
    ensures Fold(f, chain, data[at..]) == Fold(f, f(chain, data[at..at + 64]), data[at + 64..])
  {
    assert data[at..][..64] == data[at..at + 64] && data[at..][64..] == data[at + 64..];
  }

  // ------------------------------------------------------------ the stream

  /** The round loop of process_block. */
  method CompressAll(compress: Compression, chain: Chain, data: seq<Byte>) returns (abcd: Chain)
    requires |data| % 64 == 0
    ensures abcd == Fold(compress, chain, data)
  {
    abcd := chain;
    var at := 0;
    while at < |data|
      invariant 0 <= at <= |data| && at % 64 == 0
      invariant Fold(compress, chain, data) == Fold(compress, abcd, data[at..])
    {
      FoldStep(compress, abcd, data, at);
      abcd := compress(abcd, data[at..at + 64]);
      at := at + 64;
    }
  }

  /** The largest multiple of the block size. */
  lemma WholeBlocks(n: nat)
    ensures var w := n / 64 * 64; w <= n && w % 64 == 0 && n - w == n % 64
  {
  }

  class Md5 {
    const compress: Compression
    var chain: Chain
    var low: Word
    var high: Word
    var bufLen: nat
    const buffer: array<Byte>
    /** The bytes already compressed. */
    ghost var processed: seq<Byte>

    /** The accumulators and the counter stand for the bytes compressed so far. */
    ghost predicate Compressed()
      reads this
    {
      && |processed| % 64 == 0
      && chain == Fold(compress, IV, processed)
      && Count(low, high) == |processed| % TWO64
    }

    ghost predicate Valid()
      reads this, buffer
    {
      buffer.Length == 128 && bufLen <= 64 && Compressed()
    }

    /** All bytes handed over so far: the compressed ones, then the buffered tail. */
    ghost function Message(): seq<Byte>
      requires buffer.Length == 128 && bufLen <= 64
      reads this, buffer
    {
      processed + buffer[..bufLen]
    }

    /** md5_init. */
    constructor (compress: Compression)
      ensures Valid() && Message() == [] && this.compress == compress && fresh(buffer)
    {
      this.compress := compress;
      chain, low, high, bufLen := IV, 0, 0, 0;
      buffer := new Byte[128];
      processed := [];
    }

    /** process_block: counts the bytes and compresses the blocks, one after another. */
    method ProcessBlock(data: seq<Byte>)
      requires |data| % 64 == 0 && |data| < TWO32
      modifies this`chain, this`low, this`high
      ensures chain == Fold(compress, old(chain), data)
      ensures Count(low, high) == (old(Count(low, high)) + |data|) % TWO64
    {
      low, high := AddBytes(low, high, |data|);
      chain := CompressAll(compress, chain, data);
    }

    /** process_block on the next bytes of the message. */
    method Absorb(data: seq<Byte>)
      requires |data| % 64 == 0 && |data| < TWO32 && Compressed()
      modifies this`chain, this`low, this`high, this`processed
      ensures processed == old(processed) + data && Compressed()
    {
      CountStep(|processed|, |data|);
      FoldAppend(compress, IV, processed, data);
      ProcessBlock(data);
      processed := processed + data;
    }

    /** md5_process.  The unsigned sum that bounds the first copy must not wrap. */
    method Process(chunk: seq<Byte>)
      requires Valid() && bufLen + |chunk| < TWO32
      modifies this, buffer
      ensures Valid() && Message() == old(Message()) + chunk
    {
      var rest := FillBuffer(chunk);
      rest := TakeBlocks(rest);
      KeepTail(rest);
    }

    /** Bytes already buffered are topped up first, and flushed only when more than one
        block is there. */
    method FillBuffer(chunk: seq<Byte>) returns (rest: seq<Byte>)
      requires Valid() && bufLen + |chunk| < TWO32
      modifies this, buffer
      ensures Valid() && Message() + rest == old(Message()) + chunk
      ensures (rest == [] || bufLen == 0) && |rest| < TWO32
    {
      rest := chunk;
      if bufLen > 0 {
        var inBlock := bufLen;
        var add := if (inBlock + |chunk|) % TWO32 > buffer.Length then buffer.Length - inBlock else |chunk|;
        ghost var was := Message();
        CopyBytes(buffer, inBlock, chunk[..add]);
        bufLen := bufLen + add;
        inBlock := inBlock + add;
        assert processed + buffer[..inBlock] == was + chunk[..add];
        if inBlock > 64 {
          Flush(inBlock);
        }
        assert was + chunk == (was + chunk[..add]) + chunk[add..];
        rest := chunk[add..];
      }
    }

    /** Compresses the whole blocks of the buffer and moves what is left to its front. */
    method Flush(inBlock: nat)
      requires buffer.Length == 128 && 64 < inBlock <= 128 && bufLen == inBlock
      requires Compressed()
      modifies this, buffer
      ensures Valid() && Message() == old(processed) + old(buffer[..inBlock])
      ensures bufLen < 64 && (inBlock == 128 ==> bufLen == 0)
    {
      var whole := inBlock / 64 * 64;
      WholeBlocks(inBlock);
      var head, tail := buffer[..whole], buffer[whole..inBlock];
      assert buffer[..inBlock] == head + tail;
      Reassociate(processed, head, tail);
      Absorb(head);
      CopyBytes(buffer, 0, tail);
      bufLen := inBlock % 64;
      assert buffer[..bufLen] == tail;
    }

    /** Whole blocks of the caller's bytes, when there are more than one block of them. */
    method TakeBlocks(chunk: seq<Byte>) returns (rest: seq<Byte>)
      requires Valid() && (chunk == [] || bufLen == 0) && |chunk| < TWO32
      modifies this
      ensures Valid() && Message() + rest == old(Message()) + chunk
      ensures (rest == [] || bufLen == 0) && |rest| <= 64
    {
      rest := chunk;
      if |chunk| > 64 {
        var whole := |chunk| / 64 * 64;
        WholeBlocks(|chunk|);
        rest := chunk[whole..];
        assert chunk == chunk[..whole] + rest;
        Reassociate(processed, chunk[..whole], rest);
        Absorb(chunk[..whole]);
        assert Message() == processed;
      }
    }

    method KeepTail(rest: seq<Byte>)
      requires Valid() && (rest == [] || bufLen == 0) && |rest| <= 64
      modifies this, buffer
      ensures Valid() && Message() == old(Message()) + rest
    {
      if |rest| > 0 {
        CopyBytes(buffer, 0, rest);
        bufLen := |rest|;
      }
    }

    /** md5_finish: the signature of everything handed over; the object is used up. */
    method Finish() returns (signature: seq<Byte>)
      requires Valid()
      modifies this, buffer
      ensures signature == Digest(compress, old(Message()))
    {
      ghost var done, tail, msg := processed, buffer[..bufLen], Message();
      FinishLength(|done|, bufLen);
      low, high := AddBytes(low, high, bufLen);
      var bytes := PadBuffer();
      assert buffer[..bytes] == tail + Trailer(|msg|);
      FoldAppend(compress, IV, done, buffer[..bytes]);
      PaddedParts(done, tail);
      ProcessBlock(buffer[..bytes]);
      signature := Signature(chain);
    }

    /** The padding byte, the zeros and the two length words behind the buffered tail. */
    method PadBuffer() returns (bytes: nat)
      requires buffer.Length == 128 && bufLen <= 64
      modifies buffer
      ensures bytes <= 128 && bytes % 64 == 0
      ensures buffer[..bytes] == old(buffer[..bufLen])
        + ([0x80] + Zeros((55 - bufLen) % 64) + LittleEndian64(8 * Count(low, high) % TWO64))
    {
      var pad := 64 - 8 - bufLen as int;
      if pad <= 0 {
        pad := pad + 64;
      }
      PadCount(bufLen, pad);
      var words := LengthBytes(low, high);
      hide LittleEndian64, Count;
      bytes := bufLen + pad;
      assert |[0x80] + Zeros(pad - 1) + words| == pad + 8;
      CopyBytes(buffer, bufLen, [0x80] + Zeros(pad - 1) + words);
      bytes := bytes + 8;
    }

    /** The two length words, in bytes. */
    method LengthBytes(low: Word, high: Word) returns (words: seq<Byte>)
      ensures |words| == 8 && words == LittleEndian64(8 * Count(low, high) % TWO64)
    {
      LengthWords(low, high);
      words := LittleEndian32(low % 0x2000_0000 * 8) + LittleEndian32(high * 8 % TWO32 + low / 0x2000_0000);
    }
  }

  lemma PadCount(bufLen: nat, pad: nat)
    requires bufLen <= 64 && pad == if bufLen < 56 then 56 - bufLen else 120 - bufLen
    ensures pad >= 1 && pad - 1 == (55 - bufLen) % 64 && (bufLen + pad + 8) % 64 == 0
  {
  }

  lemma FinishLength(done: nat, tail: nat)
    requires done % 64 == 0
    ensures (55 - tail) % 64 == (55 - (done + tail)) % 64
    ensures 8 * ((done % TWO64 + tail) % TWO64) % TWO64 == 8 * (done + tail) % TWO64
  {
    AddMultiples(55 - (done + tail), done / 64, 64);
    CountRemainder(done, tail);
    BitRemainder(done + tail);
  }

  lemma CountRemainder(done: nat, tail: nat)
    ensures (done % TWO64 + tail) % TWO64 == (done + tail) % TWO64
  {
    AddMultiples(done % TWO64 + tail, done / TWO64, TWO64);
  }

  lemma BitRemainder(n: nat)
    ensures 8 * (n % TWO64) % TWO64 == 8 * n % TWO64
  {
    AddMultiples(8 * (n % TWO64), 8 * (n / TWO64), TWO64);
  }

  lemma PaddedParts(done: seq<Byte>, tail: seq<Byte>)
    ensures Padded(done + tail) == done + (tail + Trailer(|done + tail|))
  {
  }

  /** memcpy into a buffer. */
  method CopyBytes(dst: array<Byte>, at: nat, src: seq<Byte>)
    requires at + |src| <= dst.Length
    modifies dst
    ensures dst[..at + |src|] == old(dst[..at]) + src && dst[at + |src|..] == old(dst[at + |src|..])
  {
    forall i | 0 <= i < |src| {
      dst[at + i] := src[i];
    }
  }

  /** md5_init, any number of md5_process calls, md5_finish: however the message was cut, the
      signature is that of the padded whole. */
  method SignInPieces(compress: Compression, chunks: seq<seq<Byte>>) returns (signature: seq<Byte>)
    requires forall k :: 0 <= k < |chunks| ==> |chunks[k]| < TWO32 - 64
    ensures signature == Digest(compress, Flatten(chunks))
  {
    var md5 := new Md5(compress);
    for k := 0 to |chunks|
      invariant md5.Valid() && md5.compress == compress && fresh(md5) && fresh(md5.buffer)
      invariant md5.Message() == Flatten(chunks[..k])
    {
      FlattenSnoc(chunks[..k], chunks[k]);
      assert chunks[..k + 1] == chunks[..k] + [chunks[k]];
      md5.Process(chunks[k]);
    }
    assert chunks[..|chunks|] == chunks;
    signature := md5.Finish();
  }

  // ------------------------------------------------------------ hexadecimal signatures

  const HEX_STRING := "0123456789abcdef"

  /** The digits are 0 to 9 and a to f. */
  lemma DigitMeaning(d: nat)
    requires d < 16
    ensures HEX_STRING[d] as int == if d < 10 then '0' as int + d else 'a' as int + (d - 10)
  {
    assert d == 0 || d == 1 || d == 2 || d == 3 || d == 4 || d == 5 || d == 6 || d == 7
        || d == 8 || d == 9 || d == 10 || d == 11 || d == 12 || d == 13 || d == 14 || d == 15;
  }

  function HexDigits(b: Byte): (s: string)
    ensures |s| == 2
  {
    [HEX_STRING[b as int / 16], HEX_STRING[b as int % 16]]
  }

  ghost function Hex(signature: seq<Byte>): (s: string)
    ensures |s| == 2 * |signature|
  {
    if signature == [] then "" else Hex(signature[..|signature| - 1]) + HexDigits(signature[|signature| - 1])
  }

  /** md5_sig_to_string: whole bytes while they fit, then a terminator if there is room. */
  method SigToString(signature: seq<Byte>, str: array<char>)
    requires |signature| == 16
    modifies str
    ensures var n := Min(16, str.Length / 2);
            str[..2 * n] == Hex(signature[..n]) && (2 * n < str.Length ==> str[2 * n] == '\0')
  {
    var k, at := 0, 0;
    while k < 16 && at + 1 < str.Length
      invariant 0 <= k <= 16 && at == 2 * k <= str.Length
      invariant str[..at] == Hex(signature[..k])
    {
      PutDigits(str, at, signature[k]);
      HexNext(signature, k);
      k, at := k + 1, at + 2;
    }
    if at < str.Length {
      str[at] := '\0';
      assert str[..at] == Hex(signature[..k]);
    }
  }

  method PutDigits(str: array<char>, at: nat, b: Byte)
    requires at + 1 < str.Length
    modifies str
    ensures str[..at + 2] == old(str[..at]) + HexDigits(b)
  {
    str[at], str[at + 1] := HexDigits(b)[0], HexDigits(b)[1];
  }

  lemma HexNext(signature: seq<Byte>, k: nat)
    requires k < |signature|
    ensures Hex(signature[..k + 1]) == Hex(signature[..k]) + HexDigits(signature[k])
  {
    assert signature[..k + 1][..k] == signature[..k];
  }

  /** strchr on the digit string, as an offset. */
  method DigitValue(c: char) returns (v: nat)
    requires c in HEX_STRING
    ensures v < 16 && HEX_STRING[v] == c
  {
    v := 0;
    ghost var at: nat :| at < |HEX_STRING| && HEX_STRING[at] == c;
    while HEX_STRING[v] != c
      invariant v <= at
      decreases at - v
    {
      v := v + 1;
    }
  }

  /** md5_sig_from_string: inverts the 32 digits that a long enough string receives. */
  method SigFromString(str: string, ghost signature: seq<Byte>) returns (result: seq<Byte>)
    requires |str| >= 32 && |signature| == 16 && str[..32] == Hex(signature)
    ensures result == signature
  {
    result := [];
    for k := 0 to 16
      invariant result == signature[..k]
    {
      HexAt(signature, k);
      var b := ReadByte(str[..32][2 * k], str[..32][2 * k + 1], signature[k]);
      result := result + [b];
    }
  }

  /** Two digits read back. */
  method ReadByte(first: char, second: char, ghost written: Byte) returns (b: Byte)
    requires first == HEX_STRING[written as int / 16] && second == HEX_STRING[written as int % 16]
    ensures b == written
  {
    var upper := DigitValue(first);
    var lower := DigitValue(second);
    DigitsDiffer(upper, written as int / 16);
    DigitsDiffer(lower, written as int % 16);
    b := (upper * 16 + lower) as Byte;
  }

  lemma {:induction false} HexAt(signature: seq<Byte>, k: nat)
    requires k < |signature|
    ensures Hex(signature)[2 * k] == HEX_STRING[signature[k] as int / 16]
    ensures Hex(signature)[2 * k + 1] == HEX_STRING[signature[k] as int % 16]
  {
    var n := |signature| - 1;
    if k < n {
      HexAt(signature[..n], k);
    }
  }

  lemma DigitsDiffer(i: nat, j: nat)
    requires i < 16 && j < 16 && HEX_STRING[i] == HEX_STRING[j]
    ensures i == j
  {
  }
}
