/** The key-file AES-CBC cipher (ciphy/cipher.py). An encrypted file is the
    plaintext size as an 8-byte little-endian integer, the 16-byte IV, and
    the CBC encryption of the input read in chunks, each chunk padded with
    spaces to a whole number of blocks. Decryption reverses the chunks and
    truncates the output back to the stored size. */
module LegacyCipher {
  import opened Bytes
  import opened Paths
  import opened Files
  import opened OutputNames
  import Cbc

  const HeaderLength: nat := 8
  const IvLength: nat := 16
  /** Default `chunksize` of `encrypt_file` */
  const EncryptChunkSize: ReadSize := 64 * 1024
  /** Default `chunksize` of `decrypt_file` */
  const DecryptChunkSize: ReadSize := 24 * 1024
  /** b' ', the padding byte */
  const Space: byte := 0x20

  // ---------------------------------------------------------------------
  // Key

  /** One lower-case hexadecimal digit */
  predicate IsHexDigit(c: char) {
    '0' <= c <= '9' || 'a' <= c <= 'f'
  }

  function HexDigit(d: nat): (c: char)
    requires d < 16
    ensures IsHexDigit(c)
  {
    if d < 10 then ('0' as int + d) as char else ('a' as int + d - 10) as char
  }

  function HexValue(c: char): (d: nat)
    requires IsHexDigit(c)
    ensures d < 16 && HexDigit(d) == c
  {
    if '0' <= c <= '9' then c as int - '0' as int else c as int - 'a' as int + 10
  }

  lemma HexValueOfDigit(d: nat)
    requires d < 16
    ensures HexValue(HexDigit(d)) == d
  {
  }

  /** `secrets.token_hex(n)` for the n random bytes it draws: two lower-case
      hex digits per byte, high nibble first */
  function TokenHex(entropy: Bytes): (s: string)
    ensures |s| == 2 * |entropy|
    ensures forall i :: 0 <= i < |s| ==> IsHexDigit(s[i])
  {
    if |entropy| == 0 then ""
    else [HexDigit(entropy[0] as int / 16), HexDigit(entropy[0] as int % 16)] + TokenHex(entropy[1..])
  }

  /** The inverse of `TokenHex`: each pair of lower-case hex digits, high
      nibble first, gives one byte */
  function HexDecode(s: string): (r: Bytes)
    requires forall i :: 0 <= i < |s| ==> IsHexDigit(s[i])
  {
    if |s| < 2 then [] else [ByteOf(16 * HexValue(s[0]) + HexValue(s[1]))] + HexDecode(s[2..])
  }

  lemma ByteOfNibbles(b: byte)
    ensures ByteOf(16 * (b as int / 16) + b as int % 16) == b
  {
    var v := b as int;
    assert 16 * (v / 16) + v % 16 == v;
    ByteOfValue(b);
  }

  /** Decoding the token gives back the random bytes */
  lemma {:induction false} HexDecodeTokenHex(entropy: Bytes)
    ensures HexDecode(TokenHex(entropy)) == entropy
  {
    if |entropy| > 0 {
      var b, rest := entropy[0], entropy[1..];
      var hi, lo := HexDigit(b as int / 16), HexDigit(b as int % 16);
      var s := TokenHex(entropy);
      assert s == [hi, lo] + TokenHex(rest);
      assert s[0] == hi && s[1] == lo && s[2..] == TokenHex(rest);
      HexValueOfDigit(b as int / 16);
      HexValueOfDigit(b as int % 16);
      ByteOfNibbles(b);
      HexDecodeTokenHex(rest);
      assert HexValue(s[0]) == b as int / 16 && HexValue(s[1]) == b as int % 16;
      assert ByteOf(16 * HexValue(s[0]) + HexValue(s[1])) == b;
      assert HexDecode(s) == [b] + HexDecode(s[2..]);
      assert entropy == [b] + rest;
    }
  }

  /** The generated key string, `token_hex(32)`, is 64 ASCII hex digits that
      encode to 64 bytes and decode back to the 32 random bytes drawn */
  lemma GeneratedKeyString(entropy: Bytes)
    requires |entropy| == 32
    ensures |TokenHex(entropy)| == 64 && IsAscii(TokenHex(entropy))
    ensures |Utf8Encode(TokenHex(entropy))| == 64
    ensures HexDecode(TokenHex(entropy)) == entropy
  {
    AsciiEncoding(TokenHex(entropy));
    HexDecodeTokenHex(entropy);
  }

  /** A SHA-256 digest */
  type Digest = s: Bytes | |s| == 32 witness seq(32, _ => 0)

  /** `AESCipher(key)`: `self.key` is the SHA-256 digest of the encoded key
      string, which is `token_hex(32)` of 32 random bytes when none is given */
  function StoredKey(keyString: Option<string>, entropy: Bytes, sha256: Bytes -> Digest): Digest
    requires |entropy| == 32
  {
    var text := match keyString
      case Some(k) => k
      case None => TokenHex(entropy);
    sha256(Utf8Encode(text))
  }

  // ---------------------------------------------------------------------
  // Chunks and padding

  function Spaces(k: nat): (r: Bytes)
    ensures |r| == k && forall i :: 0 <= i < k ==> r[i] == Space
  {
    seq(k, _ => Space)
  }

  /** `chunk += b' ' * (16 - len(chunk) % 16)` when the chunk is not a whole
      number of blocks: the shortest extension by spaces that is */
  function Pad(chunk: Bytes): (r: Bytes)
    ensures Cbc.Aligned(r)
    ensures |chunk| <= |r| < |chunk| + 16
    ensures r[..|chunk|] == chunk
    ensures forall i :: |chunk| <= i < |r| ==> r[i] == Space
  {
    var r := if |chunk| % 16 != 0 then chunk + Spaces(16 - |chunk| % 16) else chunk;
    Cbc.WholeBlocksMod(|r|);
    r
  }

  /** Whole blocks are left as they are */
  lemma PadAligned(s: Bytes)
    requires Cbc.Aligned(s)
    ensures Pad(s) == s
  {
    Cbc.WholeBlocksMod(|s|);
  }

  /** Padding after a whole-block prefix pads only what follows it */
  lemma PadAfterAligned(a: Bytes, b: Bytes)
    requires Cbc.Aligned(a)
    ensures a + Pad(b) == Pad(a + b)
  {
    Cbc.WholeBlocksMod(|a|);
    assert |a + b| % 16 == |b| % 16;
    if |b| % 16 != 0 {
      assert (a + b) + Spaces(16 - |b| % 16) == a + (b + Spaces(16 - |b| % 16));
    }
  }

  /** The bytes handed to the encryptor for `data` read from `pos` on:
      each chunk read, padded */
  function PaddedFrom(data: Bytes, pos: nat, chunksize: ReadSize): Bytes
    requires pos <= |data|
    decreases |data| - pos
  {
    var n := ReadLength(|data| - pos, chunksize);
    if n == 0 then [] else Pad(data[pos..pos + n]) + PaddedFrom(data, pos + n, chunksize)
  }

  /** The bytes handed to the encryptor for the whole input */
  function PaddedStream(data: Bytes, chunksize: ReadSize): Bytes {
    PaddedFrom(data, 0, chunksize)
  }

  lemma {:induction false} PaddedFromShape(data: Bytes, pos: nat, chunksize: ReadSize)
    requires pos <= |data|
    ensures Cbc.Aligned(PaddedFrom(data, pos, chunksize))
    ensures chunksize != 0 ==> |data| - pos <= |PaddedFrom(data, pos, chunksize)|
    decreases |data| - pos
  {
    var n := ReadLength(|data| - pos, chunksize);
    if n > 0 {
      PaddedFromShape(data, pos + n, chunksize);
      Cbc.AlignedAppend(Pad(data[pos..pos + n]), PaddedFrom(data, pos + n, chunksize));
    }
  }

  /** The stream is whole blocks and, unless no chunk can be read
      (`chunksize` 0), no shorter than the data */
  lemma PaddedStreamShape(data: Bytes, chunksize: ReadSize)
    ensures Cbc.Aligned(PaddedStream(data, chunksize))
    ensures chunksize != 0 ==> |data| <= |PaddedStream(data, chunksize)|
  {
    PaddedFromShape(data, 0, chunksize);
  }

  /** Chunk sizes under which only the last chunk can be short: -1 (read
      everything) or a positive multiple of the block size */
  predicate ChunkSizeAligned(chunksize: ReadSize) {
    chunksize == -1 || (chunksize > 0 && chunksize % 16 == 0)
  }

  lemma DefaultChunkSizesAligned()
    ensures ChunkSizeAligned(EncryptChunkSize) && ChunkSizeAligned(DecryptChunkSize)
  {
  }

  lemma {:induction false} PaddedFromPadsOnce(data: Bytes, pos: nat, chunksize: ReadSize)
    requires ChunkSizeAligned(chunksize) && pos <= |data|
    ensures PaddedFrom(data, pos, chunksize) == Pad(data[pos..])
    decreases |data| - pos
  {
    var n := ReadLength(|data| - pos, chunksize);
    if n == 0 {
      assert data[pos..] == [];
      assert PaddedFrom(data, pos, chunksize) == Pad(data[pos..]);
    } else if pos + n == |data| {
      assert data[pos..pos + n] == data[pos..];
      assert PaddedFrom(data, pos, chunksize) == Pad(data[pos..]);
    } else {
      assert chunksize > 0 && n == chunksize;
      PaddedFromPadsOnce(data, pos + n, chunksize);
      PaddedFromFullChunk(data, pos, chunksize);
    }
  }

  /** A full chunk of whole blocks goes to the encryptor unpadded, so when
      the rest is padded once the whole is too */
  lemma PaddedFromFullChunk(data: Bytes, pos: nat, chunksize: ReadSize)
    requires chunksize > 0 && chunksize % 16 == 0 && pos + chunksize < |data|
    requires PaddedFrom(data, pos + chunksize, chunksize) == Pad(data[pos + chunksize..])
    ensures PaddedFrom(data, pos, chunksize) == Pad(data[pos..])
  {
    var head := data[pos..pos + chunksize];
    var rest := data[pos + chunksize..];
    Cbc.WholeBlocksMod(chunksize);
    PadAligned(head);
    PadAfterAligned(head, rest);
    DropSplit(data, pos, pos + chunksize);
    calc {
      PaddedFrom(data, pos, chunksize);
      head + PaddedFrom(data, pos + chunksize, chunksize);
      head + Pad(rest);
      Pad(head + rest);
      { assert head + rest == data[pos..]; }
      Pad(data[pos..]);
    }
  }

  /** With such a chunk size the stream is the data padded once at its end */
  lemma PaddedStreamPadsOnce(data: Bytes, chunksize: ReadSize)
    requires ChunkSizeAligned(chunksize)
    ensures PaddedStream(data, chunksize) == Pad(data)
  {
    PaddedFromPadsOnce(data, 0, chunksize);
    assert data[0..] == data;
  }

  /** How far the decryptor gets through `remaining` ciphertext bytes before
      the first chunk that is not whole blocks (ok is false) or the end */
  function AlignedRun(remaining: nat, chunksize: ReadSize): (r: (nat, bool))
    ensures r.0 <= remaining
    decreases remaining
  {
    var n := ReadLength(remaining, chunksize);
    if n == 0 then (0, true)
    else if !Cbc.WholeBlocks(n) then (0, false)
    else
      var rest := AlignedRun(remaining - n, chunksize);
      (n + rest.0, rest.1)
  }

  /** Whole-block ciphertext read with such a chunk size is decrypted to its end */
  lemma {:induction false} AlignedRunComplete(remaining: nat, chunksize: ReadSize)
    requires ChunkSizeAligned(chunksize) && Cbc.WholeBlocks(remaining)
    ensures AlignedRun(remaining, chunksize) == (remaining, true)
    decreases remaining
  {
    var n := ReadLength(remaining, chunksize);
    if n > 0 {
      Cbc.WholeBlocksMod(remaining);
      Cbc.WholeBlocksMod(n);
      Cbc.WholeBlocksMod(remaining - n);
      AlignedRunComplete(remaining - n, chunksize);
    }
  }

  // ---------------------------------------------------------------------
  // Encrypted file layout

  /** The file encryption writes: size header, IV, encrypted padded stream */
  function SealedFile(bc: Cbc.BlockCipher, key: Bytes, iv: Cbc.Block, data: Bytes, chunksize: ReadSize): Bytes
    requires |data| < U64Limit
  {
    PackU64(|data|) + iv + Cbc.Encrypt(bc, key, iv, PaddedStream(data, chunksize))
  }

  /** What the decryption loop writes for a file with a complete header:
      the decryption of the ciphertext up to the first misaligned chunk */
  function DecryptedBody(bc: Cbc.BlockCipher, key: Bytes, file: Bytes, chunksize: ReadSize): Bytes
    requires |file| >= HeaderLength + IvLength
  {
    DecryptRun(bc, key, file[8..24], file, 24, chunksize)
  }

  /** What the decryption loop writes for `data` read from `pos` on, starting
      from chaining value `chain`: the decryption of the aligned run */
  function DecryptRun(bc: Cbc.BlockCipher, key: Bytes, chain: Cbc.Block, data: Bytes, pos: nat, chunksize: ReadSize): Bytes
    requires pos <= |data|
  {
    Cbc.Decrypt(bc, key, chain, data[pos..pos + AlignedRun(|data| - pos, chunksize).0])
  }

  /** The header holds the exact size and the IV written, and a decryptor
      reading whole blocks recovers the padded stream that was encrypted,
      whatever chunk size encryption used */
  lemma SealedFileOpens(bc: Cbc.BlockCipher, key: Bytes, iv: Cbc.Block, data: Bytes, encryptChunk: ReadSize, decryptChunk: ReadSize)
    requires Cbc.Invertible(bc)
    requires |data| < U64Limit
    requires ChunkSizeAligned(decryptChunk)
    ensures var file := SealedFile(bc, key, iv, data, encryptChunk);
            && |file| >= HeaderLength + IvLength
            && UnpackU64(file[..8]) == |data|
            && file[8..24] == iv
            && AlignedRun(|file| - 24, decryptChunk) == (|file| - 24, true)
            && DecryptedBody(bc, key, file, decryptChunk) == PaddedStream(data, encryptChunk)
  {
    var file := SealedFile(bc, key, iv, data, encryptChunk);
    var stream := PaddedStream(data, encryptChunk);
    SealedFileLayout(bc, key, iv, data, encryptChunk);
    U64RoundTrip(|data|, file[..8]);
    AlignedRunComplete(|file| - 24, decryptChunk);
    Cbc.DecryptEncrypt(bc, key, iv, stream);
  }

  /** Where the three parts of a sealed file lie */
  lemma SealedFileLayout(bc: Cbc.BlockCipher, key: Bytes, iv: Cbc.Block, data: Bytes, chunksize: ReadSize)
    requires |data| < U64Limit
    ensures var file := SealedFile(bc, key, iv, data, chunksize);
            var stream := PaddedStream(data, chunksize);
            && |file| == 24 + |stream| && Cbc.Aligned(stream)
            && file[..8] == PackU64(|data|) && file[8..24] == iv
            && file[24..24 + |stream|] == Cbc.Encrypt(bc, key, iv, stream)
  {
    var file := SealedFile(bc, key, iv, data, chunksize);
    var stream := PaddedStream(data, chunksize);
    PaddedStreamShape(data, chunksize);
    Cbc.EncryptLength(bc, key, iv, stream);
    assert file[..8] == PackU64(|data|);
    assert file[8..24] == iv;
    assert file[24..24 + |stream|] == Cbc.Encrypt(bc, key, iv, stream);
  }

  /** With aligned chunk sizes on both sides, decryption truncated to the
      stored size gives back the input: the space padding is gone. */
  lemma RoundTrip(bc: Cbc.BlockCipher, key: Bytes, iv: Cbc.Block, data: Bytes, encryptChunk: ReadSize, decryptChunk: ReadSize)
    requires Cbc.Invertible(bc)
    requires |data| < U64Limit
    requires ChunkSizeAligned(encryptChunk) && ChunkSizeAligned(decryptChunk)
    ensures var file := SealedFile(bc, key, iv, data, encryptChunk);
            && |file| >= HeaderLength + IvLength
            && AlignedRun(|file| - 24, decryptChunk).1
            && Resize(DecryptedBody(bc, key, file, decryptChunk), UnpackU64(file[..8])) == data
  {
    SealedFileOpens(bc, key, iv, data, encryptChunk, decryptChunk);
    PaddedStreamPadsOnce(data, encryptChunk);
    assert Pad(data)[..|data|] == data;
  }

  /** "ab" read one byte at a time: each byte becomes a block of its own */
  lemma OneByteChunks()
    ensures PaddedStream([0x61, 0x62], 1) == Pad([0x61]) + Pad([0x62])
  {
    var data: Bytes := [0x61, 0x62];
    assert data[0..1] == [0x61] && data[1..2] == [0x62];
    assert PaddedFrom(data, 2, 1) == [];
    assert PaddedFrom(data, 1, 1) == Pad([0x62]);
  }

  /** Padding every chunk breaks the round trip when chunks are shorter than
      a block: "ab" encrypted one byte at a time decrypts to "a " */
  lemma SmallChunksBreakRoundTrip(bc: Cbc.BlockCipher, key: Bytes, iv: Cbc.Block)
    requires Cbc.Invertible(bc)
    ensures var file := SealedFile(bc, key, iv, [0x61, 0x62], 1);
            && |file| >= HeaderLength + IvLength
            && Resize(DecryptedBody(bc, key, file, DecryptChunkSize), UnpackU64(file[..8])) == [0x61, Space]
  {
    SealedFileOpens(bc, key, iv, [0x61, 0x62], 1, DecryptChunkSize);
    OneByteChunks();
    var first := Pad([0x61]);
    assert first[0] == 0x61 && first[1] == Space;
    var stream := PaddedStream([0x61, 0x62], 1);
    assert stream[0] == 0x61 && stream[1] == Space;
    assert Resize(stream, 2) == [0x61, Space];
  }

  // ---------------------------------------------------------------------
  // Chunk loops

  /** The encryption loop with `data` read up to `pos`: the output so far,
      followed by the encryption from the current chain of what is still to
      come, is the output's initial contents followed by the encryption of
      the whole stream */
  ghost predicate EncryptLoopState(bc: Cbc.BlockCipher, key: Bytes, iv: Cbc.Block, data: Bytes, chunksize: ReadSize,
                                   start: Bytes, pos: nat, written: Bytes, chain: Cbc.Block)
  {
    && pos <= |data|
    && written + Cbc.Encrypt(bc, key, chain, PaddedFrom(data, pos, chunksize))
       == start + Cbc.Encrypt(bc, key, iv, PaddedStream(data, chunksize))
  }

  /** One turn of the encryption loop keeps its state: the chunk read at
      `pos` is padded, encrypted from the current chain and written */
  lemma EncryptLoopStep(bc: Cbc.BlockCipher, key: Bytes, iv: Cbc.Block, data: Bytes, chunksize: ReadSize,
                        start: Bytes, pos: nat, written: Bytes, chain: Cbc.Block, next: nat)
    requires EncryptLoopState(bc, key, iv, data, chunksize, start, pos, written, chain)
    requires next == pos + ReadLength(|data| - pos, chunksize) && next > pos
    ensures var padded := Pad(data[pos..next]);
            EncryptLoopState(bc, key, iv, data, chunksize, start, next,
                             written + Cbc.Encrypt(bc, key, chain, padded), Cbc.EncryptChain(bc, key, chain, padded))
  {
    var padded := Pad(data[pos..next]);
    var rest := PaddedFrom(data, next, chunksize);
    assert PaddedFrom(data, pos, chunksize) == padded + rest;
    Cbc.EncryptAppend(bc, key, chain, padded, rest);
    var e1 := Cbc.Encrypt(bc, key, chain, padded);
    var e2 := Cbc.Encrypt(bc, key, Cbc.EncryptChain(bc, key, chain, padded), rest);
    assert (written + e1) + e2 == written + (e1 + e2);
  }

  /** The encryption loop ends, on an empty read, having written the
      encryption of the whole stream */
  lemma EncryptLoopEnd(bc: Cbc.BlockCipher, key: Bytes, iv: Cbc.Block, data: Bytes, chunksize: ReadSize,
                       start: Bytes, pos: nat, written: Bytes, chain: Cbc.Block)
    requires EncryptLoopState(bc, key, iv, data, chunksize, start, pos, written, chain)
    requires ReadLength(|data| - pos, chunksize) == 0
    ensures written == start + Cbc.Encrypt(bc, key, iv, PaddedStream(data, chunksize))
  {
    assert written + [] == written;
  }

  /** The `while True` loop of `encrypt_file`: read a chunk, stop on an
      empty one, pad it and write its encryption. */
  method EncryptChunks(infile: InputFile, outfile: OutputFile, mode: Cbc.CbcMode, chunksize: ReadSize)
    requires infile.Valid() && infile.pos == 0
    modifies infile, outfile, mode
    ensures outfile.contents
            == old(outfile.contents) + Cbc.Encrypt(mode.cipher, mode.key, old(mode.chain), PaddedStream(infile.data, chunksize))
  {
    ghost var data := infile.data;
    ghost var bc, key, iv := mode.cipher, mode.key, mode.chain;
    ghost var start := outfile.contents;
    while true
      invariant infile.Valid() && infile.data == data
      invariant EncryptLoopState(bc, key, iv, data, chunksize, start, infile.pos, outfile.contents, mode.chain)
      decreases |data| - infile.pos
    {
      ghost var pos, written, chain := infile.pos, outfile.contents, mode.chain;
      var chunk := infile.Read(chunksize);
      if |chunk| == 0 {
        EncryptLoopEnd(bc, key, iv, data, chunksize, start, pos, written, chain);
        break;
      }
      EncryptLoopStep(bc, key, iv, data, chunksize, start, pos, written, chain, infile.pos);
      var padded := Pad(chunk);
      var encrypted := mode.EncryptChunk(padded);
      outfile.Write(encrypted.value);
    }
  }

  /** The decryption loop with the input read up to `pos`, which the run
      from the starting position ends at `end` with verdict `verdict` and the
      whole output is to be `target`: the run from `pos` ends at `end` with
      the same verdict, and the output so far followed by the decryption of
      the rest of the run from the current chain is `target` */
  ghost predicate DecryptLoopState(bc: Cbc.BlockCipher, key: Bytes, data: Bytes, chunksize: ReadSize,
                                   end: nat, verdict: bool, target: Bytes,
                                   pos: nat, written: Bytes, chain: Cbc.Block)
  {
    && pos <= |data|
    && pos + AlignedRun(|data| - pos, chunksize).0 == end
    && AlignedRun(|data| - pos, chunksize).1 == verdict
    && written + Cbc.Decrypt(bc, key, chain, data[pos..end]) == target
  }

  lemma AlignedRunStep(remaining: nat, n: nat, chunksize: ReadSize)
    requires n == ReadLength(remaining, chunksize) && n > 0 && Cbc.WholeBlocks(n)
    ensures AlignedRun(remaining, chunksize)
            == (n + AlignedRun(remaining - n, chunksize).0, AlignedRun(remaining - n, chunksize).1)
  {
  }

  lemma SliceSplit(s: Bytes, i: nat, j: nat, k: nat)
    requires i <= j <= k <= |s|
    ensures s[i..k] == s[i..j] + s[j..k]
  {
  }

  lemma DropSplit(s: Bytes, i: nat, j: nat)
    requires i <= j <= |s|
    ensures s[i..] == s[i..j] + s[j..]
  {
  }

  lemma Associative(a: Bytes, b: Bytes, c: Bytes)
    ensures (a + b) + c == a + (b + c)
  {
  }

  /** One turn of the decryption loop keeps its state when the chunk read is
      whole blocks: its decryption is written and the chain moves to its last
      block */
  lemma DecryptLoopStep(bc: Cbc.BlockCipher, key: Bytes, data: Bytes, chunksize: ReadSize,
                        end: nat, verdict: bool, target: Bytes,
                        pos: nat, written: Bytes, chain: Cbc.Block, next: nat)
    requires DecryptLoopState(bc, key, data, chunksize, end, verdict, target, pos, written, chain)
    requires next == pos + ReadLength(|data| - pos, chunksize) && next > pos
    requires Cbc.Aligned(data[pos..next])
    ensures var chunk := data[pos..next];
            DecryptLoopState(bc, key, data, chunksize, end, verdict, target, next,
                             written + Cbc.Decrypt(bc, key, chain, chunk), Cbc.DecryptChain(chain, chunk))
  {
    var chunk := data[pos..next];
    AlignedRunStep(|data| - pos, next - pos, chunksize);
    var tail := data[next..end];
    SliceSplit(data, pos, next, end);
    var d1 := Cbc.Decrypt(bc, key, chain, chunk);
    var d2 := Cbc.Decrypt(bc, key, Cbc.DecryptChain(chain, chunk), tail);
    assert written + Cbc.Decrypt(bc, key, chain, chunk + tail) == target;
    Cbc.DecryptAppend(bc, key, chain, chunk, tail);
    Associative(written, d1, d2);
  }

  /** The decryption loop ends, on an empty read or a misaligned chunk,
      having written the whole output, with the verdict of the run */
  lemma DecryptLoopEnd(bc: Cbc.BlockCipher, key: Bytes, data: Bytes, chunksize: ReadSize,
                       end: nat, verdict: bool, target: Bytes,
                       pos: nat, written: Bytes, chain: Cbc.Block)
    requires DecryptLoopState(bc, key, data, chunksize, end, verdict, target, pos, written, chain)
    requires var n := ReadLength(|data| - pos, chunksize); n == 0 || !Cbc.Aligned(data[pos..pos + n])
    ensures verdict == (ReadLength(|data| - pos, chunksize) == 0)
    ensures written == target
  {
    assert end == pos;
    assert data[pos..pos] == [];
    assert written + [] == written;
  }

  /** The `while True` loop of `decrypt_file`: read a chunk, stop on an
      empty one, write its decryption; a chunk that is not whole blocks makes
      the decryptor raise (ok is false) with the earlier chunks written. */
  method DecryptChunks(infile: InputFile, outfile: OutputFile, mode: Cbc.CbcMode, chunksize: ReadSize) returns (ok: bool)
    requires infile.Valid()
    modifies infile, outfile, mode
    ensures ok == AlignedRun(|infile.data| - old(infile.pos), chunksize).1
    ensures outfile.contents
            == old(outfile.contents) + DecryptRun(mode.cipher, mode.key, old(mode.chain), infile.data, old(infile.pos), chunksize)
  {
    ghost var data := infile.data;
    ghost var bc, key := mode.cipher, mode.key;
    ghost var run := AlignedRun(|data| - infile.pos, chunksize);
    ghost var end, verdict := infile.pos + run.0, run.1;
    ghost var target := outfile.contents + DecryptRun(bc, key, mode.chain, data, infile.pos, chunksize);
    ok := true;
    while true
      invariant infile.Valid() && infile.data == data
      invariant DecryptLoopState(bc, key, data, chunksize, end, verdict, target, infile.pos, outfile.contents, mode.chain)
      decreases |data| - infile.pos
    {
      ghost var pos, written, chain := infile.pos, outfile.contents, mode.chain;
      var chunk := infile.Read(chunksize);
      if |chunk| == 0 {
        DecryptLoopEnd(bc, key, data, chunksize, end, verdict, target, pos, written, chain);
        break;
      }
      var decrypted := mode.DecryptChunk(chunk);
      if decrypted.None? {
        DecryptLoopEnd(bc, key, data, chunksize, end, verdict, target, pos, written, chain);
        ok := false;
        break;
      }
      DecryptLoopStep(bc, key, data, chunksize, end, verdict, target, pos, written, chain, infile.pos);
      outfile.Write(decrypted.value);
    }
  }

  // ---------------------------------------------------------------------
  // File operations

  datatype EncryptOutcome =
    | Encrypted(path: Path)
    | EncryptInputMissing
    | SizeTooLarge(path: Path) // struct.pack refuses a size of 2^64 or more
    | EncryptBadChunkSize(path: Path) // read refuses a size below -1

  /** `encrypt_file`: chooses the output name as the AES-GCM cipher does,
      then writes the size header, the IV and the chunk encryptions. A
      missing input raises before the output is opened; a size that does not
      fit `struct.pack('<Q', ...)` raises after the output was created empty;
      a chunk size below -1 raises at the first read, after the header and
      the IV were written. */
  method EncryptFile(fs: FileMap, inName: Path, outName: Path, chunksize: int, override: bool,
                     key: Bytes, iv: Cbc.Block, bc: Cbc.BlockCipher)
    returns (fs': FileMap, r: EncryptOutcome)
    ensures var first := OutputName(outName, DefaultEncryptedName(inName));
            override ==>
              var base := fs - {first};
              if inName !in base then r == EncryptInputMissing && fs' == base
              else if |base[inName]| >= U64Limit then r == SizeTooLarge(first) && fs' == base[first := []]
              else if chunksize < -1 then r == EncryptBadChunkSize(first) && fs' == base[first := PackU64(|base[inName]|) + iv]
              else r == Encrypted(first) && fs' == base[first := SealedFile(bc, key, iv, base[inName], chunksize)]
    ensures var first := OutputName(outName, DefaultEncryptedName(inName));
            !override ==>
              if inName !in fs then r == EncryptInputMissing && fs' == fs
              else
                && !r.EncryptInputMissing? && FirstFree(fs.Keys, inName, first, r.path)
                && (|fs[inName]| >= U64Limit ==> r == SizeTooLarge(r.path) && fs' == fs[r.path := []])
                && (|fs[inName]| < U64Limit && chunksize < -1 ==>
                      r == EncryptBadChunkSize(r.path) && fs' == fs[r.path := PackU64(|fs[inName]|) + iv])
                && (|fs[inName]| < U64Limit && chunksize >= -1 ==>
                      r == Encrypted(r.path) && fs' == fs[r.path := SealedFile(bc, key, iv, fs[inName], chunksize)])
  {
    var first := OutputName(outName, DefaultEncryptedName(inName));
    var base, target := PrepareOutput(fs, inName, first, override);
    var mode := new Cbc.CbcMode(bc, key, iv);
    if inName !in base {
      return base, EncryptInputMissing;
    }
    var filesize := |base[inName]|;
    var infile := new InputFile.Open(base[inName]);
    var outfile := new OutputFile.Create();
    if filesize >= U64Limit {
      return base[target := outfile.contents], SizeTooLarge(target);
    }
    outfile.Write(PackU64(filesize));
    outfile.Write(iv);
    if chunksize < -1 {
      assert outfile.contents == PackU64(filesize) + iv;
      return base[target := outfile.contents], EncryptBadChunkSize(target);
    }
    EncryptChunks(infile, outfile, mode, chunksize);
    assert outfile.contents == SealedFile(bc, key, iv, base[inName], chunksize);
    fs' := base[target := outfile.contents];
    r := Encrypted(target);
  }

  datatype DecryptOutcome =
    | Decrypted(path: Path)
    | DecryptInputMissing
    | ShortHeader           // struct.unpack finds fewer than 8 bytes
    | BadIvLength           // AES.new refuses an IV shorter than 16 bytes
    | Misaligned(path: Path) // the decryptor refuses a chunk that is not whole blocks
    | DecryptBadChunkSize(path: Path) // read refuses a size below -1

  /** `decrypt_file`: unpacks the size, reads the IV, writes the decryption
      of each chunk and truncates the output to the stored size. A chunk
      size below -1 raises at the first chunk read, leaving the output
      created empty. */
  method DecryptFile(fs: FileMap, inName: Path, outName: Path, chunksize: int, key: Bytes, bc: Cbc.BlockCipher)
    returns (fs': FileMap, r: DecryptOutcome)
    ensures inName !in fs ==> r == DecryptInputMissing && fs' == fs
    ensures inName in fs && |fs[inName]| < HeaderLength ==> r == ShortHeader && fs' == fs
    ensures inName in fs && HeaderLength <= |fs[inName]| < HeaderLength + IvLength ==> r == BadIvLength && fs' == fs
    ensures inName in fs && |fs[inName]| >= HeaderLength + IvLength && chunksize < -1 ==>
              r == DecryptBadChunkSize(OutputName(outName, DefaultDecryptedName(inName)))
              && fs' == fs[OutputName(outName, DefaultDecryptedName(inName)) := []]
    ensures inName in fs && |fs[inName]| >= HeaderLength + IvLength && chunksize >= -1 ==>
              var file := fs[inName];
              var target := OutputName(outName, DefaultDecryptedName(inName));
              var body := DecryptedBody(bc, key, file, chunksize);
              if AlignedRun(|file| - 24, chunksize).1 then
                r == Decrypted(target) && fs' == fs[target := Resize(body, UnpackU64(file[..8]))]
              else
                r == Misaligned(target) && fs' == fs[target := body]
  {
    var target := OutputName(outName, DefaultDecryptedName(inName));
    if inName !in fs {
      return fs, DecryptInputMissing;
    }
    var infile := new InputFile.Open(fs[inName]);
    var header := infile.Read(HeaderLength);
    if |header| != HeaderLength {
      return fs, ShortHeader;
    }
    var filesize := UnpackU64(header);
    var iv := infile.Read(IvLength);
    if |iv| != IvLength {
      return fs, BadIvLength;
    }
    ghost var file := fs[inName];
    assert header == file[..8] && iv == file[8..24] && infile.pos == 24;
    var mode := new Cbc.CbcMode(bc, key, iv);
    var outfile := new OutputFile.Create();
    assert infile.data == file && outfile.contents == [] && mode.chain == file[8..24];
    assert mode.cipher == bc && mode.key == key;
    if chunksize < -1 {
      return fs[target := outfile.contents], DecryptBadChunkSize(target);
    }
    var ok := DecryptChunks(infile, outfile, mode, chunksize);
    assert outfile.contents == DecryptedBody(bc, key, file, chunksize);
    if ok {
      outfile.Truncate(filesize);
      r := Decrypted(target);
    } else {
      r := Misaligned(target);
    }
    fs' := fs[target := outfile.contents];
  }
}
