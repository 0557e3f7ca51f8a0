/** AES in CBC mode (NIST SP 800-38A, section 6.2) as the legacy cipher uses
    it through a stateful encryptor object: the block cipher itself is a
    parameter, assumed only to be inverted by its decryption; the chaining,
    which carries the last ciphertext block from one call to the next, is
    modelled exactly. */
module Cbc {
  import opened Bytes

  const BlockSize: nat := 16

  type Block = s: Bytes | |s| == 16 witness seq(16, _ => 0)

  /** One-block AES under a key, and its inverse */
  datatype BlockCipher = BlockCipher(encrypt: (Bytes, Block) -> Block, decrypt: (Bytes, Block) -> Block)

  ghost predicate Invertible(bc: BlockCipher) {
    forall key, b :: bc.decrypt(key, bc.encrypt(key, b)) == b
  }

  function Xor(a: Block, b: Block): Block {
    seq(16, i requires 0 <= i < 16 => a[i] ^ b[i])
  }

  lemma XorCancel(a: Block, b: Block)
    ensures Xor(Xor(a, b), b) == a
  {
    assert forall i :: 0 <= i < 16 ==> (a[i] ^ b[i]) ^ b[i] == a[i];
  }

  /** `n` is a whole number of blocks (counted down block by block) */
  predicate WholeBlocks(n: nat) {
    if n < BlockSize then n == 0 else WholeBlocks(n - BlockSize)
  }

  lemma {:induction false} WholeBlocksMod(n: nat)
    ensures WholeBlocks(n) <==> n % BlockSize == 0
  {
    if n >= BlockSize {
      WholeBlocksMod(n - BlockSize);
    }
  }

  /** Data the mode accepts: a whole number of 16-byte blocks */
  predicate Aligned(s: Bytes) {
    WholeBlocks(|s|)
  }

  lemma {:induction false} WholeBlocksSum(m: nat, n: nat)
    requires WholeBlocks(m) && WholeBlocks(n)
    ensures WholeBlocks(m + n)
  {
    if m >= BlockSize {
      WholeBlocksSum(m - BlockSize, n);
    }
  }

  lemma AlignedAppend(a: Bytes, b: Bytes)
    requires Aligned(a) && Aligned(b)
    ensures Aligned(a + b)
  {
    WholeBlocksSum(|a|, |b|);
  }

  /** CBC encryption of the whole blocks of `p` starting from chaining value
      `iv` (callers pass whole blocks; a trailing partial block is ignored) */
  function Encrypt(bc: BlockCipher, key: Bytes, iv: Block, p: Bytes): (c: Bytes)
    decreases |p|
  {
    if |p| < 16 then []
    else
      var b := bc.encrypt(key, Xor(p[..16], iv));
      b + Encrypt(bc, key, b, p[16..])
  }

  /** The chaining value after encrypting `p`: its last ciphertext block */
  function EncryptChain(bc: BlockCipher, key: Bytes, iv: Block, p: Bytes): Block
    decreases |p|
  {
    if |p| < 16 then iv else EncryptChain(bc, key, bc.encrypt(key, Xor(p[..16], iv)), p[16..])
  }

  /** CBC decryption of the whole blocks of `c` starting from chaining value `iv` */
  function Decrypt(bc: BlockCipher, key: Bytes, iv: Block, c: Bytes): (p: Bytes)
    decreases |c|
  {
    if |c| < 16 then [] else Xor(bc.decrypt(key, c[..16]), iv) + Decrypt(bc, key, c[..16], c[16..])
  }

  /** The chaining value after decrypting `c`: its last block */
  function DecryptChain(iv: Block, c: Bytes): Block {
    if |c| < 16 then iv else c[|c| - 16..]
  }

  lemma {:induction false} EncryptLength(bc: BlockCipher, key: Bytes, iv: Block, p: Bytes)
    requires Aligned(p)
    ensures |Encrypt(bc, key, iv, p)| == |p|
    decreases |p|
  {
    if |p| > 0 {
      EncryptLength(bc, key, bc.encrypt(key, Xor(p[..16], iv)), p[16..]);
    }
  }

  lemma {:induction false} DecryptLength(bc: BlockCipher, key: Bytes, iv: Block, c: Bytes)
    requires Aligned(c)
    ensures |Decrypt(bc, key, iv, c)| == |c|
    decreases |c|
  {
    if |c| > 0 {
      DecryptLength(bc, key, c[..16], c[16..]);
    }
  }

  /** Encrypting in two calls, the second starting from the chain the first
      left, is encrypting the concatenation in one */
  lemma {:induction false} EncryptAppend(bc: BlockCipher, key: Bytes, iv: Block, a: Bytes, b: Bytes)
    requires Aligned(a)
    ensures Encrypt(bc, key, iv, a + b) == Encrypt(bc, key, iv, a) + Encrypt(bc, key, EncryptChain(bc, key, iv, a), b)
    ensures EncryptChain(bc, key, iv, a + b) == EncryptChain(bc, key, EncryptChain(bc, key, iv, a), b)
    decreases |a|
  {
    if |a| == 0 {
      assert a + b == b;
    } else {
      var first := bc.encrypt(key, Xor(a[..16], iv));
      assert (a + b)[..16] == a[..16];
      assert (a + b)[16..] == a[16..] + b;
      EncryptAppend(bc, key, first, a[16..], b);
    }
  }

  /** The same for decryption */
  lemma {:induction false} DecryptAppend(bc: BlockCipher, key: Bytes, iv: Block, a: Bytes, b: Bytes)
    requires Aligned(a)
    ensures Decrypt(bc, key, iv, a + b) == Decrypt(bc, key, iv, a) + Decrypt(bc, key, DecryptChain(iv, a), b)
    decreases |a|
  {
    if |a| == 0 {
      assert a + b == b;
    } else {
      assert (a + b)[..16] == a[..16];
      assert (a + b)[16..] == a[16..] + b;
      DecryptAppend(bc, key, a[..16], a[16..], b);
      if |a| > 16 {
        assert DecryptChain(a[..16], a[16..]) == DecryptChain(iv, a);
      } else {
        assert a[..16] == a;
      }
    }
  }

  /** CBC decryption undoes CBC encryption under the same key and IV */
  lemma {:induction false} DecryptEncrypt(bc: BlockCipher, key: Bytes, iv: Block, p: Bytes)
    requires Invertible(bc)
    requires Aligned(p)
    ensures Decrypt(bc, key, iv, Encrypt(bc, key, iv, p)) == p
    decreases |p|
  {
    if |p| > 0 {
      var c := Encrypt(bc, key, iv, p);
      var b := bc.encrypt(key, Xor(p[..16], iv));
      EncryptLength(bc, key, b, p[16..]);
      assert c[..16] == b;
      assert c[16..] == Encrypt(bc, key, b, p[16..]);
      DecryptEncrypt(bc, key, b, p[16..]);
      XorCancel(p[..16], iv);
      assert p == p[..16] + p[16..];
    }
  }

  /** PyCryptodome's CBC mode object: each call continues the chain the
      previous call left, and data that is not a whole number of blocks is
      refused (the library raises ValueError). */
  class CbcMode {
    const cipher: BlockCipher
    const key: Bytes
    var chain: Block

    /** `AES.new(key, AES.MODE_CBC, iv)` with a 16-byte IV */
    constructor (cipher: BlockCipher, key: Bytes, iv: Block)
      ensures this.cipher == cipher && this.key == key && chain == iv
    {
      this.cipher := cipher;
      this.key := key;
      chain := iv;
    }

    method EncryptChunk(chunk: Bytes) returns (r: Option<Bytes>)
      modifies this
      ensures Aligned(chunk) ==> r == Some(Encrypt(cipher, key, old(chain), chunk))
                                 && chain == EncryptChain(cipher, key, old(chain), chunk)
      ensures !Aligned(chunk) ==> r == None && chain == old(chain)
    {
      if !Aligned(chunk) {
        return None;
      }
      r := Some(Encrypt(cipher, key, chain, chunk));
      chain := EncryptChain(cipher, key, chain, chunk);
    }

    method DecryptChunk(chunk: Bytes) returns (r: Option<Bytes>)
      modifies this
      ensures Aligned(chunk) ==> r == Some(Decrypt(cipher, key, old(chain), chunk))
                                 && chain == DecryptChain(old(chain), chunk)
      ensures !Aligned(chunk) ==> r == None && chain == old(chain)
    {
      if !Aligned(chunk) {
        return None;
      }
      r := Some(Decrypt(cipher, key, chain, chunk));
      chain := DecryptChain(chain, chunk);
    }
  }
}
