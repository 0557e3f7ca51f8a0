/** The password-based AES-GCM file cipher (src/cipher.py). A container is
    nonce (12 bytes) ++ salt (16 bytes) ++ AEAD output; the key is derived
    from the password and the salt with PBKDF2. The KDF and the AEAD are
    parameters: only the properties stated for them here are assumed. */
module GcmCipher {
  import opened Bytes
  import opened Paths
  import opened Files
  import opened OutputNames

  const NonceLength: nat := 12
  const SaltLength: nat := 16
  /** Length of the authentication tag AES-GCM appends to the ciphertext */
  const TagLength: nat := 16

  datatype HashAlgorithm = Sha256

  /** The arguments given to `PBKDF2HMAC` besides the salt */
  datatype KdfParams = KdfParams(algorithm: HashAlgorithm, length: nat, iterations: nat)

  /** `PBKDF2HMAC(algorithm=SHA256(), length=32, iterations=100000)`:
      encryption and decryption both derive their key with these */
  const Pbkdf2Params: KdfParams := KdfParams(Sha256, 32, 100000)

  /** `PBKDF2HMAC(params, salt).derive(password)` */
  type Kdf = (KdfParams, Bytes, Bytes) -> Bytes

  /** `AESGCM(key).encrypt(nonce, data, None)` and `.decrypt(nonce, ct, None)`;
      `open` is None where the library raises (a tag that does not verify, a
      nonce of a length it refuses) */
  datatype Aead = Aead(seal: (Bytes, Bytes, Bytes) -> Bytes, open: (Bytes, Bytes, Bytes) -> Option<Bytes>)

  /** Decryption undoes encryption under the same key and a nonce of the
      length the container stores */
  ghost predicate Correct(aead: Aead) {
    forall key, nonce, data | |nonce| == NonceLength :: aead.open(key, nonce, aead.seal(key, nonce, data)) == Some(data)
  }

  /** Decryption releases only what encryption produced (the tag check) */
  ghost predicate Authentic(aead: Aead) {
    forall key, nonce, ct :: aead.open(key, nonce, ct).Some? ==>
      aead.seal(key, nonce, aead.open(key, nonce, ct).value) == ct
  }

  /** The ciphertext is the plaintext's length plus the tag */
  ghost predicate AppendsTag(aead: Aead) {
    forall key, nonce, data :: |aead.seal(key, nonce, data)| == |data| + TagLength
  }

  /** A stand-in tag of zero bytes */
  const ZeroTag: Bytes := seq(TagLength, _ => 0)

  /** The three assumptions leave room for an AEAD that, like AES-GCM,
      refuses every nonce of another length than the container's */
  lemma AssumptionsAdmitNonceCheck()
    ensures exists aead: Aead :: Correct(aead) && Authentic(aead) && AppendsTag(aead) &&
              forall key, nonce, ct | |nonce| != NonceLength :: aead.open(key, nonce, ct) == None
  {
    var aead := Aead((key: Bytes, nonce: Bytes, data: Bytes) => data + ZeroTag,
                     (key: Bytes, nonce: Bytes, ct: Bytes) =>
                       if |nonce| == NonceLength && |ct| >= TagLength && ct[|ct| - TagLength..] == ZeroTag
                       then Some(ct[..|ct| - TagLength]) else None);
    forall key, nonce, data | |nonce| == NonceLength
      ensures aead.open(key, nonce, aead.seal(key, nonce, data)) == Some(data)
    {
      var ct := data + ZeroTag;
      assert ct[|ct| - TagLength..] == ZeroTag && ct[..|ct| - TagLength] == data;
    }
    forall key, nonce, ct | aead.open(key, nonce, ct).Some?
      ensures aead.seal(key, nonce, aead.open(key, nonce, ct).value) == ct
    {
      assert ct[..|ct| - TagLength] + ct[|ct| - TagLength..] == ct;
    }
    assert Correct(aead) && Authentic(aead) && AppendsTag(aead);
  }

  // ---------------------------------------------------------------------
  // Container layout

  function Serialize(nonce: Bytes, salt: Bytes, ciphertext: Bytes): Bytes {
    nonce + salt + ciphertext
  }

  datatype Parsed = Parsed(nonce: Bytes, salt: Bytes, ciphertext: Bytes)

  /** Three reads at fixed offsets: bytes [0,12) are the nonce, [12,28) the
      salt and the rest the ciphertext; a short file gives short fields. */
  function Parse(file: Bytes): (r: Parsed)
    ensures |r.nonce| == Min(|file|, NonceLength)
    ensures |r.salt| == Min(|file|, NonceLength + SaltLength) - Min(|file|, NonceLength)
    ensures |file| >= NonceLength + SaltLength ==> |r.ciphertext| == |file| - NonceLength - SaltLength
  {
    var a := Min(|file|, NonceLength);
    var b := Min(|file|, NonceLength + SaltLength);
    Parsed(file[..a], file[a..b], file[b..])
  }

  /** Parsing a serialised container gives back its three fields */
  lemma {:induction false} ParseSerialize(nonce: Bytes, salt: Bytes, ciphertext: Bytes)
    requires |nonce| == NonceLength && |salt| == SaltLength
    ensures Parse(Serialize(nonce, salt, ciphertext)) == Parsed(nonce, salt, ciphertext)
  {
    var f := Serialize(nonce, salt, ciphertext);
    assert f[..12] == nonce;
    assert f[12..28] == salt;
    assert f[28..] == ciphertext;
  }

  /** Parsing loses nothing: the fields concatenate back to the file */
  lemma SerializeParse(file: Bytes)
    ensures var p := Parse(file); Serialize(p.nonce, p.salt, p.ciphertext) == file
  {
    var p := Parse(file);
    assert p.nonce + p.salt + p.ciphertext == file;
  }

  /** The file encryption writes for `data` */
  function SealedContainer(aead: Aead, kdf: Kdf, password: Bytes, salt: Bytes, nonce: Bytes, data: Bytes): Bytes {
    Serialize(nonce, salt, aead.seal(kdf(Pbkdf2Params, password, salt), nonce, data))
  }

  /** What decryption of a container yields, None when the AEAD refuses it */
  function OpenedContainer(aead: Aead, kdf: Kdf, password: Bytes, file: Bytes): Option<Bytes> {
    var p := Parse(file);
    aead.open(kdf(Pbkdf2Params, password, p.salt), p.nonce, p.ciphertext)
  }

  /** Decrypting with the password used to encrypt gives back the data */
  lemma RoundTrip(aead: Aead, kdf: Kdf, password: Bytes, salt: Bytes, nonce: Bytes, data: Bytes)
    requires Correct(aead)
    requires |salt| == SaltLength && |nonce| == NonceLength
    ensures OpenedContainer(aead, kdf, password, SealedContainer(aead, kdf, password, salt, nonce, data)) == Some(data)
  {
    var key := kdf(Pbkdf2Params, password, salt);
    ParseSerialize(nonce, salt, aead.seal(key, nonce, data));
  }

  /** Whatever decryption releases is exactly what encryption under the
      container's own nonce and salt would have written for it */
  lemma OpenedIsSealed(aead: Aead, kdf: Kdf, password: Bytes, file: Bytes)
    requires Authentic(aead)
    requires OpenedContainer(aead, kdf, password, file).Some?
    ensures var p := Parse(file);
            SealedContainer(aead, kdf, password, p.salt, p.nonce, OpenedContainer(aead, kdf, password, file).value) == file
  {
    SerializeParse(file);
  }

  /** A container is 44 bytes longer than its plaintext */
  lemma ContainerLength(aead: Aead, kdf: Kdf, password: Bytes, salt: Bytes, nonce: Bytes, data: Bytes)
    requires AppendsTag(aead)
    requires |salt| == SaltLength && |nonce| == NonceLength
    ensures |SealedContainer(aead, kdf, password, salt, nonce, data)| == |data| + 44
  {
  }

  // ---------------------------------------------------------------------
  // File operations

  datatype EncryptOutcome = Encrypted(path: Path) | EncryptInputMissing

  /** `encrypt_file`: chooses the output name, removes an existing output
      when `override` is set, then reads the whole input and writes nonce,
      salt and ciphertext; the key is derived from the password's UTF-8
      encoding. `salt` and `nonce` are the values `os.urandom(16)` and
      `os.urandom(12)` return. A missing input raises after the removal has
      happened. */
  method EncryptFile(fs: FileMap, inName: Path, outName: Path, override: bool, password: string,
                     salt: Bytes, nonce: Bytes, kdf: Kdf, aead: Aead)
    returns (fs': FileMap, r: EncryptOutcome)
    requires |salt| == SaltLength && |nonce| == NonceLength
    ensures var first := OutputName(outName, DefaultEncryptedName(inName));
            override ==>
              var base := fs - {first};
              if inName in base then
                r == Encrypted(first)
                && fs' == base[first := SealedContainer(aead, kdf, Utf8Encode(password), salt, nonce, base[inName])]
              else r == EncryptInputMissing && fs' == base
    ensures var first := OutputName(outName, DefaultEncryptedName(inName));
            !override ==>
              if inName in fs then
                r.Encrypted? && FirstFree(fs.Keys, inName, first, r.path)
                && fs' == fs[r.path := SealedContainer(aead, kdf, Utf8Encode(password), salt, nonce, fs[inName])]
              else r == EncryptInputMissing && fs' == fs
  {
    var first := OutputName(outName, DefaultEncryptedName(inName));
    var base, target := PrepareOutput(fs, inName, first, override);
    var key := kdf(Pbkdf2Params, Utf8Encode(password), salt);
    if inName !in base {
      return base, EncryptInputMissing;
    }
    var infile := new InputFile.Open(base[inName]);
    var data := infile.Read(-1);
    assert data == base[inName] by {
      assert infile.data[0..|infile.data|] == infile.data;
    }
    var ciphertext := aead.seal(key, nonce, data);
    var outfile := new OutputFile.Create();
    outfile.Write(nonce);
    outfile.Write(salt);
    outfile.Write(ciphertext);
    assert outfile.contents == Serialize(nonce, salt, ciphertext);
    fs' := base[target := outfile.contents];
    r := Encrypted(target);
  }

  datatype DecryptOutcome = Decrypted(path: Path) | IncorrectPassword | DecryptInputMissing

  /** `decrypt_file`: reads nonce, salt and ciphertext in that order, derives
      the key with the same parameters as encryption, and writes the output
      only when the AEAD accepts the ciphertext; otherwise it reports an
      incorrect password and leaves every file as it was. */
  method DecryptFile(fs: FileMap, inName: Path, outName: Path, password: string, kdf: Kdf, aead: Aead)
    returns (fs': FileMap, r: DecryptOutcome)
    ensures inName !in fs ==> r == DecryptInputMissing && fs' == fs
    ensures inName in fs ==>
              var target := OutputName(outName, DefaultDecryptedName(inName));
              match OpenedContainer(aead, kdf, Utf8Encode(password), fs[inName])
              case Some(plaintext) => r == Decrypted(target) && fs' == fs[target := plaintext]
              case None => r == IncorrectPassword && fs' == fs
  {
    var target := OutputName(outName, DefaultDecryptedName(inName));
    if inName !in fs {
      return fs, DecryptInputMissing;
    }
    var infile := new InputFile.Open(fs[inName]);
    var nonce := infile.Read(NonceLength);
    var salt := infile.Read(SaltLength);
    var ciphertext := infile.Read(-1);
    assert Parse(fs[inName]) == Parsed(nonce, salt, ciphertext);
    var key := kdf(Pbkdf2Params, Utf8Encode(password), salt);
    var released := aead.open(key, nonce, ciphertext);
    if released.Some? {
      var outfile := new OutputFile.Create();
      outfile.Write(released.value);
      assert outfile.contents == released.value;
      fs' := fs[target := outfile.contents];
      r := Decrypted(target);
    } else {
      fs' := fs;
      r := IncorrectPassword;
    }
  }
}
