# ciphy core in Dafny

A model of the core of *ciphy*, a small local password manager, and proofs of
what that core promises. It has four parts.

- **Password generator** (`src/generator.py`): `WordGenerator.generate_word`
  builds a pseudo-word one random letter at a time. `PasswordGenerator.generate_password`
  joins pseudo-words with symbol and digit fillers and pads or cuts the
  result to the exact length asked for (module `Generator`).
- **AES-GCM file cipher** (`src/cipher.py`): a password-derived key (PBKDF2) and
  a container of nonce, salt and ciphertext (module `GcmCipher`).
- **Legacy AES-CBC file cipher** (`ciphy/cipher.py`): a key file, a size
  header, an IV, and a chunk loop that pads each chunk with spaces (modules
  `Cbc` and `LegacyCipher`).
- **Password strength** (`src/strength.py`): a score from 0 to 7 and its
  label (module `Strength`).

Both ciphers name their output files in the same way (module
`OutputNames`, built on `Paths`). The file system is a value
`map<Path, Bytes>` (module `Files`). Each cipher operation takes the map and
returns the new map and an outcome. Reads go through an `InputFile` object with
a position. Writes go through an `OutputFile` object that can be truncated.
Bytes are `bv8`, and strings are turned into bytes by a real UTF-8 encoder
(`Bytes.Utf8Encode`).

The model makes these abstractions:

- **Randomness.** It is a *tape* `nat -> nat`. The k-th `rng.choice(pool)` of a
  generator takes `pool[tape(k) % |pool|]`. The word generator and the
  password generator each own a separate `SystemRandom`, so each has its own
  tape and draw counter. `os.urandom` values (salt, nonce, IV) and the 32
  bytes behind `secrets.token_hex(32)` are parameters of the stated length.
- **Cryptography.** SHA-256, PBKDF2-HMAC, AES-GCM and the AES block
  function are parameters. The model assumes only:
  - AEAD decryption undoes encryption under the same key and a 12-byte
    nonce, the only nonce length the container stores (`GcmCipher.Correct`);
  - AEAD decryption releases only what encryption produced
    (`GcmCipher.Authentic`);
  - the AEAD output is 16 bytes longer than its input
    (`GcmCipher.AppendsTag`);
  - the block function is inverted by its decryption (`Cbc.Invertible`).

  CBC chaining across calls (NIST SP 800-38A, section 6.2) is modelled
  exactly, because the legacy cipher feeds one stateful encryptor chunk by
  chunk, and encryption and decryption use different chunk sizes (64 KiB and
  24 KiB).

The key of the legacy cipher is `sha256(key.encode())` of a given key string,
or of `token_hex(32)` when none is given (`LegacyCipher.StoredKey`).

Some facts about the code that the model keeps:

- The GCM container is nonce, salt and ciphertext only. It carries no version
  tag and no iteration count; both sides use PBKDF2-HMAC-SHA256 with 100000
  iterations and a 32-byte key.
- The password length is not clamped. Nothing is added at the front or the
  back of a password.
- Word letters after the first alternate initial consonant and vowel by
  position parity. Final consonants are never drawn. A word asked to start
  with a vowel therefore starts with two.
- A buffered binary file's `read(n)` accepts -1 (read to the end) and
  non-negative sizes. Any other negative size raises `ValueError`, and the
  legacy cipher's chunk loops reach that with a `chunksize` below -1.

## Model

| member | source | states |
|---|---|---|
| Bytes.Utf8Encode | src/cipher.py:72 | `str.encode()`: the UTF-8 encoding of a string is at least one byte per character |
| Bytes.AsciiEncoding | ciphy/cipher.py:36 | ASCII text encodes to exactly one byte per character, the character's code point |
| Bytes.PackU64 | ciphy/cipher.py:92 | `struct.pack('<Q', n)` is eight bytes, for every n below 2^64 |
| Bytes.UnpackU64 | ciphy/cipher.py:126 | `struct.unpack('<Q', b)` of eight bytes is below 2^64 |
| Bytes.U64RoundTrip | ciphy/cipher.py:92-126 | unpacking a packed size gives the size, and packing an unpacked 8-byte string gives the string |
| Bytes.DecodeEncodeLE | ciphy/cipher.py:92-126 | little-endian decoding inverts encoding of any width for every value that fits |
| Bytes.EncodeDecodeLE | ciphy/cipher.py:92-126 | little-endian encoding at the input's width inverts decoding |
| Paths.RFind | src/cipher.py:52 | the last index holding the character, or -1 with no occurrence |
| Paths.Splitext | src/cipher.py:52 | `os.path.splitext`: root and extension concatenate back to the path; the extension is empty or one leading '.' with no further '.' or '/'; an extension is split off only when the root's final component has a non-dot, so ".bashrc" keeps no extension |
| Paths.SplitextAppended | src/cipher.py:100-101 | such an extension appended to a root whose last component has a non-dot is split off again exactly |
| Paths.NatToString | src/cipher.py:57 | `str(i)` is a non-empty string of decimal digits |
| Paths.DecimalValueOfNatToString | src/cipher.py:57 | the decimal digits of `str(n)` read back as n |
| Paths.NatToStringInjective | src/cipher.py:57 | distinct counters render differently |
| Files.Resize | ciphy/cipher.py:137 | `truncate(size)`: exactly `size` bytes; the common prefix is kept and any extension is zero bytes |
| Files.ReadLength | ciphy/cipher.py:96 | `read(n)` for n of -1 or more returns at most what remains, and something whenever n is non-zero and bytes remain |
| Files.InputFile.Read | src/cipher.py:104-106 | for a size of -1 or more, the chunk is the bytes from the old position to the new one, advanced by `ReadLength` |
| Files.InputFile.Open | src/cipher.py:103 | `open(path, 'rb')`: the reader holds the file's contents, positioned at 0 |
| Files.OutputFile.Create | ciphy/cipher.py:130 | `open(path, 'wb')`: the output starts empty |
| Files.OutputFile.Write | ciphy/cipher.py:102 | the contents grow by exactly the bytes written |
| Files.OutputFile.Truncate | ciphy/cipher.py:137 | the contents are resized to the size given |
| OutputNames.Stem | src/cipher.py:52 | `os.path.splitext(p)[0]`, the definition the naming lemmas are about |
| OutputNames.DefaultEncryptedName | src/cipher.py:51-52 | the stem followed by ".enc" (definition; see `OutputNames.DefaultNamesRoundTrip`) |
| OutputNames.DefaultDecryptedName | src/cipher.py:100-101 | the stem of the input (definition; see `OutputNames.DecryptedNameOfNumbered`) |
| OutputNames.NumberedName | src/cipher.py:57 | the i-th candidate `base.enc.i`, built from the input name even when an output name was given (definition; see `OutputNames.NumberedNameInjective`) |
| OutputNames.OutputName | src/cipher.py:51-52 | a given non-empty output name is kept |
| OutputNames.NumberedNameInjective | src/cipher.py:57 | distinct counters give distinct `base.enc.i` names |
| OutputNames.CandidatesSize | src/cipher.py:55-58 | the first n renumbered names are n distinct paths |
| OutputNames.ExistingCandidatesBound | src/cipher.py:56-58 | a finite set of existing paths holds only as many candidates as its size, so the renumbering loop ends |
| OutputNames.ChooseFreeName | src/cipher.py:54-58 | the loop returns a name that does not exist, the first one in the order initial name, `base.enc.1`, `base.enc.2`, ... |
| OutputNames.PrepareOutput | src/cipher.py:54-60 | with override the first name is used and an existing file by that name is removed; without it nothing is removed and the first free name is chosen |
| OutputNames.DefaultNamesRoundTrip | src/cipher.py:100-101 | when the input's stem has a final component with a non-dot, the default decrypted name of the default encrypted name is that stem |
| OutputNames.DecryptedNameOfNumbered | src/cipher.py:100-101 | a renumbered file `base.enc.i` decrypts by default to `base.enc` |
| GcmCipher.Serialize | src/cipher.py:79-81 | the three writes: nonce, then salt, then ciphertext (definition; see `GcmCipher.ParseSerialize`) |
| GcmCipher.SealedContainer | src/cipher.py:62-81 | the container written for the data under a password-derived key (definition; see `GcmCipher.RoundTrip`) |
| GcmCipher.OpenedContainer | src/cipher.py:103-121 | what decryption of a file yields, or None when the AEAD refuses it (definition; see `GcmCipher.OpenedIsSealed`) |
| GcmCipher.Parse | src/cipher.py:103-106 | the three reads at offsets 12 and 28 give fields of the lengths a short or long file allows |
| GcmCipher.ParseSerialize | src/cipher.py:103-106 | parsing nonce ++ salt ++ ciphertext with a 12-byte nonce and a 16-byte salt gives back the triple |
| GcmCipher.SerializeParse | src/cipher.py:103-106 | the parsed fields concatenate back to the file |
| GcmCipher.AssumptionsAdmitNonceCheck | src/cipher.py:73-77 | some AEAD meets `Correct`, `Authentic` and `AppendsTag` while refusing every nonce that is not 12 bytes long, as `AESGCM` does, so the round trip's premise does not exclude such a primitive |
| GcmCipher.RoundTrip | src/cipher.py:62-121 | both sides derive the key with the same PBKDF2 parameters, so decrypting a container with its password gives the data back |
| GcmCipher.OpenedIsSealed | src/cipher.py:120-123 | whatever decryption releases is exactly what encryption under the container's nonce and salt would have written |
| GcmCipher.ContainerLength | src/cipher.py:78-81 | a container is 12 + 16 + 16 bytes longer than the data |
| GcmCipher.EncryptFile | src/cipher.py:32-81 | the output name (default, renumbered or overridden), the removal of an old output with override, the container written, and a missing input reported after the removal |
| GcmCipher.DecryptFile | src/cipher.py:83-125 | the output is written, under the given or default name, only when the AEAD accepts the ciphertext; otherwise no file changes |
| Cbc.XorCancel | ciphy/cipher.py:128-135 | XOR with the chaining block cancels |
| Cbc.WholeBlocksMod | ciphy/cipher.py:99 | whole blocks are exactly the lengths divisible by 16 |
| Cbc.AlignedAppend | ciphy/cipher.py:95-102 | whole-block strings concatenate to whole blocks |
| Cbc.EncryptLength | ciphy/cipher.py:102 | CBC encryption preserves the length of whole blocks |
| Cbc.DecryptLength | ciphy/cipher.py:135 | CBC decryption preserves the length of whole blocks |
| Cbc.EncryptAppend | ciphy/cipher.py:95-102 | encrypting in two calls that carry the chain is encrypting the concatenation once |
| Cbc.DecryptAppend | ciphy/cipher.py:131-135 | decrypting in two calls that carry the chain is decrypting the concatenation once |
| Cbc.DecryptEncrypt | ciphy/cipher.py:128-135 | CBC decryption undoes CBC encryption under the same key and IV |
| Cbc.CbcMode.constructor | ciphy/cipher.py:87 | `AES.new(key, MODE_CBC, iv)` starts the chain at the IV |
| Cbc.CbcMode.EncryptChunk | ciphy/cipher.py:102 | whole blocks are encrypted from the current chain and the chain moves on; other data is refused and the chain is kept |
| Cbc.CbcMode.DecryptChunk | ciphy/cipher.py:135 | the same for decryption |
| LegacyCipher.StoredKey | ciphy/cipher.py:34-36 | the SHA-256 digest of the UTF-8 encoded key string, or of `token_hex(32)` of 32 entropy bytes when none is given (definition; SHA-256 is a parameter) |
| LegacyCipher.HexValueOfDigit | ciphy/cipher.py:54 | a hex digit's value is the nibble it was made from |
| LegacyCipher.TokenHex | ciphy/cipher.py:54 | `token_hex`: two lower-case hex digits per random byte |
| LegacyCipher.HexDecodeTokenHex | ciphy/cipher.py:54 | decoding the token gives back the random bytes |
| LegacyCipher.GeneratedKeyString | ciphy/cipher.py:34-36 | a generated key string is 64 ASCII hex digits, encodes to 64 bytes, and decodes to the 32 bytes drawn |
| LegacyCipher.Spaces | ciphy/cipher.py:100 | `b' ' * k` is k spaces |
| LegacyCipher.Pad | ciphy/cipher.py:99-100 | the padded chunk is whole blocks, starts with the chunk, is filled with spaces, and is less than 16 bytes longer |
| LegacyCipher.PadAligned | ciphy/cipher.py:99 | a chunk of whole blocks is left as it is |
| LegacyCipher.PadAfterAligned | ciphy/cipher.py:99-100 | padding after a whole-block prefix pads only what follows it |
| LegacyCipher.PaddedFrom | ciphy/cipher.py:95-100 | the chunks read from a position on, each padded (definition; see `LegacyCipher.PaddedStreamPadsOnce`) |
| LegacyCipher.PaddedStream | ciphy/cipher.py:95-100 | the bytes handed to the encryptor for the whole input (definition) |
| LegacyCipher.SealedFile | ciphy/cipher.py:92-102 | header, IV and encrypted stream as written (definition; see `LegacyCipher.SealedFileLayout`) |
| LegacyCipher.DecryptRun | ciphy/cipher.py:131-135 | the CBC decryption, chained from the given block, of the chunks read from a position up to the end or the first chunk that is not whole blocks (definition; see `LegacyCipher.DecryptChunks`) |
| LegacyCipher.DecryptedBody | ciphy/cipher.py:127-135 | the run decrypted after the 8-byte size and 16-byte IV, chained from that IV (definition; see `LegacyCipher.SealedFileOpens`) |
| LegacyCipher.PaddedStreamShape | ciphy/cipher.py:95-102 | for every chunk size `read` accepts, the bytes given to the encryptor are whole blocks, and no fewer than the file's size unless the chunk size is 0 |
| LegacyCipher.DefaultChunkSizesAligned | ciphy/cipher.py:56-105 | both default chunk sizes are multiples of 16 |
| LegacyCipher.PaddedStreamPadsOnce | ciphy/cipher.py:95-102 | with a chunk size of -1 or a positive multiple of 16, the stream is the data padded once at its end |
| LegacyCipher.AlignedRun | ciphy/cipher.py:131-135 | the decryptor gets no further than the ciphertext that remains |
| LegacyCipher.AlignedRunComplete | ciphy/cipher.py:131-135 | whole-block ciphertext read with a chunk size of -1 or a positive multiple of 16 is decrypted to its end without a refusal |
| LegacyCipher.SealedFileLayout | ciphy/cipher.py:92-102 | the file is the packed size, then the IV, then the CBC encryption of the whole-block padded stream |
| LegacyCipher.SealedFileOpens | ciphy/cipher.py:126-135 | the header gives back the exact size and IV, and decryption with a chunk size of -1 or a positive multiple of 16 recovers the padded stream, whatever chunk size `read` accepted on the encryption side |
| LegacyCipher.RoundTrip | ciphy/cipher.py:92-137 | with chunk sizes of -1 or positive multiples of 16 on both sides, decryption truncated to the stored size gives back the input |
| LegacyCipher.OneByteChunks | ciphy/cipher.py:95-100 | "ab" read one byte at a time pads each byte to a block of its own |
| LegacyCipher.SmallChunksBreakRoundTrip | ciphy/cipher.py:99-100 | "ab" encrypted with chunk size 1 decrypts to "a " |
| LegacyCipher.EncryptLoopStep | ciphy/cipher.py:96-102 | one turn of the encryption loop keeps the loop invariant |
| LegacyCipher.EncryptLoopEnd | ciphy/cipher.py:97-98 | on the empty read the whole encrypted stream has been written |
| LegacyCipher.EncryptChunks | ciphy/cipher.py:95-102 | for a chunk size `read` accepts, the loop writes the CBC encryption, from the IV, of every chunk padded |
| LegacyCipher.DecryptLoopStep | ciphy/cipher.py:132-135 | one turn of the decryption loop on a whole-block chunk keeps the loop invariant |
| LegacyCipher.DecryptLoopEnd | ciphy/cipher.py:133-135 | the loop ends, on an empty read or a refused chunk, with the run's output written and its verdict |
| LegacyCipher.DecryptChunks | ciphy/cipher.py:131-135 | for a chunk size `read` accepts, the loop writes the decryption of the ciphertext up to the first chunk that is not whole blocks, and reports whether there was one |
| LegacyCipher.EncryptFile | ciphy/cipher.py:56-102 | output naming as in the GCM cipher; a missing input is reported before the output is opened; a size of 2^64 or more leaves an empty output; a chunk size below -1 leaves only the header and IV; otherwise the output is header, IV and encrypted stream |
| LegacyCipher.DecryptFile | ciphy/cipher.py:105-137 | a missing input, a header shorter than 8 bytes, or an IV shorter than 16 bytes leaves every file as it was; a chunk size below -1 leaves an empty output; a refused chunk leaves the output untruncated; otherwise the output is the decryption truncated to the stored size |
| Generator.Decode | src/generator.py:71 | ASCII bytes decode to one character per byte with the same code |
| Generator.EncodeDecode | src/generator.py:128 | encoding a decoded ASCII word gives back its bytes |
| Generator.Draw | src/generator.py:58 | a draw is a member of its pool |
| Generator.Rng.constructor | src/generator.py:30 | `secrets.SystemRandom()`: a fresh generator over its tape with no draw made yet |
| Generator.Rng.Choice | src/generator.py:58 | `rng.choice` takes the next draw and advances the counter by one |
| Generator.Fillers | src/generator.py:131 | a negative count gives no draws, otherwise exactly `count` |
| Generator.PositionPool | src/generator.py:57-66 | the pool for letter i: vowels or initial consonants for the first as asked, then initial consonants at even and vowels at odd positions (definition; see `Generator.WordShape`) |
| Generator.Letters | src/generator.py:56-66 | a word's first n letters number exactly n; `Generator.WordLetter` gives each one's draw |
| Generator.PseudoWord | src/generator.py:56-69 | the word has the length asked for |
| Generator.WordShape | src/generator.py:56-69 | the first letter is a vowel or an initial consonant as asked; odd positions are vowels, even ones initial consonants; `end_vowel` makes the last letter a vowel; final consonants are never used |
| Generator.WordLetter | src/generator.py:57-69 | each letter is its position's draw, or the extra vowel draw for the last one |
| Generator.EndVowelKeepsPrefix | src/generator.py:68-69 | `end_vowel` replaces the last letter with a vowel and changes nothing before it |
| Generator.StartVowelDoubles | src/generator.py:57-66 | a word asked to start with a vowel starts with two vowels |
| Generator.WordAscii | src/generator.py:56-71 | every letter is an initial consonant or a vowel, so the word is ASCII |
| Generator.WordGenerator.constructor | src/generator.py:30-33 | the generator keeps the given initial consonants, final consonants and vowels as bytes, and its own generator |
| Generator.WordGenerator.GenerateWord | src/generator.py:35-77 | empty with no draw for a length of 0 or less; otherwise the decoded pseudo-word, with one draw per letter plus one for `end_vowel` |
| Generator.FloorDiv | src/generator.py:127 | Python's `//` (definition; see `Generator.FloorDivIsFloor`) |
| Generator.FloorDivIsFloor | src/generator.py:127 | `//` rounds the quotient down for either sign of the divisor |
| Generator.WordLength | src/generator.py:127 | `max(1, password_length // num_pseudo_words)` is at least 1 |
| Generator.Words | src/generator.py:128 | one word per requested pseudo-word, none for a negative count |
| Generator.TotalLength | src/generator.py:130 | `sum([len(pw) for pw in pseudo_words])` (definition) |
| Generator.Interleave | src/generator.py:133-137 | word i followed by extra i while there is one (definition; see `Generator.InterleaveLength`) |
| Generator.Fit | src/generator.py:139-147 | the buffer padded with the next draws or cut to the length (definition; see `Generator.PasswordLength`) |
| Generator.Assemble | src/generator.py:127-147 | the words, extras and final buffer for a positive length and a non-zero word count (definition; see `Generator.PasswordCharset`) |
| Generator.TotalLengthOfWords | src/generator.py:130 | the words add up to their count times the word length |
| Generator.InterleaveLength | src/generator.py:133-137 | the buffer holds every word and one extra per word while extras last |
| Generator.InterleaveFrom | src/generator.py:133-137 | every byte of the buffer comes from a word or from the extras |
| Generator.PasswordLength | src/generator.py:139-147 | after the pad and truncate loops the buffer has exactly `password_length` bytes |
| Generator.PasswordCharset | src/generator.py:128-149 | every character is an initial consonant, a vowel, a symbol or a digit |
| Generator.ExactFit | src/generator.py:127-137 | with 1 <= words <= length, each word has `length // words` letters, `length % words` extras follow the first words, and nothing is padded or cut |
| Generator.ManyWords | src/generator.py:127-147 | with more words than characters the password is the first letters of its one-letter words, with no symbol or digit |
| Generator.NoWords | src/generator.py:127-147 | with a negative word count the extras are drawn and discarded, and the password is all padding |
| Generator.PasswordGenerator.constructor | src/generator.py:103-106 | the symbol and digit pools are `string.punctuation` and `string.digits` as bytes |
| Generator.PasswordGenerator.PseudoWords | src/generator.py:128 | the words generated in order from the word generator's draws, n draws each |
| Generator.PasswordGenerator.ExtraCharacters | src/generator.py:131 | `max(0, remaining)` draws from symbols and digits |
| Generator.PasswordGenerator.InterleaveWords | src/generator.py:133-137 | the buffer is word i followed by extra i while there is one |
| Generator.PasswordGenerator.PadAndTruncate | src/generator.py:139-147 | the buffer padded from the next draws or cut to the length asked for, with one draw per byte added |
| Generator.PasswordGenerator.Combine | src/generator.py:127-147 | the words, extras and final buffer are the planned assembly, and both generators advance by exactly the draws it makes |
| Generator.PasswordGenerator.GeneratePassword | src/generator.py:108-162 | "" when the length is below 1, ZeroDivisionError for no words, otherwise the decoded assembly |
| Generator.PasswordGenerator.GeneratePasswordAsWritten | src/generator.py:108-162 | as written, every call with a positive length and a positive word count ends in TypeError at the zeroing of the words |
| Strength.LengthPoints | src/strength.py:45-49 | 2 points from 8 characters, 1 for 6 or 7, else 0 (definition; see `Strength.VeryStrongIff`) |
| Strength.CasePoints | src/strength.py:52-57 | 2 points for both cases, 1 for one, else 0 (definition) |
| Strength.HasUpper | src/strength.py:52 | some character is an ASCII upper-case letter (definition) |
| Strength.HasLower | src/strength.py:53 | some character is an ASCII lower-case letter (definition) |
| Strength.HasDigit | src/strength.py:60 | some character is an ASCII digit (definition) |
| Strength.HasPunctuation | src/strength.py:65 | some character is in `string.punctuation` (definition) |
| Strength.PasswordStrength.constructor | src/strength.py:14-23 | keeps the password to score |
| Strength.Score | src/strength.py:42-67 | the score is between 0 and 7 |
| Strength.Label | src/strength.py:70-79 | the label is one of the five names |
| Strength.PasswordStrength.GetPasswordStrength | src/strength.py:42-81 | the label of the score added up from length, case, digit and punctuation points |
| Strength.LabelBands | src/strength.py:70-79 | each label covers exactly its band: 0, 1-2, 3-4, 5-6, 7 |
| Strength.VeryWeakIff | src/strength.py:42-79 | "Very Weak" exactly when shorter than 6 with no letter, digit or punctuation |
| Strength.VeryStrongIff | src/strength.py:42-79 | "Very Strong" exactly when at least 8 long with both cases, a digit and punctuation |
| Strength.EmptyPassword | src/strength.py:42-79 | the empty password scores 0 and is "Very Weak" |
| Strength.HasAppend | src/strength.py:52-67 | a character class present in a password stays present in any extension |
| Strength.ScoreMonotone | src/strength.py:42-67 | appending characters never lowers the score |

## Left out

- File I/O is a map from path to contents. Open files, exceptions raised while writing, permissions and concurrent changes are not modelled.
- In the legacy cipher, decryption with the output path equal to the input path is not modelled: the model reads a snapshot of the input.
- The command-line layers (`src/__init__.py`, `ciphy/__init__.py`) are not part of this model. This includes `ciphy/__init__.py` passing the override flag where the chunk size goes; `LegacyCipher.SmallChunksBreakRoundTrip` shows what a chunk size below 16 does to the round trip.
- `src/utils.py`, `ciphy/utils.py` and `setup.py` are not part of this model. The YAML loading in `WordGenerator.__init__` and its early return on failure are also out; the components are given.
- `load_password`, `load_key`, `save_key_to_file`, `print_key`, `__del__` and `gc.collect()` are I/O or have no observable effect.
- SHA-256, PBKDF2-HMAC, AES-GCM and the AES block function are parameters with the assumptions stated above. Their security is not modelled.
- The distribution of random draws is not modelled. The tape fixes every draw, so uniformity and the freshness of salts, nonces and IVs are not stated.
- `GcmCipher.DecryptFile`: the "Incorrect password" message is printed output and is not modelled. The outcome `IncorrectPassword` stands for it.
- `GcmCipher.EncryptFile`, `GcmCipher.DecryptFile`: `password=None` raises on `.encode()`. The model takes a string.
- `Files.InputFile.Read` admits only sizes of -1 or more, the sizes `BufferedReader.read` accepts. A smaller chunk size raises `ValueError` at the first read; the legacy operations return it as the outcomes `EncryptBadChunkSize` and `DecryptBadChunkSize`, with the output written so far.
- `Generator.WordGenerator.GenerateWord`: requires non-empty, ASCII initial consonants and vowels. An empty pool makes `rng.choice` raise; non-ASCII components make bytes and characters differ.
- `Generator.PasswordGenerator.GeneratePassword`: the zeroing loops write local copies. Their loop invariants show each buffer ends all zero, but the buffers are discarded afterwards, so the contract says nothing about them. In the non-zero case the contract does not restate the draw counts; `Generator.PasswordGenerator.Combine` states them.
- `Strength.IsUpper`, `Strength.IsLower`, `Strength.IsDigit`: `str.isupper`, `str.islower` and `str.isdigit` are modelled on ASCII only. Other Unicode letters and digits are not counted.
- `Bytes.Utf8Encode`: its own contract states only the length lower bound. `Bytes.AsciiEncoding` gives the exact bytes for ASCII text.
- `LegacyCipher.StoredKey` has no contract beyond its 32-byte result type. SHA-256 is a parameter, so nothing more can be said about it.

## Findings

| source | as written | input that shows it | evidently intended | confidence | as-written member | corrected member |
|---|---|---|---|---|---|---|
| src/generator.py:155-157 | each pseudo-word is an immutable `bytes` (from `.encode` at line 128), so `pw[i] = 0` raises TypeError | `generate_password(8, 1)`: the one word is non-empty | zero the word buffers and return the decoded password | not executed | Generator.PasswordGenerator.GeneratePasswordAsWritten | Generator.PasswordGenerator.GeneratePassword |
