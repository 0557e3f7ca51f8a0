/** Pseudo-word and password generation (src/generator.py). The random
    source is a tape: the k-th draw of a generator's `rng.choice(pool)`
    picks `pool[tape(k) % |pool|]`. Word components, symbols and digits are
    byte strings; component characters are taken to be ASCII, so every byte
    is one character once decoded. */
module Generator {
  import opened Bytes

  predicate AsciiBytes(b: Bytes) {
    forall i :: 0 <= i < |b| ==> b[i] < 0x80
  }

  /** `b.decode('utf-8')` for ASCII bytes: one character per byte */
  function Decode(b: Bytes): (s: string)
    ensures |s| == |b|
    ensures forall i :: 0 <= i < |b| ==> s[i] as int == b[i] as int
  {
    seq(|b|, i requires 0 <= i < |b| => (b[i] as int) as char)
  }

  /** Encoding a decoded ASCII buffer gives the buffer back */
  lemma EncodeDecode(b: Bytes)
    requires AsciiBytes(b)
    ensures Utf8Encode(Decode(b)) == b
  {
    var s := Decode(b);
    AsciiEncoding(s);
    var r := Utf8Encode(s);
    forall i | 0 <= i < |b|
      ensures r[i] == b[i]
    {
      ByteOfValue(r[i]);
      ByteOfValue(b[i]);
    }
  }

  // ---------------------------------------------------------------------
  // Random choices

  /** The k-th draw from `pool`: the member at the tape's k-th value modulo
      the pool's size */
  function Draw(pool: Bytes, tape: nat -> nat, k: nat): (c: byte)
    requires |pool| > 0
    ensures c in pool
  {
    pool[tape(k) % |pool|]
  }

  /** `secrets.SystemRandom()`: the draws it has made so far on its tape */
  class Rng {
    const tape: nat -> nat
    var drawn: nat

    constructor (tape: nat -> nat)
      ensures this.tape == tape && drawn == 0
    {
      this.tape := tape;
      drawn := 0;
    }

    /** `rng.choice(pool)` */
    method Choice(pool: Bytes) returns (c: byte)
      requires |pool| > 0
      modifies this
      ensures c == Draw(pool, tape, old(drawn)) && drawn == old(drawn) + 1
    {
      c := Draw(pool, tape, drawn);
      drawn := drawn + 1;
    }
  }

  /** `count` draws from `pool` starting with draw `k` (none for a negative count) */
  function Fillers(pool: Bytes, count: int, tape: nat -> nat, k: nat): (r: Bytes)
    requires |pool| > 0
    ensures |r| == Max(0, count)
  {
    seq(Max(0, count), j requires 0 <= j < Max(0, count) => Draw(pool, tape, k + j))
  }

  // ---------------------------------------------------------------------
  // Pseudo-words

  /** The pool letter `i` of a word is drawn from: the first a vowel or an
      initial consonant as asked, then, by the parity of the letters already
      written, an initial consonant at even positions and a vowel at odd ones */
  function PositionPool(initials: Bytes, vowels: Bytes, startVowel: bool, i: nat): Bytes {
    if i == 0 then (if startVowel then vowels else initials)
    else if i % 2 == 0 then initials
    else vowels
  }

  /** The first `n` letters of a word whose draws start at `k` */
  function Letters(initials: Bytes, vowels: Bytes, startVowel: bool, tape: nat -> nat, k: nat, n: nat): (r: Bytes)
    requires |initials| > 0 && |vowels| > 0
    ensures |r| == n
  {
    seq(n, i requires 0 <= i < n => Draw(PositionPool(initials, vowels, startVowel, i), tape, k + i))
  }

  /** The word of `n` letters drawn from draw `k` on; with `endVowel` the last
      letter is drawn once more, from the vowels (draw k + n) */
  function PseudoWord(initials: Bytes, vowels: Bytes, n: nat, startVowel: bool, endVowel: bool,
                      tape: nat -> nat, k: nat): (w: Bytes)
    requires |initials| > 0 && |vowels| > 0
    ensures |w| == n
  {
    var letters := Letters(initials, vowels, startVowel, tape, k, n);
    if endVowel && n > 0 then letters[n - 1 := Draw(vowels, tape, k + n)] else letters
  }

  /** The draws a word of `n` letters consumes */
  function WordDraws(n: nat, endVowel: bool): nat {
    if endVowel && n > 0 then n + 1 else n
  }

  /** A word has the length asked for, its first letter is a vowel or an
      initial consonant as asked, later letters alternate initial consonant
      (even positions) and vowel (odd positions), and `endVowel` makes the
      last letter a vowel. The final consonants are never drawn. */
  lemma WordShape(initials: Bytes, vowels: Bytes, n: nat, startVowel: bool, endVowel: bool, tape: nat -> nat, k: nat)
    requires |initials| > 0 && |vowels| > 0 && n >= 1
    ensures var w := PseudoWord(initials, vowels, n, startVowel, endVowel, tape, k);
            && |w| == n
            && w[0] in (if startVowel || (endVowel && n == 1) then vowels else initials)
            && (forall i :: 1 <= i < n && i % 2 == 1 ==> w[i] in vowels)
            && (forall i :: 1 <= i < n && i % 2 == 0 && !(endVowel && i == n - 1) ==> w[i] in initials)
            && (endVowel ==> w[n - 1] in vowels)
  {
    var w := PseudoWord(initials, vowels, n, startVowel, endVowel, tape, k);
    forall i | 0 <= i < n
      ensures w[i] in (if endVowel && i == n - 1 then vowels else PositionPool(initials, vowels, startVowel, i))
    {
      WordLetter(initials, vowels, n, startVowel, endVowel, tape, k, i);
    }
  }

  /** Letter `i` of a word is its position's draw, or the extra vowel draw
      for the last letter with `endVowel` */
  lemma WordLetter(initials: Bytes, vowels: Bytes, n: nat, startVowel: bool, endVowel: bool, tape: nat -> nat, k: nat, i: nat)
    requires |initials| > 0 && |vowels| > 0 && i < n
    ensures PseudoWord(initials, vowels, n, startVowel, endVowel, tape, k)[i]
            == if endVowel && i == n - 1 then Draw(vowels, tape, k + n)
               else Draw(PositionPool(initials, vowels, startVowel, i), tape, k + i)
  {
  }

  /** `endVowel` changes the last letter and nothing before it */
  lemma EndVowelKeepsPrefix(initials: Bytes, vowels: Bytes, n: nat, startVowel: bool, tape: nat -> nat, k: nat)
    requires |initials| > 0 && |vowels| > 0 && n >= 1
    ensures var plain := PseudoWord(initials, vowels, n, startVowel, false, tape, k);
            var ending := PseudoWord(initials, vowels, n, startVowel, true, tape, k);
            && ending[..n - 1] == plain[..n - 1]
            && ending[n - 1] == Draw(vowels, tape, k + n)
  {
  }

  /** Since position 1 is odd, a word asked to start with a vowel starts
      with two of them */
  lemma StartVowelDoubles(initials: Bytes, vowels: Bytes, n: nat, endVowel: bool, tape: nat -> nat, k: nat)
    requires |initials| > 0 && |vowels| > 0 && n >= 2
    ensures var w := PseudoWord(initials, vowels, n, true, endVowel, tape, k);
            w[0] in vowels && w[1] in vowels
  {
    WordShape(initials, vowels, n, true, endVowel, tape, k);
  }

  /** Words draw only from the initial consonants and the vowels, so they
      are ASCII when those are */
  lemma WordAscii(initials: Bytes, vowels: Bytes, n: nat, startVowel: bool, endVowel: bool, tape: nat -> nat, k: nat)
    requires |initials| > 0 && |vowels| > 0 && AsciiBytes(initials) && AsciiBytes(vowels)
    ensures var w := PseudoWord(initials, vowels, n, startVowel, endVowel, tape, k);
            && (forall i :: 0 <= i < |w| ==> w[i] in initials || w[i] in vowels)
            && AsciiBytes(w)
  {
    var w := PseudoWord(initials, vowels, n, startVowel, endVowel, tape, k);
    forall i | 0 <= i < |w|
      ensures w[i] in initials || w[i] in vowels
    {
      WordLetter(initials, vowels, n, startVowel, endVowel, tape, k, i);
    }
  }

  /** `WordGenerator`: the components loaded from the YAML file, as bytes */
  class WordGenerator {
    const initials: Bytes
    const finals: Bytes
    const vowels: Bytes
    const rng: Rng

    /** Every pool `generate_word` draws from is non-empty and ASCII */
    predicate Valid() {
      |initials| > 0 && |vowels| > 0 && AsciiBytes(initials) && AsciiBytes(vowels)
    }

    constructor (initials: Bytes, finals: Bytes, vowels: Bytes, rng: Rng)
      ensures this.initials == initials && this.finals == finals && this.vowels == vowels && this.rng == rng
    {
      this.initials := initials;
      this.finals := finals;
      this.vowels := vowels;
      this.rng := rng;
    }

    /** `generate_word(word_length, start_vowel, end_vowel)` */
    method GenerateWord(wordLength: int, startVowel: bool, endVowel: bool) returns (word: string)
      requires Valid()
      modifies rng
      ensures wordLength <= 0 ==> word == "" && rng.drawn == old(rng.drawn)
      ensures wordLength > 0 ==>
                && word == Decode(PseudoWord(initials, vowels, wordLength, startVowel, endVowel, rng.tape, old(rng.drawn)))
                && rng.drawn == old(rng.drawn) + WordDraws(wordLength, endVowel)
    {
      if wordLength <= 0 {
        return "";
      }
      ghost var k := rng.drawn;
      var letters: Bytes := [];
      var first: byte;
      if startVowel {
        first := rng.Choice(vowels);
      } else {
        first := rng.Choice(initials);
      }
      letters := letters + [first];
      assert letters == Letters(initials, vowels, startVowel, rng.tape, k, 1);
      for i := 1 to wordLength
        invariant letters == Letters(initials, vowels, startVowel, rng.tape, k, i)
        invariant rng.drawn == k + i
      {
        var c: byte;
        if |letters| % 2 == 0 {
          c := rng.Choice(initials);
        } else {
          c := rng.Choice(vowels);
        }
        letters := letters + [c];
      }
      if endVowel {
        var c := rng.Choice(vowels);
        letters := letters[|letters| - 1 := c];
      }
      assert letters == PseudoWord(initials, vowels, wordLength, startVowel, endVowel, rng.tape, k);
      word := Decode(letters);
      // Zero out the byte array
      for i := 0 to |letters|
        invariant |letters| == wordLength
        invariant forall j :: 0 <= j < i ==> letters[j] == 0
      {
        letters := letters[i := 0];
      }
    }
  }

  // ---------------------------------------------------------------------
  // Passwords

  /** `password_length // num_pseudo_words`: Python's division rounds down */
  function FloorDiv(a: int, b: int): int
    requires b != 0
  {
    if b > 0 || a % b == 0 then a / b else a / b - 1
  }

  /** `FloorDiv` is the floor of the exact quotient, for either sign of the
      divisor */
  lemma FloorDivIsFloor(a: int, b: int)
    requires b != 0
    ensures b > 0 ==> FloorDiv(a, b) * b <= a < FloorDiv(a, b) * b + b
    ensures b < 0 ==> FloorDiv(a, b) * b >= a > FloorDiv(a, b) * b + b
  {
  }

  /** `min_word_length = max(1, password_length // num_pseudo_words)` */
  function WordLength(passwordLength: int, numPseudoWords: int): (n: nat)
    requires numPseudoWords != 0
    ensures n >= 1
  {
    var q := FloorDiv(passwordLength, numPseudoWords);
    if q >= 1 then q else 1
  }

  /** The `num_pseudo_words` words of length `n` (none for a negative
      count), the i-th drawn from draw k + i * n of the word generator */
  function Words(initials: Bytes, vowels: Bytes, n: nat, count: int, tape: nat -> nat, k: nat): (r: seq<Bytes>)
    requires |initials| > 0 && |vowels| > 0
    ensures |r| == Max(0, count)
  {
    seq(Max(0, count), i requires 0 <= i < Max(0, count) => PseudoWord(initials, vowels, n, false, false, tape, k + i * n))
  }

  /** `sum([len(pw) for pw in pseudo_words])` */
  function TotalLength(words: seq<Bytes>): nat {
    if |words| == 0 then 0 else TotalLength(words[..|words| - 1]) + |words[|words| - 1]|
  }

  /** The assembly loop: word i, then extra character i while there is one */
  function Interleave(words: seq<Bytes>, extras: Bytes): Bytes {
    if |words| == 0 then []
    else
      var i := |words| - 1;
      Interleave(words[..i], extras) + words[i] + (if i < |extras| then [extras[i]] else [])
  }

  /** The pad and truncate loops: filler draws from `k` on up to `length`,
      or the first `length` bytes */
  function Fit(combined: Bytes, length: nat, pool: Bytes, tape: nat -> nat, k: nat): Bytes
    requires |pool| > 0
  {
    if |combined| < length then combined + Fillers(pool, length - |combined|, tape, k) else combined[..length]
  }

  /** The pieces `generate_password` assembles for a positive length and a
      non-zero word count: the words, the extra characters and the buffer */
  datatype Assembly = Assembly(words: seq<Bytes>, extras: Bytes, combined: Bytes)

  function Assemble(initials: Bytes, vowels: Bytes, pool: Bytes, passwordLength: nat, numPseudoWords: int,
                    wordTape: nat -> nat, wordStart: nat, tape: nat -> nat, start: nat): Assembly
    requires |initials| > 0 && |vowels| > 0 && |pool| > 0 && numPseudoWords != 0
  {
    var n := WordLength(passwordLength, numPseudoWords);
    var words := Words(initials, vowels, n, numPseudoWords, wordTape, wordStart);
    var extras := Fillers(pool, passwordLength - TotalLength(words), tape, start);
    Assembly(words, extras, Fit(Interleave(words, extras), passwordLength, pool, tape, start + |extras|))
  }

  /** The draws `generate_password` makes on its own generator: the extras,
      then the padding */
  function PasswordDraws(a: Assembly, passwordLength: nat): nat {
    |a.extras| + Max(0, passwordLength - |Interleave(a.words, a.extras)|)
  }

  lemma {:induction false} TotalLengthStep(words: seq<Bytes>, w: Bytes)
    ensures TotalLength(words + [w]) == TotalLength(words) + |w|
  {
    assert (words + [w])[..|words|] == words;
  }

  lemma {:induction false} InterleaveStep(words: seq<Bytes>, w: Bytes, extras: Bytes)
    ensures Interleave(words + [w], extras)
            == Interleave(words, extras) + w + (if |words| < |extras| then [extras[|words|]] else [])
  {
    assert (words + [w])[..|words|] == words;
  }

  /** Words of equal length add up to their count times it */
  lemma {:induction false} TotalLengthOfWords(initials: Bytes, vowels: Bytes, n: nat, count: nat, tape: nat -> nat, k: nat)
    requires |initials| > 0 && |vowels| > 0
    ensures TotalLength(Words(initials, vowels, n, count, tape, k)) == count * n
  {
    if count > 0 {
      var words := Words(initials, vowels, n, count, tape, k);
      assert words[..count - 1] == Words(initials, vowels, n, count - 1, tape, k);
      TotalLengthOfWords(initials, vowels, n, count - 1, tape, k);
      assert |words[count - 1]| == n;
    }
  }

  /** The buffer holds every word and one extra character per word while
      extras last */
  lemma {:induction false} InterleaveLength(words: seq<Bytes>, extras: Bytes)
    ensures |Interleave(words, extras)| == TotalLength(words) + Min(|words|, |extras|)
  {
    if |words| > 0 {
      InterleaveLength(words[..|words| - 1], extras);
    }
  }

  /** Every byte of the buffer comes from a word or from the extras */
  lemma {:induction false} InterleaveFrom(words: seq<Bytes>, extras: Bytes, allowed: Bytes)
    requires forall i, j :: 0 <= i < |words| && 0 <= j < |words[i]| ==> words[i][j] in allowed
    requires forall j :: 0 <= j < |extras| ==> extras[j] in allowed
    ensures forall j :: 0 <= j < |Interleave(words, extras)| ==> Interleave(words, extras)[j] in allowed
  {
    if |words| > 0 {
      var i := |words| - 1;
      InterleaveFrom(words[..i], extras, allowed);
      var tail := if i < |extras| then [extras[i]] else [];
      var r := Interleave(words, extras);
      var front := Interleave(words[..i], extras);
      assert r == front + words[i] + tail;
      forall j | 0 <= j < |r|
        ensures r[j] in allowed
      {
        if j < |front| {
          assert r[j] == front[j];
        } else if j < |front| + |words[i]| {
          assert r[j] == words[i][j - |front|];
        } else {
          assert r[j] == tail[j - |front| - |words[i]|];
        }
      }
    }
  }

  /** The finished buffer has exactly the length asked for */
  lemma PasswordLength(initials: Bytes, vowels: Bytes, pool: Bytes, passwordLength: nat, numPseudoWords: int,
                       wordTape: nat -> nat, wordStart: nat, tape: nat -> nat, start: nat)
    requires |initials| > 0 && |vowels| > 0 && |pool| > 0 && numPseudoWords != 0
    ensures |Assemble(initials, vowels, pool, passwordLength, numPseudoWords, wordTape, wordStart, tape, start).combined| == passwordLength
  {
  }

  /** Every character of the password is an initial consonant, a vowel, a
      symbol or a digit */
  lemma PasswordCharset(initials: Bytes, vowels: Bytes, pool: Bytes, passwordLength: nat, numPseudoWords: int,
                        wordTape: nat -> nat, wordStart: nat, tape: nat -> nat, start: nat)
    requires |initials| > 0 && |vowels| > 0 && |pool| > 0 && numPseudoWords != 0
    ensures var p := Assemble(initials, vowels, pool, passwordLength, numPseudoWords, wordTape, wordStart, tape, start).combined;
            forall j :: 0 <= j < |p| ==> p[j] in initials || p[j] in vowels || p[j] in pool
  {
    var a := Assemble(initials, vowels, pool, passwordLength, numPseudoWords, wordTape, wordStart, tape, start);
    var n := WordLength(passwordLength, numPseudoWords);
    var allowed := initials + vowels + pool;
    WordsFrom(initials, vowels, pool, n, numPseudoWords, wordTape, wordStart);
    forall j | 0 <= j < |a.extras|
      ensures a.extras[j] in allowed
    {
      var c := Draw(pool, tape, start + j);
      assert a.extras[j] == c && c in pool;
    }
    InterleaveFrom(a.words, a.extras, allowed);
    FitFrom(Interleave(a.words, a.extras), passwordLength, pool, tape, start + |a.extras|, allowed);
  }

  lemma WordsFrom(initials: Bytes, vowels: Bytes, pool: Bytes, n: nat, count: int, tape: nat -> nat, k: nat)
    requires |initials| > 0 && |vowels| > 0
    ensures var words := Words(initials, vowels, n, count, tape, k);
            forall i, j :: 0 <= i < |words| && 0 <= j < |words[i]| ==> words[i][j] in initials + vowels + pool
  {
    var words := Words(initials, vowels, n, count, tape, k);
    forall i, j | 0 <= i < |words| && 0 <= j < |words[i]|
      ensures words[i][j] in initials + vowels + pool
    {
      WordLetter(initials, vowels, n, false, false, tape, k + i * n, j);
    }
  }

  lemma FitFrom(combined: Bytes, length: nat, pool: Bytes, tape: nat -> nat, k: nat, allowed: Bytes)
    requires |pool| > 0
    requires forall j :: 0 <= j < |combined| ==> combined[j] in allowed
    requires forall c :: c in pool ==> c in allowed
    ensures var p := Fit(combined, length, pool, tape, k);
            forall j :: 0 <= j < |p| ==> p[j] in allowed
  {
    var p := Fit(combined, length, pool, tape, k);
    forall j | 0 <= j < |p|
      ensures p[j] in allowed
    {
      if |combined| < length && j >= |combined| {
        var fillers := Fillers(pool, length - |combined|, tape, k);
        assert p[j] == fillers[j - |combined|];
        assert fillers[j - |combined|] == Draw(pool, tape, k + (j - |combined|));
      } else {
        assert p[j] == combined[j];
      }
    }
  }

  /** With at least one word and no more words than characters, the words
      and extras fill the password exactly: the words take
      `password_length // num_pseudo_words` characters each, one extra
      follows each of the first `password_length % num_pseudo_words` words,
      and nothing is padded or cut */
  lemma ExactFit(initials: Bytes, vowels: Bytes, pool: Bytes, passwordLength: nat, numPseudoWords: int,
                 wordTape: nat -> nat, wordStart: nat, tape: nat -> nat, start: nat)
    requires |initials| > 0 && |vowels| > 0 && |pool| > 0
    requires 1 <= numPseudoWords <= passwordLength
    ensures var a := Assemble(initials, vowels, pool, passwordLength, numPseudoWords, wordTape, wordStart, tape, start);
            && (forall i :: 0 <= i < |a.words| ==> |a.words[i]| == passwordLength / numPseudoWords)
            && |a.extras| == passwordLength % numPseudoWords
            && a.combined == Interleave(a.words, a.extras)
  {
    var k := numPseudoWords;
    var n := WordLength(passwordLength, k);
    DivMod(passwordLength, k);
    assert n == passwordLength / k;
    TotalLengthOfWords(initials, vowels, n, k, wordTape, wordStart);
    var a := Assemble(initials, vowels, pool, passwordLength, k, wordTape, wordStart, tape, start);
    InterleaveLength(a.words, a.extras);
  }

  lemma DivMod(a: nat, b: nat)
    requires 1 <= b <= a
    ensures a == b * (a / b) + a % b && a / b >= 1 && a % b < b
  {
  }

  /** With more words than characters each word is one letter and the
      password is the first `password_length` of them: no symbol or digit */
  lemma ManyWords(initials: Bytes, vowels: Bytes, pool: Bytes, passwordLength: nat, numPseudoWords: int,
                  wordTape: nat -> nat, wordStart: nat, tape: nat -> nat, start: nat)
    requires |initials| > 0 && |vowels| > 0 && |pool| > 0
    requires numPseudoWords > passwordLength
    ensures var a := Assemble(initials, vowels, pool, passwordLength, numPseudoWords, wordTape, wordStart, tape, start);
            && a.extras == [] && |a.combined| == passwordLength
            && forall j :: 0 <= j < passwordLength ==> a.combined[j] == a.words[j][0]
  {
    var k := numPseudoWords;
    assert WordLength(passwordLength, k) == 1;
    TotalLengthOfWords(initials, vowels, 1, k, wordTape, wordStart);
    var a := Assemble(initials, vowels, pool, passwordLength, k, wordTape, wordStart, tape, start);
    InterleaveOfLetters(a.words, passwordLength);
  }

  lemma {:induction false} InterleaveOfLetters(words: seq<Bytes>, m: nat)
    requires forall i :: 0 <= i < |words| ==> |words[i]| == 1
    requires m <= |words|
    ensures |Interleave(words, [])| == |words|
    ensures forall j :: 0 <= j < m ==> Interleave(words, [])[j] == words[j][0]
  {
    if |words| > 0 {
      var i := |words| - 1;
      var front := words[..i];
      InterleaveOfLetters(front, Min(m, i));
      assert Interleave(words, []) == Interleave(front, []) + words[i];
      forall j | 0 <= j < m
        ensures Interleave(words, [])[j] == words[j][0]
      {
        if j < i {
          assert front[j] == words[j];
        }
      }
    }
  }

  /** With a negative word count there are no words: the extras are drawn and
      discarded, and the password is padded entirely from the next draws */
  lemma NoWords(initials: Bytes, vowels: Bytes, pool: Bytes, passwordLength: nat, numPseudoWords: int,
                wordTape: nat -> nat, wordStart: nat, tape: nat -> nat, start: nat)
    requires |initials| > 0 && |vowels| > 0 && |pool| > 0
    requires numPseudoWords < 0
    ensures var a := Assemble(initials, vowels, pool, passwordLength, numPseudoWords, wordTape, wordStart, tape, start);
            && a.words == [] && |a.extras| == passwordLength
            && a.combined == Fillers(pool, passwordLength, tape, start + passwordLength)
  {
  }

  datatype PasswordOutcome =
    | Generated(password: string)
    | ZeroDivisionError   // `password_length // 0`
    | TypeError           // item assignment to an immutable `bytes` word

  /** `PasswordGenerator`: its own random generator, a word generator with
      another one, and the symbol and digit bytes */
  class PasswordGenerator {
    const rng: Rng
    const wordGenerator: WordGenerator
    const symbols: Bytes
    const digits: Bytes

    predicate Valid() {
      wordGenerator.Valid() && rng != wordGenerator.rng && |symbols + digits| > 0
    }

    /** `symbols` and `digits` are `string.punctuation` and `string.digits` as bytes */
    constructor (wordGenerator: WordGenerator, rng: Rng)
      requires wordGenerator.Valid() && rng != wordGenerator.rng
      ensures Valid()
      ensures this.wordGenerator == wordGenerator && this.rng == rng
      ensures symbols == Utf8Encode(Punctuation) && digits == Utf8Encode(Digits)
    {
      this.rng := rng;
      this.wordGenerator := wordGenerator;
      symbols := Utf8Encode(Punctuation);
      digits := Utf8Encode(Digits);
    }

    /** The words, the extras and the buffer a password is assembled from, for
        a positive length and a non-zero word count */
    function Planned(passwordLength: nat, numPseudoWords: int, wordStart: nat, start: nat): Assembly
      requires Valid() && numPseudoWords != 0
    {
      Assemble(wordGenerator.initials, wordGenerator.vowels, symbols + digits, passwordLength, numPseudoWords,
               wordGenerator.rng.tape, wordStart, rng.tape, start)
    }

    /** `[self.word_generator.generate_word(n).encode('utf-8') for _ in range(count)]` */
    method PseudoWords(n: nat, count: int) returns (words: seq<Bytes>)
      requires Valid()
      modifies wordGenerator.rng
      ensures words == Words(wordGenerator.initials, wordGenerator.vowels, n, count, wordGenerator.rng.tape, old(wordGenerator.rng.drawn))
      ensures wordGenerator.rng.drawn == old(wordGenerator.rng.drawn) + Max(0, count) * n
    {
      var initials, vowels := wordGenerator.initials, wordGenerator.vowels;
      assert wordGenerator.Valid();
      ghost var tape, start := wordGenerator.rng.tape, wordGenerator.rng.drawn;
      words := [];
      for i := 0 to Max(0, count)
        invariant words == Words(initials, vowels, n, i, tape, start)
        invariant wordGenerator.rng.drawn == start + i * n
      {
        var word := wordGenerator.GenerateWord(n, false, false);
        ghost var w := PseudoWord(initials, vowels, n, false, false, tape, start + i * n);
        WordAscii(initials, vowels, n, false, false, tape, start + i * n);
        EncodeDecode(w);
        assert Words(initials, vowels, n, i + 1, tape, start) == words + [w];
        words := words + [Utf8Encode(word)];
        assert start + i * n + n == start + (i + 1) * n;
      }
    }

    /** `[self.rng.choice(self.symbols + self.digits) for _ in range(count)]` */
    method ExtraCharacters(count: int) returns (extras: Bytes)
      requires Valid()
      modifies rng
      ensures extras == Fillers(symbols + digits, count, rng.tape, old(rng.drawn))
      ensures rng.drawn == old(rng.drawn) + Max(0, count)
    {
      ghost var start := rng.drawn;
      extras := [];
      for j := 0 to Max(0, count)
        invariant extras == Fillers(symbols + digits, j, rng.tape, start)
        invariant rng.drawn == start + j
      {
        var c := rng.Choice(symbols + digits);
        extras := extras + [c];
      }
    }

    /** The words, the extra characters and the padded or truncated buffer */
    method Combine(passwordLength: nat, numPseudoWords: int) returns (a: Assembly)
      requires Valid() && numPseudoWords != 0
      modifies rng, wordGenerator.rng
      ensures a == Planned(passwordLength, numPseudoWords, old(wordGenerator.rng.drawn), old(rng.drawn))
      ensures wordGenerator.rng.drawn
              == old(wordGenerator.rng.drawn) + Max(0, numPseudoWords) * WordLength(passwordLength, numPseudoWords)
      ensures rng.drawn == old(rng.drawn) + PasswordDraws(a, passwordLength)
    {
      ghost var wordStart, start := wordGenerator.rng.drawn, rng.drawn;
      ghost var pool, wordTape, tape := symbols + digits, wordGenerator.rng.tape, rng.tape;
      var n := WordLength(passwordLength, numPseudoWords);
      var words := PseudoWords(n, numPseudoWords);
      ghost var wordsDrawn := wordGenerator.rng.drawn;
      var remaining := passwordLength - TotalLength(words);
      var extras := ExtraCharacters(remaining);
      ghost var padStart := rng.drawn;
      assert wordGenerator.rng.drawn == wordsDrawn && padStart == start + |extras|;
      var combined := InterleaveWords(words, extras);
      ghost var interleaved := combined;
      combined := PadAndTruncate(combined, passwordLength);
      assert combined == Fit(interleaved, passwordLength, pool, tape, padStart);
      a := Assembly(words, extras, combined);
      assert a == Assemble(wordGenerator.initials, wordGenerator.vowels, pool, passwordLength, numPseudoWords,
                           wordTape, wordStart, tape, start);
    }

    /** Each word followed by the extra character of the same index while
        there is one */
    static method InterleaveWords(words: seq<Bytes>, extras: Bytes) returns (combined: Bytes)
      ensures combined == Interleave(words, extras)
      ensures |combined| == TotalLength(words) + Min(|words|, |extras|)
    {
      combined := [];
      for i := 0 to |words|
        invariant combined == Interleave(words[..i], extras)
      {
        InterleaveStep(words[..i], words[i], extras);
        assert words[..i + 1] == words[..i] + [words[i]];
        combined := combined + words[i];
        if i < |extras| {
          combined := combined + [extras[i]];
        }
      }
      assert words[..|words|] == words;
      InterleaveLength(words, extras);
    }

    /** One filler if the buffer is short, more fillers until
        it has the length asked for, then the last bytes removed while it is
        too long */
    method PadAndTruncate(buffer: Bytes, passwordLength: nat) returns (combined: Bytes)
      requires Valid()
      modifies rng
      ensures combined == Fit(buffer, passwordLength, symbols + digits, rng.tape, old(rng.drawn))
      ensures rng.drawn == old(rng.drawn) + Max(0, passwordLength - |buffer|)
    {
      var pool := symbols + digits;
      ghost var tape, start := rng.tape, rng.drawn;
      combined := buffer;
      if |combined| < passwordLength {
        var c := rng.Choice(pool);
        combined := combined + [c];
      }
      while |combined| < passwordLength
        invariant |buffer| <= |combined|
        invariant combined == buffer + Fillers(pool, |combined| - |buffer|, tape, start)
        invariant rng.drawn == start + (|combined| - |buffer|)
        invariant |buffer| < passwordLength ==> |combined| <= passwordLength
        invariant |buffer| >= passwordLength ==> combined == buffer
        decreases passwordLength - |combined|
      {
        var c := rng.Choice(pool);
        combined := combined + [c];
      }
      ghost var padded := combined;
      assert |buffer| < passwordLength ==> |padded| == passwordLength;
      assert |buffer| >= passwordLength ==> padded == buffer;
      while |combined| > passwordLength
        invariant |combined| <= |padded| && combined == padded[..|combined|]
        invariant passwordLength <= |padded| ==> passwordLength <= |combined|
        decreases |combined|
      {
        combined := combined[..|combined| - 1];
      }
    }

    /** `generate_password` with the word buffers zeroed as mutable copies,
        which is evidently what the zeroing loop at its end was meant to do */
    method GeneratePassword(passwordLength: int, numPseudoWords: int) returns (r: PasswordOutcome)
      requires Valid()
      modifies rng, wordGenerator.rng
      ensures passwordLength < 1 ==>
                r == Generated("") && rng.drawn == old(rng.drawn) && wordGenerator.rng.drawn == old(wordGenerator.rng.drawn)
      ensures passwordLength >= 1 && numPseudoWords == 0 ==>
                r == ZeroDivisionError && rng.drawn == old(rng.drawn) && wordGenerator.rng.drawn == old(wordGenerator.rng.drawn)
      ensures passwordLength >= 1 && numPseudoWords != 0 ==>
                r == Generated(Decode(Planned(passwordLength, numPseudoWords, old(wordGenerator.rng.drawn), old(rng.drawn)).combined))
    {
      if passwordLength < 1 {
        return Generated("");
      }
      if numPseudoWords == 0 {
        return ZeroDivisionError;
      }
      var a := Combine(passwordLength, numPseudoWords);
      var combined, words, extras := a.combined, a.words, a.extras;
      var password := Decode(combined);
      // Zero out sensitive byte arrays
      for i := 0 to |combined|
        invariant |combined| == |a.combined|
        invariant forall j :: 0 <= j < i ==> combined[j] == 0
      {
        combined := combined[i := 0];
      }
      for w := 0 to |words|
        invariant |words| == |a.words|
        invariant forall v, j :: 0 <= v < w && 0 <= j < |words[v]| ==> words[v][j] == 0
      {
        var pw := words[w];
        for i := 0 to |pw|
          invariant |pw| == |words[w]|
          invariant forall j :: 0 <= j < i ==> pw[j] == 0
        {
          pw := pw[i := 0];
        }
        words := words[w := pw];
      }
      for i := 0 to |extras|
        invariant |extras| == |a.extras|
        invariant forall j :: 0 <= j < i ==> extras[j] == 0
      {
        extras := extras[i := 0];
      }
      r := Generated(password);
    }

    /** `generate_password` as written: the words are immutable `bytes`, so
        `pw[i] = 0` raises on the first non-empty one, after the password was
        decoded; it returns normally only when there are no words */
    method GeneratePasswordAsWritten(passwordLength: int, numPseudoWords: int) returns (r: PasswordOutcome)
      requires Valid()
      modifies rng, wordGenerator.rng
      ensures passwordLength < 1 ==> r == Generated("")
      ensures passwordLength >= 1 && numPseudoWords == 0 ==> r == ZeroDivisionError
      ensures passwordLength >= 1 && numPseudoWords > 0 ==> r == TypeError
      ensures passwordLength >= 1 && numPseudoWords < 0 ==>
                r == Generated(Decode(Planned(passwordLength, numPseudoWords, old(wordGenerator.rng.drawn), old(rng.drawn)).combined))
    {
      if passwordLength < 1 {
        return Generated("");
      }
      if numPseudoWords == 0 {
        return ZeroDivisionError;
      }
      var a := Combine(passwordLength, numPseudoWords);
      var combined, words, extras := a.combined, a.words, a.extras;
      var password := Decode(combined);
      for i := 0 to |combined|
        invariant |combined| == |a.combined|
        invariant forall j :: 0 <= j < i ==> combined[j] == 0
      {
        combined := combined[i := 0];
      }
      assert numPseudoWords > 0 ==> |words| > 0 && |words[0]| == WordLength(passwordLength, numPseudoWords);
      for w := 0 to |words|
        invariant w > 0 ==> numPseudoWords < 0
      {
        if |words[w]| > 0 {
          return TypeError;
        }
      }
      for i := 0 to |extras|
        invariant |extras| == |a.extras|
        invariant forall j :: 0 <= j < i ==> extras[j] == 0
      {
        extras := extras[i := 0];
      }
      r := Generated(password);
    }
  }
}
