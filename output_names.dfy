/** How both ciphers name their output files: the default names derived with
    `os.path.splitext`, and, when the caller does not allow overriding, the
    loop that renumbers the name until it finds one that does not exist. The
    two cipher files carry the same code for this. */
module OutputNames {
  import opened Paths
  import opened Files

  /** `os.path.splitext(p)[0]` */
  function Stem(p: Path): Path {
    Splitext(p).0
  }

  /** Name of the encrypted file when none is given: the input's extension
      replaced by ".enc" */
  function DefaultEncryptedName(inName: Path): Path {
    Stem(inName) + ".enc"
  }

  /** Name of the decrypted file when none is given: the input without its
      extension */
  function DefaultDecryptedName(inName: Path): Path {
    Stem(inName)
  }

  /** `if not out_filename: out_filename = default` -- the empty string
      stands for both `None` and "" */
  function OutputName(given: Path, default: Path): (r: Path)
    ensures given != "" ==> r == given
  {
    if given == "" then default else given
  }

  /** The i-th renumbered candidate, f"{splitext(in_filename)[0]}.enc.{i}";
      note that it derives from the input name even when an output name was given */
  function NumberedName(inName: Path, i: nat): Path {
    Stem(inName) + ".enc." + NatToString(i)
  }

  lemma NumberedNameInjective(inName: Path, i: nat, j: nat)
    requires NumberedName(inName, i) == NumberedName(inName, j)
    ensures i == j
  {
    var prefix := Stem(inName) + ".enc.";
    assert NumberedName(inName, i) == prefix + NatToString(i);
    assert NatToString(i) == NumberedName(inName, i)[|prefix|..];
    assert NatToString(j) == NumberedName(inName, j)[|prefix|..];
    NatToStringInjective(i, j);
  }

  /** The first `n` candidates */
  function Candidates(inName: Path, n: nat): set<Path> {
    set i | 1 <= i <= n :: NumberedName(inName, i)
  }

  lemma {:induction false} CandidatesSize(inName: Path, n: nat)
    ensures |Candidates(inName, n)| == n
  {
    if n > 0 {
      CandidatesSize(inName, n - 1);
      assert Candidates(inName, n) == Candidates(inName, n - 1) + {NumberedName(inName, n)};
      if NumberedName(inName, n) in Candidates(inName, n - 1) {
        var i :| 1 <= i <= n - 1 && NumberedName(inName, i) == NumberedName(inName, n);
        NumberedNameInjective(inName, i, n);
      }
    }
  }

  /** A finite set of existing paths holds at most as many candidates as it
      has members: the renumbering loop cannot run forever. */
  lemma ExistingCandidatesBound(existing: set<Path>, inName: Path, n: nat)
    requires forall i :: 1 <= i <= n ==> NumberedName(inName, i) in existing
    ensures n <= |existing|
  {
    CandidatesSize(inName, n);
    var found := Candidates(inName, n);
    assert existing == found + (existing - found);
    assert |existing| == |found| + |existing - found|;
  }

  /** `name` is the first free path in the order the loop tries them: the
      initial name, then candidate 1, 2, ... */
  ghost predicate FirstFree(existing: set<Path>, inName: Path, first: Path, name: Path) {
    && name !in existing
    && (name == first
        || (first in existing
            && exists k :: k >= 1 && name == NumberedName(inName, k)
                            && forall i :: 1 <= i < k ==> NumberedName(inName, i) in existing))
  }

  /** The `while os.path.exists(out_filename)` loop with counter `i`: returns
      the first name that does not exist. */
  method ChooseFreeName(existing: set<Path>, inName: Path, first: Path) returns (name: Path)
    ensures FirstFree(existing, inName, first, name)
  {
    name := first;
    var i := 1;
    while name in existing
      invariant i >= 1
      invariant i == 1 ==> name == first
      invariant i > 1 ==> first in existing && name == NumberedName(inName, i - 1)
      invariant forall j :: 1 <= j < i - 1 ==> NumberedName(inName, j) in existing
      invariant i - 2 <= |existing|
      decreases |existing| + 2 - i
    {
      if i > 1 {
        ExistingCandidatesBound(existing, inName, i - 1);
      }
      name := NumberedName(inName, i);
      i := i + 1;
    }
    if i > 1 {
      assert name == NumberedName(inName, i - 1);
    }
  }

  /** The output path and the files before writing: with `override`, the
      first name is used and an existing file by that name is removed; without
      it, nothing is removed and the first free name is chosen. */
  method PrepareOutput(fs: FileMap, inName: Path, first: Path, override: bool)
    returns (fs': FileMap, target: Path)
    ensures override ==> target == first && fs' == fs - {first}
    ensures !override ==> fs' == fs && FirstFree(fs.Keys, inName, first, target)
  {
    if !override {
      target := ChooseFreeName(fs.Keys, inName, first);
      fs' := fs;
    } else {
      target := first;
      fs' := if first in fs then fs - {first} else fs;
    }
  }

  /** Decrypting under the default name undoes the default encrypted name:
      the ".enc" that encryption appended is split off again, provided the
      input's stem has a final component that is not all dots. */
  lemma DefaultNamesRoundTrip(inName: Path)
    requires NameHasNonDot(Stem(inName))
    ensures DefaultDecryptedName(DefaultEncryptedName(inName)) == Stem(inName)
  {
    SplitextAppended(Stem(inName), ".enc");
  }

  /** A renumbered file decrypts by default to the stem with ".enc" kept:
      "notes.enc.2" becomes "notes.enc". */
  lemma DecryptedNameOfNumbered(inName: Path, i: nat)
    ensures DefaultDecryptedName(NumberedName(inName, i)) == Stem(inName) + ".enc"
  {
    var root := Stem(inName) + ".enc";
    var ext := "." + NatToString(i);
    assert NumberedName(inName, i) == root + ext;
    assert root[|root| - 1] == 'c';
    var sep := RFind(root, '/');
    assert sep < |root| - 1;
    assert NameHasNonDot(root);
    SplitextAppended(root, ext);
  }
}
