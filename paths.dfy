/** POSIX path strings as `os.path.splitext` sees them, and the decimal
    rendering `str(i)` that the renumbering loop appends to a name. */
module Paths {

  type Path = string

  /** `s.rfind(c)`: the last index holding `c`, or -1 when there is none */
  function RFind(s: string, c: char): (r: int)
    ensures -1 <= r < |s|
    ensures r >= 0 ==> s[r] == c
    ensures forall j :: r < j < |s| ==> s[j] != c
  {
    if |s| == 0 then -1
    else if s[|s| - 1] == c then |s| - 1
    else RFind(s[..|s| - 1], c)
  }

  /** The last index holding `c` is what RFind returns */
  lemma RFindIs(s: string, c: char, k: int)
    requires -1 <= k < |s|
    requires k >= 0 ==> s[k] == c
    requires forall j :: k < j < |s| ==> s[j] != c
    ensures RFind(s, c) == k
  {
  }

  /** The final component of `p` (after its last '/') holds a character other
      than '.'; only then can `os.path.splitext` split off an extension. */
  ghost predicate NameHasNonDot(p: Path) {
    exists j :: RFind(p, '/') < j < |p| && p[j] != '.'
  }

  /** `os.path.splitext(p)` on POSIX: the extension starts at the last '.' of
      the final path component, provided that component does not consist of
      dots up to that point (so ".bashrc" has no extension); the two parts
      concatenate back to `p`, and a root that loses an extension has a
      final component with a non-dot. */
  function Splitext(p: Path): (r: (Path, string))
    ensures r.0 + r.1 == p
    ensures r.1 == [] || (r.1[0] == '.' && forall j :: 0 < j < |r.1| ==> r.1[j] != '.' && r.1[j] != '/')
    ensures r.1 != [] ==> NameHasNonDot(r.0)
  {
    var sep := RFind(p, '/');
    var dot := RFind(p, '.');
    if dot > sep && exists j :: sep < j < dot && p[j] != '.' then
      assert p[..dot] + p[dot..] == p;
      var j :| sep < j < dot && p[j] != '.';
      RFindIs(p[..dot], '/', sep);
      assert p[..dot][j] != '.';
      (p[..dot], p[dot..])
    else
      (p, "")
  }

  /** An extension made of one leading '.' and no further '.' or '/' is split
      off again from any root whose final component holds a non-dot. */
  lemma {:induction false} SplitextAppended(root: Path, ext: string)
    requires NameHasNonDot(root)
    requires |ext| >= 1 && ext[0] == '.'
    requires forall j :: 0 < j < |ext| ==> ext[j] != '.' && ext[j] != '/'
    ensures Splitext(root + ext) == (root, ext)
  {
    var p := root + ext;
    var sep := RFind(root, '/');
    RFindIs(p, '/', sep);
    RFindIs(p, '.', |root|);
    var j :| sep < j < |root| && root[j] != '.';
    assert p[j] != '.';
    assert p[..|root|] == root && p[|root|..] == ext;
  }

  // ---------------------------------------------------------------------
  // Decimal rendering

  function DigitChar(d: nat): (c: char)
    requires d < 10
    ensures '0' <= c <= '9' && c as int - '0' as int == d
  {
    ('0' as int + d) as char
  }

  /** `str(n)` for a natural number: its decimal digits, most significant first */
  function NatToString(n: nat): (s: string)
    ensures |s| >= 1
    ensures forall i :: 0 <= i < |s| ==> '0' <= s[i] <= '9'
  {
    if n < 10 then [DigitChar(n)] else NatToString(n / 10) + [DigitChar(n % 10)]
  }

  /** The value of a string of decimal digits */
  function DecimalValue(s: string): nat
    requires forall i :: 0 <= i < |s| ==> '0' <= s[i] <= '9'
  {
    if |s| == 0 then 0 else 10 * DecimalValue(s[..|s| - 1]) + (s[|s| - 1] as int - '0' as int)
  }

  lemma {:induction false} DecimalValueOfNatToString(n: nat)
    ensures DecimalValue(NatToString(n)) == n
  {
    var s := NatToString(n);
    if n < 10 {
      assert DecimalValue(s[..0]) == 0;
    } else {
      assert s[..|s| - 1] == NatToString(n / 10);
      DecimalValueOfNatToString(n / 10);
    }
  }

  /** Distinct counters give distinct decimal renderings */
  lemma NatToStringInjective(a: nat, b: nat)
    requires NatToString(a) == NatToString(b)
    ensures a == b
  {
    DecimalValueOfNatToString(a);
    DecimalValueOfNatToString(b);
  }
}
