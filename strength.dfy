/** The password strength scorer (src/strength.py): points for length,
    letter case, digits and punctuation, added up to a score of 0 to 7 and
    mapped to one of five labels. Character classes are the ASCII ones. */
module Strength {
  import opened Bytes

  predicate IsUpper(c: char) { 'A' <= c <= 'Z' }
  predicate IsLower(c: char) { 'a' <= c <= 'z' }
  predicate IsDigit(c: char) { '0' <= c <= '9' }
  /** `c in string.punctuation` */
  predicate IsPunctuation(c: char) { c in Punctuation }

  /** `any(char.isupper() for char in password)` and its three siblings */
  predicate HasUpper(s: string) { exists i :: 0 <= i < |s| && IsUpper(s[i]) }
  predicate HasLower(s: string) { exists i :: 0 <= i < |s| && IsLower(s[i]) }
  predicate HasDigit(s: string) { exists i :: 0 <= i < |s| && IsDigit(s[i]) }
  predicate HasPunctuation(s: string) { exists i :: 0 <= i < |s| && IsPunctuation(s[i]) }

  /** Two points from eight characters on, one for six or seven */
  function LengthPoints(length: nat): nat {
    if length >= 8 then 2 else if length >= 6 then 1 else 0
  }

  /** Two points for both cases, one for only one of them */
  function CasePoints(upper: bool, lower: bool): nat {
    if upper && lower then 2 else if upper || lower then 1 else 0
  }

  /** The score `get_password_strength` adds up */
  function Score(password: string): (score: nat)
    ensures score <= 7
  {
    LengthPoints(|password|)
    + CasePoints(HasUpper(password), HasLower(password))
    + (if HasDigit(password) then 1 else 0)
    + (if HasPunctuation(password) then 2 else 0)
  }

  const Labels: seq<string> := ["Very Weak", "Weak", "Moderate", "Strong", "Very Strong"]

  /** The label of a score: 0, then the bands 1-2, 3-4, 5-6 and above */
  function Label(score: nat): (name: string)
    ensures name in Labels
  {
    if score == 0 then "Very Weak"
    else if score <= 2 then "Weak"
    else if score <= 4 then "Moderate"
    else if score <= 6 then "Strong"
    else "Very Strong"
  }

  /** `PasswordStrength(password)` */
  class PasswordStrength {
    const password: string

    constructor (password: string)
      ensures this.password == password
    {
      this.password := password;
    }

    /** `get_password_strength()`: the score built up criterion by criterion,
        then its label */
    method GetPasswordStrength() returns (strength: string)
      ensures strength == Label(Score(password))
    {
      var score := 0;
      var length := |password|;
      if length >= 8 {
        score := score + 2;
      } else if length >= 6 {
        score := score + 1;
      }
      var hasUppercase := HasUpper(password);
      var hasLowercase := HasLower(password);
      if hasUppercase && hasLowercase {
        score := score + 2;
      } else if hasUppercase || hasLowercase {
        score := score + 1;
      }
      var hasDigit := HasDigit(password);
      if hasDigit {
        score := score + 1;
      }
      var hasSpecialChar := HasPunctuation(password);
      if hasSpecialChar {
        score := score + 2;
      }
      if score == 0 {
        strength := "Very Weak";
      } else if score <= 2 {
        strength := "Weak";
      } else if score <= 4 {
        strength := "Moderate";
      } else if score <= 6 {
        strength := "Strong";
      } else {
        strength := "Very Strong";
      }
    }
  }

  // ---------------------------------------------------------------------
  // Properties

  /** Each label covers exactly its band of scores */
  lemma LabelBands(score: nat)
    ensures Label(score) == "Very Weak" <==> score == 0
    ensures Label(score) == "Weak" <==> 1 <= score <= 2
    ensures Label(score) == "Moderate" <==> 3 <= score <= 4
    ensures Label(score) == "Strong" <==> 5 <= score <= 6
    ensures Label(score) == "Very Strong" <==> score >= 7
  {
    assert "Very Weak" != "Weak" && "Very Weak" != "Moderate" && "Very Weak" != "Strong" && "Very Weak" != "Very Strong";
    assert "Weak" != "Moderate" && "Weak" != "Strong" && "Weak" != "Very Strong";
    assert "Moderate" != "Strong" && "Moderate" != "Very Strong";
    assert "Strong" != "Very Strong";
  }

  /** A password is very weak exactly when it is shorter than six characters
      and has no letter, digit or punctuation */
  lemma VeryWeakIff(password: string)
    ensures Label(Score(password)) == "Very Weak"
            <==> |password| < 6 && !HasUpper(password) && !HasLower(password)
                 && !HasDigit(password) && !HasPunctuation(password)
  {
    LabelBands(Score(password));
  }

  /** A password is very strong exactly when it meets every criterion in
      full: eight characters, both cases, a digit and punctuation */
  lemma VeryStrongIff(password: string)
    ensures Label(Score(password)) == "Very Strong"
            <==> |password| >= 8 && HasUpper(password) && HasLower(password)
                 && HasDigit(password) && HasPunctuation(password)
  {
    LabelBands(Score(password));
  }

  /** The empty password scores nothing */
  lemma EmptyPassword()
    ensures Score("") == 0 && Label(Score("")) == "Very Weak"
  {
  }

  /** A character class present in `s` stays present in any extension */
  lemma {:induction false} HasAppend(s: string, t: string)
    ensures HasUpper(s) ==> HasUpper(s + t)
    ensures HasLower(s) ==> HasLower(s + t)
    ensures HasDigit(s) ==> HasDigit(s + t)
    ensures HasPunctuation(s) ==> HasPunctuation(s + t)
  {
    if HasUpper(s) {
      var i :| 0 <= i < |s| && IsUpper(s[i]);
      assert (s + t)[i] == s[i];
    }
    if HasLower(s) {
      var i :| 0 <= i < |s| && IsLower(s[i]);
      assert (s + t)[i] == s[i];
    }
    if HasDigit(s) {
      var i :| 0 <= i < |s| && IsDigit(s[i]);
      assert (s + t)[i] == s[i];
    }
    if HasPunctuation(s) {
      var i :| 0 <= i < |s| && IsPunctuation(s[i]);
      assert (s + t)[i] == s[i];
    }
  }

  /** Appending characters never lowers the score */
  lemma {:induction false} ScoreMonotone(s: string, t: string)
    ensures Score(s) <= Score(s + t)
  {
    HasAppend(s, t);
  }
}
