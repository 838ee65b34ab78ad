/**
 * The five input validators of the registration form. Each is written twice:
 * once as a direct reading of its regular expression (a predicate with the
 * regex's own structure, ghost where it quantifies over match positions: where
 * the match starts, where each group ends), and once as a plain scanning function. A lemma or an `ensures` ties the
 * two together.
 */
module Validators {
  import opened Wrappers
  import opened Text

  /** A left-to-right scan that stops at the first character failing `p`. */
  function ScanAll(s: string, p: char -> bool): (ok: bool)
    ensures ok <==> forall i :: 0 <= i < |s| ==> p(s[i])
  {
    if s == [] then true
    else
      assert forall i :: 1 <= i < |s| ==> s[i] == s[1..][i - 1];
      p(s[0]) && ScanAll(s[1..], p)
  }

  // ---------------------------------------------------------------------------
  // validateUserName: /^[a-z0-9_]{5,20}$/

  predicate IsUserNameChar(c: char) { IsLower(c) || IsDigit(c) || c == '_' }

  /** The regex read literally: the whole string is 5 to 20 characters of the class. */
  predicate ValidUserName(s: string) {
    5 <= |s| <= 20 && forall i :: 0 <= i < |s| ==> IsUserNameChar(s[i])
  }

  /** `validateUserName`: the length test, then one scan over the characters. */
  function ValidateUserName(s: string): (ok: bool)
    ensures ok <==> ValidUserName(s)
  {
    5 <= |s| <= 20 && ScanAll(s, IsUserNameChar)
  }

  /**
   * A user name the validator accepts passes the schema untouched: `trim`
   * leaves it as it is, it is non-empty (`required`) and at most 20 long
   * (`maxlength: 20`), and `lowercase` would not change it either.
   */
  lemma UserNameFitsSchema(s: string)
    requires ValidUserName(s)
    ensures Trim(s) == s
    ensures 0 < |Trim(s)| <= 20
    ensures IsLowerCased(s)
  {
    TrimWithoutWhitespace(s);
  }

  // ---------------------------------------------------------------------------
  // validateName: /^[a-zA-Z ]{2,50}$/

  predicate IsNameChar(c: char) { IsAsciiLetter(c) || c == ' ' }

  /** The regex read literally: the whole string is 2 to 50 letters or spaces. */
  predicate ValidName(s: string) {
    2 <= |s| <= 50 && forall i :: 0 <= i < |s| ==> IsNameChar(s[i])
  }

  /** `validateName`: the length test, then one scan over the characters. */
  function ValidateName(s: string): (ok: bool)
    ensures ok <==> ValidName(s)
  {
    2 <= |s| <= 50 && ScanAll(s, IsNameChar)
  }

  /** An accepted name still meets `maxlength: 50` once the schema has trimmed it. */
  lemma NameFitsSchemaLength(s: string)
    requires ValidName(s)
    ensures |Trim(s)| <= 50
  {
  }

  /**
   * The name validator admits names made only of spaces; the schema's `trim`
   * then empties them, so they fail `required`.
   */
  lemma BlankNameIsValid()
    ensures ValidateName("  ")
    ensures Trim("  ") == ""
  {
    assert Trim("  ") == "";
  }

  // ---------------------------------------------------------------------------
  // validatePassword: /^(?=.*\d)(?=.*[a-z])(?=.*[A-Z])(?=.*[a-zA-Z]).{8,}$/

  /** `.*` can consume `s[..k]`: none of those characters is a line terminator. */
  predicate DotsUpTo(s: string, k: nat) {
    k < |s| && forall m :: 0 <= m < k ==> !IsLineTerminator(s[m])
  }

  /** The regex read literally: four lookaheads at position 0, then `.{8,}$`. */
  ghost predicate PasswordRegexMatches(s: string) {
    && (exists k: nat :: DotsUpTo(s, k) && IsDigit(s[k]))
    && (exists k: nat :: DotsUpTo(s, k) && IsLower(s[k]))
    && (exists k: nat :: DotsUpTo(s, k) && IsUpper(s[k]))
    && (exists k: nat :: DotsUpTo(s, k) && IsAsciiLetter(s[k]))
    && |s| >= 8
    && forall m :: 0 <= m < |s| ==> !IsLineTerminator(s[m])
  }

  predicate HasDigit(s: string) { exists i | 0 <= i < |s| :: IsDigit(s[i]) }
  predicate HasLower(s: string) { exists i | 0 <= i < |s| :: IsLower(s[i]) }
  predicate HasUpper(s: string) { exists i | 0 <= i < |s| :: IsUpper(s[i]) }

  /**
   * `validatePassword`: at least 8 characters, no line terminator, and at least
   * one digit, one lower-case and one upper-case ASCII letter. The letter
   * lookahead adds nothing: a lower-case letter is already a letter.
   */
  function ValidatePassword(s: string): (ok: bool)
    ensures ok <==> PasswordRegexMatches(s)
  {
    var ok := |s| >= 8 && (forall m | 0 <= m < |s| :: !IsLineTerminator(s[m]))
              && HasDigit(s) && HasLower(s) && HasUpper(s);
    assert ok ==> PasswordRegexMatches(s) by {
      if ok {
        var d :| 0 <= d < |s| && IsDigit(s[d]);
        var l :| 0 <= l < |s| && IsLower(s[l]);
        var u :| 0 <= u < |s| && IsUpper(s[u]);
        assert DotsUpTo(s, d) && DotsUpTo(s, l) && DotsUpTo(s, u);
        assert IsAsciiLetter(s[l]);
      }
    }
    ok
  }

  // ---------------------------------------------------------------------------
  // validateEmail: /^[^\s@]+@[^\s@]+\.[^\s@]+$/

  predicate IsEmailChar(c: char) { !IsWhitespace(c) && c != '@' }

  /** One `[^\s@]+` group. */
  predicate EmailRun(s: string) {
    |s| > 0 && forall i :: 0 <= i < |s| ==> IsEmailChar(s[i])
  }

  /** The regex matches with its `@` at index `a` and its `\.` at index `d`. */
  predicate EmailSplitAt(s: string, a: nat, d: nat) {
    && a < d < |s|
    && s[a] == '@' && s[d] == '.'
    && EmailRun(s[..a]) && EmailRun(s[a + 1..d]) && EmailRun(s[d + 1..])
  }

  ghost predicate EmailRegexMatches(s: string) {
    exists a: nat, d: nat :: EmailSplitAt(s, a, d)
  }

  /** The part after the `@`: space- and `@`-free, with a dot neither first nor last. */
  predicate EmailDomain(t: string) {
    && (forall i :: 0 <= i < |t| ==> IsEmailChar(t[i]))
    && exists d | 0 < d < |t| - 1 :: t[d] == '.'
  }

  /** `validateEmail`: split at the first `@` and check the two sides. */
  function ValidateEmail(s: string): (ok: bool)
    ensures ok <==> EmailRegexMatches(s)
  {
    match IndexOf(s, '@')
    case None =>
      assert forall k :: 0 <= k < |s| ==> s[k] != '@';
      false
    case Some(a) =>
      var ok := a > 0 && EmailRun(s[..a]) && EmailDomain(s[a + 1..]);
      assert ok <==> EmailRegexMatches(s) by {
        if ok {
          var t := s[a + 1..];
          var d :| 0 < d < |t| - 1 && t[d] == '.';
          assert t[..d] == s[a + 1..a + 1 + d];
          assert t[d + 1..] == s[a + 1 + d + 1..];
          assert EmailSplitAt(s, a, a + 1 + d);
        } else {
          EmailSplitIsAtFirstAt(s, a);
        }
      }
      ok
  }

  /** Any way the regex matches has its `@` at the first `@` of the string. */
  lemma EmailSplitIsAtFirstAt(s: string, a: nat)
    requires a < |s| && s[a] == '@' && '@' !in s[..a]
    ensures EmailRegexMatches(s) ==> a > 0 && EmailRun(s[..a]) && EmailDomain(s[a + 1..])
  {
    if a': nat, d: nat :| EmailSplitAt(s, a', d) {
      var t := s[a + 1..];
      var d' := d - a - 1;
      assert t[..d'] == s[a + 1..d];
      assert t[d' + 1..] == s[d + 1..];
      forall i | 0 <= i < |t|
        ensures IsEmailChar(t[i])
      {
        if i < d' {
          assert t[i] == s[a + 1..d][i];
        } else if i > d' {
          assert t[i] == s[d + 1..][i - d' - 1];
        }
      }
    }
  }

  /** The three runs and the two separators put back together give the address. */
  lemma EmailPartsJoin(s: string, a: nat, d: nat)
    requires EmailSplitAt(s, a, d)
    ensures s == s[..a] + "@" + s[a + 1..d] + "." + s[d + 1..]
  {
    assert s[a..d] == "@" + s[a + 1..d];
    assert s[d..] == "." + s[d + 1..];
    assert s == s[..a] + s[a..d] + s[d..];
  }

  /** An accepted address is `local + "@" + host + "." + tld`, each part a non-empty run. */
  lemma EmailShape(s: string)
    requires ValidateEmail(s)
    ensures exists a: nat, d: nat :: EmailSplitAt(s, a, d) && s == s[..a] + "@" + s[a + 1..d] + "." + s[d + 1..]
  {
    var a: nat, d: nat :| EmailSplitAt(s, a, d);
    EmailPartsJoin(s, a, d);
  }

  /** An accepted address holds exactly one `@`. */
  lemma EmailHasOneAt(s: string)
    requires ValidateEmail(s)
    ensures exists a: nat :: a < |s| && s[a] == '@' && forall k :: 0 <= k < |s| && s[k] == '@' ==> k == a
  {
    var a: nat, d: nat :| EmailSplitAt(s, a, d);
    forall k | 0 <= k < |s| && k != a
      ensures s[k] != '@'
    {
      if k < a {
        assert s[..a][k] == s[k];
      } else if k < d {
        assert s[a + 1..d][k - a - 1] == s[k];
      } else if d < k {
        assert s[d + 1..][k - d - 1] == s[k];
      }
    }
  }

  /** An accepted address is not emptied by the schema's `trim`, so `required` holds for it. */
  lemma EmailSurvivesTrim(s: string)
    requires ValidateEmail(s)
    ensures Trim(s) != ""
  {
    var a: nat, d: nat :| EmailSplitAt(s, a, d);
    assert !IsWhitespace(s[a]);
  }

  // ---------------------------------------------------------------------------
  // validateImageURL: /(http(s?):)([/|.|\w|\s|-])*\.(?:jpg|gif|png|jpeg)/  (unanchored)

  predicate IsUrlBodyChar(c: char) {
    c == '/' || c == '|' || c == '.' || IsWordChar(c) || IsWhitespace(c) || c == '-'
  }

  /** The group `(http(s?):)` occupies `s[i..k]`. */
  predicate SchemeAt(s: string, i: nat, k: nat) {
    || (k == i + 5 && OccursAt(s, i, "http:"))
    || (k == i + 6 && OccursAt(s, i, "https:"))
  }

  /** The repeated class `[/|.\w\s-]*` covers `s[k..j]`. */
  predicate BodyRun(s: string, k: nat, j: nat) {
    k <= j <= |s| && forall m :: k <= m < j ==> IsUrlBodyChar(s[m])
  }

  /** `\.(?:jpg|gif|png|jpeg)` starts at index `j`. */
  predicate ExtensionAt(s: string, j: nat) {
    OccursAt(s, j, ".jpg") || OccursAt(s, j, ".gif") || OccursAt(s, j, ".png") || OccursAt(s, j, ".jpeg")
  }

  /** The regex matches some substring starting at or after index `from`. */
  ghost predicate ImageUrlMatchFrom(s: string, from: nat) {
    exists i: nat, k: nat, j: nat :: from <= i && SchemeAt(s, i, k) && BodyRun(s, k, j) && ExtensionAt(s, j)
  }

  function SchemeLength(s: string, i: nat): (n: nat)
    ensures n == 0 || SchemeAt(s, i, i + n)
    ensures forall k :: SchemeAt(s, i, k) ==> n > 0 && k == i + n
  {
    assert OccursAt(s, i, "http:") ==> s[i + 4] == "http:"[4] == ':';
    assert OccursAt(s, i, "https:") ==> s[i + 4] == "https:"[4] == 's';
    if OccursAt(s, i, "http:") then 5
    else if OccursAt(s, i, "https:") then 6
    else 0
  }

  /** From index `k`, a run of body characters reaches an extension. */
  function ExtensionReachable(s: string, k: nat): (ok: bool)
    requires k <= |s|
    ensures ok <==> exists j: nat :: BodyRun(s, k, j) && ExtensionAt(s, j)
    decreases |s| - k
  {
    if ExtensionAt(s, k) then
      assert BodyRun(s, k, k);
      true
    else if k < |s| && IsUrlBodyChar(s[k]) then
      var ok := ExtensionReachable(s, k + 1);
      assert ok ==> exists j: nat :: BodyRun(s, k, j) && ExtensionAt(s, j) by {
        if ok {
          var j: nat :| BodyRun(s, k + 1, j) && ExtensionAt(s, j);
          assert BodyRun(s, k, j);
        }
      }
      assert (exists j: nat :: BodyRun(s, k, j) && ExtensionAt(s, j)) ==> ok by {
        if j: nat :| BodyRun(s, k, j) && ExtensionAt(s, j) {
          assert j != k;
          assert BodyRun(s, k + 1, j);
        }
      }
      ok
    else
      assert forall j: nat :: BodyRun(s, k, j) && j != k ==> IsUrlBodyChar(s[k]);
      false
  }

  /** Tries every start position from `from` on, as the unanchored regex does. */
  function MatchFrom(s: string, from: nat): (ok: bool)
    requires from <= |s|
    ensures ok <==> ImageUrlMatchFrom(s, from)
    decreases |s| - from
  {
    if from == |s| then
      assert !ImageUrlMatchFrom(s, from) by {
        if i: nat, k: nat, j: nat :| from <= i && SchemeAt(s, i, k) && BodyRun(s, k, j) && ExtensionAt(s, j) {
          assert OccursAt(s, i, "http:") || OccursAt(s, i, "https:");
        }
      }
      false
    else
      var n := SchemeLength(s, from);
      var here := n > 0 && from + n <= |s| && ExtensionReachable(s, from + n);
      var later := MatchFrom(s, from + 1);
      assert here ==> ImageUrlMatchFrom(s, from) by {
        if here {
          var j: nat :| BodyRun(s, from + n, j) && ExtensionAt(s, j);
          assert SchemeAt(s, from, from + n);
        }
      }
      assert later ==> ImageUrlMatchFrom(s, from);
      assert ImageUrlMatchFrom(s, from) ==> here || later by {
        if i: nat, k: nat, j: nat :| from <= i && SchemeAt(s, i, k) && BodyRun(s, k, j) && ExtensionAt(s, j) {
          if i == from {
            assert k == from + n;
            assert exists j': nat :: BodyRun(s, from + n, j') && ExtensionAt(s, j');
          } else {
            assert ImageUrlMatchFrom(s, from + 1);
          }
        }
      }
      here || later
  }

  /** `validateImageURL`: some substring is a scheme, body characters, and an image extension. */
  function ValidateImageURL(s: string): (ok: bool)
    ensures ok <==> ImageUrlMatchFrom(s, 0)
  {
    MatchFrom(s, 0)
  }
}
