/**
 * String primitives the handlers rely on, with JavaScript semantics:
 * the `\s` character class (which is also exactly the set `String.prototype.trim`
 * strips), `trim`, `toLowerCase` on ASCII letters, `startsWith`, and `split(' ')`.
 */
module Text {
  import opened Wrappers

  /** JavaScript truthiness of an optional string: present and not empty. */
  predicate Truthy(v: Option<string>) {
    v.Some? && v.value != ""
  }

  /** JavaScript's `\s`: WhiteSpace and LineTerminator code points. */
  predicate IsWhitespace(c: char) {
    var n := c as int;
    || n == 0x09 || n == 0x0A || n == 0x0B || n == 0x0C || n == 0x0D || n == 0x20
    || n == 0xA0 || n == 0x1680 || (0x2000 <= n <= 0x200A)
    || n == 0x2028 || n == 0x2029 || n == 0x202F || n == 0x205F
    || n == 0x3000 || n == 0xFEFF
  }

  /** The characters JavaScript's `.` does not match (no `s` flag). */
  predicate IsLineTerminator(c: char) {
    var n := c as int;
    n == 0x0A || n == 0x0D || n == 0x2028 || n == 0x2029
  }

  predicate IsDigit(c: char) { '0' <= c <= '9' }
  predicate IsLower(c: char) { 'a' <= c <= 'z' }
  predicate IsUpper(c: char) { 'A' <= c <= 'Z' }
  predicate IsAsciiLetter(c: char) { IsLower(c) || IsUpper(c) }

  /** JavaScript's `\w`. */
  predicate IsWordChar(c: char) { IsAsciiLetter(c) || IsDigit(c) || c == '_' }

  predicate NoWhitespace(s: string) {
    forall i :: 0 <= i < |s| ==> !IsWhitespace(s[i])
  }

  /** `s.startsWith(p)`. */
  predicate StartsWith(s: string, p: string) {
    |p| <= |s| && s[..|p|] == p
  }

  /** The literal `lit` occurs in `s` starting at index `i`. */
  predicate OccursAt(s: string, i: nat, lit: string) {
    i + |lit| <= |s| && s[i..i + |lit|] == lit
  }

  // ---------------------------------------------------------------------------
  // trim

  /** A string with no whitespace at either end: what `trim` produces. */
  predicate Trimmed(s: string) {
    s == [] || (!IsWhitespace(s[0]) && !IsWhitespace(s[|s| - 1]))
  }

  /** Number of leading whitespace characters. */
  function LeadingWhitespace(s: string): (n: nat)
    ensures n <= |s|
    ensures forall k :: 0 <= k < n ==> IsWhitespace(s[k])
    ensures n == |s| || !IsWhitespace(s[n])
  {
    if s == [] || !IsWhitespace(s[0]) then 0
    else 1 + LeadingWhitespace(s[1..])
  }

  /** Number of trailing whitespace characters. */
  function TrailingWhitespace(s: string): (n: nat)
    ensures n <= |s|
    ensures forall k :: |s| - n <= k < |s| ==> IsWhitespace(s[k])
    ensures n == |s| || !IsWhitespace(s[|s| - n - 1])
  {
    if s == [] || !IsWhitespace(s[|s| - 1]) then 0
    else 1 + TrailingWhitespace(s[..|s| - 1])
  }

  /** `s.trim()`: the slice `s[a..b]` left after removing whitespace at both ends. */
  function Trim(s: string): (r: string)
    ensures |r| <= |s|
    ensures Trimmed(r)
    ensures r == [] ==> forall k :: 0 <= k < |s| ==> IsWhitespace(s[k])
    ensures exists a :: PaddedBy(s, a, r)
  {
    var a := LeadingWhitespace(s);
    var t := s[a..];
    var r := t[..|t| - TrailingWhitespace(t)];
    assert PaddedBy(s, a, r);
    r
  }

  /** `s` is `r` placed at index `a` with only whitespace before and after it. */
  predicate PaddedBy(s: string, a: nat, r: string) {
    && a + |r| <= |s|
    && r == s[a..a + |r|]
    && (forall k :: 0 <= k < a ==> IsWhitespace(s[k]))
    && (forall k :: a + |r| <= k < |s| ==> IsWhitespace(s[k]))
  }

  /** Trimming an already trimmed string changes nothing; in particular `trim` is idempotent. */
  lemma TrimOfTrimmed(s: string)
    requires Trimmed(s)
    ensures Trim(s) == s
  {
    assert LeadingWhitespace(s) == 0;
    assert TrailingWhitespace(s) == 0;
  }

  lemma TrimIdempotent(s: string)
    ensures Trim(Trim(s)) == Trim(s)
  {
    TrimOfTrimmed(Trim(s));
  }

  /** A string free of whitespace is its own trim, and keeps its length through `trim`. */
  lemma TrimWithoutWhitespace(s: string)
    requires NoWhitespace(s)
    ensures Trim(s) == s
  {
    TrimOfTrimmed(s);
  }

  // ---------------------------------------------------------------------------
  // toLowerCase

  function LowerChar(c: char): (r: char)
    ensures !IsUpper(r)
    ensures IsUpper(c) ==> r as int == c as int + 32
    ensures !IsUpper(c) ==> r == c
  {
    if IsUpper(c) then (c as int + 32) as char else c
  }

  /** No ASCII upper-case letter occurs. */
  predicate IsLowerCased(s: string) {
    forall i :: 0 <= i < |s| ==> !IsUpper(s[i])
  }

  /** `s.toLowerCase()` restricted to ASCII letters. */
  function ToLower(s: string): (r: string)
    ensures |r| == |s|
    ensures IsLowerCased(r)
    ensures forall i :: 0 <= i < |s| ==> r[i] == LowerChar(s[i])
  {
    seq(|s|, i requires 0 <= i < |s| => LowerChar(s[i]))
  }

  /** Text with no upper-case letter is its own lower-case form. */
  lemma ToLowerOfLowerCased(s: string)
    requires IsLowerCased(s)
    ensures ToLower(s) == s
  {
  }

  /** Lower-casing changes no whitespace, so it commutes with the trimmed shape. */
  lemma ToLowerKeepsTrimmed(s: string)
    requires Trimmed(s)
    ensures Trimmed(ToLower(s))
  {
  }

  // ---------------------------------------------------------------------------
  // indexOf and split(' ')

  /** `s.indexOf(c)`, with `None` for -1. */
  function IndexOf(s: string, c: char): (r: Option<nat>)
    ensures r.None? <==> c !in s
    ensures r.Some? ==> r.value < |s| && s[r.value] == c && c !in s[..r.value]
  {
    if s == [] then None
    else if s[0] == c then Some(0)
    else
      match IndexOf(s[1..], c)
      case None => None
      case Some(i) =>
        assert s[1..][..i] == s[1..i + 1];
        Some(i + 1)
  }

  /** The first occurrence is the one `IndexOf` reports. */
  lemma IndexOfIsFirst(s: string, c: char, i: nat)
    requires i < |s| && s[i] == c && c !in s[..i]
    ensures IndexOf(s, c) == Some(i)
  {
  }

  /** `s.split(' ')`: the maximal space-free fields between the spaces. */
  function Split(s: string): (fields: seq<string>)
    ensures |fields| >= 1
    decreases |s|
  {
    match IndexOf(s, ' ')
    case None => [s]
    case Some(i) => [s[..i]] + Split(s[i + 1..])
  }

  /** One unfolding of `Split`: the text up to the first space, then the fields of what follows it. */
  lemma SplitUnfold(s: string)
    ensures IndexOf(s, ' ').None? ==> Split(s) == [s]
    ensures IndexOf(s, ' ').Some? ==>
              var i := IndexOf(s, ' ').value;
              && Split(s)[0] == s[..i]
              && Split(s)[1..] == Split(s[i + 1..])
  {
    var idx := IndexOf(s, ' ');
    if idx.Some? {
      var i := idx.value;
      var tail := Split(s[i + 1..]);
      assert Split(s) == [s[..i]] + tail;
      assert ([s[..i]] + tail)[1..] == tail;
    }
  }

  /** There is more than one field exactly when the text holds a space. */
  lemma SplitSingle(s: string)
    ensures |Split(s)| == 1 <==> ' ' !in s
  {
  }

  /** No field of `split(' ')` holds a space. */
  lemma {:induction false} SplitFieldsSpaceFree(s: string)
    ensures forall i :: 0 <= i < |Split(s)| ==> ' ' !in Split(s)[i]
    decreases |s|
  {
    var idx := IndexOf(s, ' ');
    if idx.Some? {
      var i := idx.value;
      var fields := Split(s);
      var tail := Split(s[i + 1..]);
      SplitFieldsSpaceFree(s[i + 1..]);
      assert fields == [s[..i]] + tail;
      forall j | 0 <= j < |fields|
        ensures ' ' !in fields[j]
      {
        if j > 0 {
          assert fields[j] == tail[j - 1];
        }
      }
    }
  }

  /** `fields.join(' ')`. */
  function Join(fields: seq<string>): string
    requires |fields| >= 1
  {
    if |fields| == 1 then fields[0]
    else fields[0] + " " + Join(fields[1..])
  }

  /** Splitting then joining with the same separator gives back the original text. */
  lemma {:induction false} JoinSplit(s: string)
    ensures Join(Split(s)) == s
    decreases |s|
  {
    var idx := IndexOf(s, ' ');
    if idx.Some? {
      var i := idx.value;
      var rest := s[i + 1..];
      var tail := Split(rest);
      var fields := [s[..i]] + tail;
      assert Split(s) == fields;
      assert fields[1..] == tail;
      JoinSplit(rest);
      assert Join(fields) == s[..i] + " " + Join(tail);
      assert s == s[..i] + " " + rest;
    }
  }

  /** Joining space-free fields with spaces and splitting again gives back the fields. */
  lemma {:induction false} SplitJoin(fields: seq<string>)
    requires |fields| >= 1
    requires forall i :: 0 <= i < |fields| ==> ' ' !in fields[i]
    ensures Split(Join(fields)) == fields
    decreases |fields|
  {
    if |fields| > 1 {
      var s := Join(fields);
      var rest := Join(fields[1..]);
      assert s == fields[0] + " " + rest;
      assert s[|fields[0]|] == ' ';
      assert s[..|fields[0]|] == fields[0];
      IndexOfIsFirst(s, ' ', |fields[0]|);
      assert s[|fields[0]| + 1..] == rest;
      SplitJoin(fields[1..]);
    }
  }
}
