/**
 The e-mail input pipeline of utils/validators.py: `sanitize_email` (strip,
 then lower-case), the format check `is_valid_email` (a guard around the
 e-mail validation library, which is a parameter here) and
 `validate_email_input`, which combines them into a `(valid, text)` pair.
 */
module Validators {

  // ---------------------------------------------------------------------------
  // Characters
  // ---------------------------------------------------------------------------

  /** The characters Python's `str.isspace()` accepts, i.e. what `str.strip()`
      removes: the ASCII controls TAB..CR and FS..US, space, NEL, NO-BREAK SPACE
      and the Unicode space separators and line/paragraph separators. */
  predicate IsSpace(c: char) {
    var n := c as int;
    || 0x09 <= n <= 0x0D
    || 0x1C <= n <= 0x20
    || n == 0x85 || n == 0xA0 || n == 0x1680
    || 0x2000 <= n <= 0x200A
    || n == 0x2028 || n == 0x2029 || n == 0x202F || n == 0x205F || n == 0x3000
  }

  /** An ASCII capital letter: the only letters the model lower-cases. */
  predicate IsUpper(c: char) {
    'A' <= c <= 'Z'
  }

  /** Lower-cases one character (ASCII letters only). */
  function LowerChar(c: char): (r: char)
    ensures !IsUpper(r)
    ensures IsUpper(c) ==> r as int == c as int + 32
    ensures !IsUpper(c) ==> r == c
    ensures IsSpace(r) <==> IsSpace(c)
  {
    if IsUpper(c) then (c as int + 32) as char else c
  }

  // ---------------------------------------------------------------------------
  // Specification predicates for strip
  // ---------------------------------------------------------------------------

  ghost predicate AllSpace(s: string) {
    forall i :: 0 <= i < |s| ==> IsSpace(s[i])
  }

  ghost predicate NoUpper(s: string) {
    forall i :: 0 <= i < |s| ==> !IsUpper(s[i])
  }

  /** Neither the first nor the last character is white space. */
  ghost predicate NoSurroundingSpace(s: string) {
    s == [] || (!IsSpace(s[0]) && !IsSpace(s[|s| - 1]))
  }

  /** `s` is white space, then `r` starting at index `k`, then white space. */
  ghost predicate SurroundedAt(s: string, k: int, r: string) {
    && 0 <= k && k + |r| <= |s|
    && s[k..k + |r|] == r
    && AllSpace(s[..k])
    && AllSpace(s[k + |r|..])
  }

  /** `r` is `s` with some white space removed at both ends. */
  ghost predicate Surrounded(s: string, r: string) {
    exists k :: SurroundedAt(s, k, r)
  }

  // ---------------------------------------------------------------------------
  // strip and lower
  // ---------------------------------------------------------------------------

  /** The length of the leading white space. */
  function LeadingSpace(s: string): (k: nat)
    ensures k <= |s| && AllSpace(s[..k])
    ensures k == |s| || !IsSpace(s[k])
  {
    if s != [] && IsSpace(s[0]) then
      var k := 1 + LeadingSpace(s[1..]);
      assert s[..k] == [s[0]] + s[1..][..k - 1];
      k
    else 0
  }

  /** Where the trailing white space starts. */
  function TrailingSpace(s: string): (j: nat)
    ensures j <= |s| && AllSpace(s[j..])
    ensures j == 0 || !IsSpace(s[j - 1])
  {
    if s != [] && IsSpace(s[|s| - 1]) then
      var j := TrailingSpace(s[..|s| - 1]);
      assert s[j..] == s[..|s| - 1][j..] + [s[|s| - 1]];
      j
    else |s|
  }

  /** Python's `str.strip()` with no argument. */
  function Strip(s: string): (r: string)
    ensures Surrounded(s, r)
    ensures NoSurroundingSpace(r)
    ensures r == [] <==> AllSpace(s)
  {
    var t := s[LeadingSpace(s)..];
    var r := t[..TrailingSpace(t)];
    StripsSurround(s, t, r);
    if r == [] then
      assert t[|r|..] == t;
      StripsOfBlank(s, t);
      r
    else r
  }

  /** White space before `t` and after `r`, a prefix of `t`, surrounds `r`. */
  lemma StripsSurround(s: string, t: string, r: string)
    requires |t| <= |s| && t == s[|s| - |t|..] && AllSpace(s[..|s| - |t|])
    requires |r| <= |t| && r == t[..|r|] && AllSpace(t[|r|..])
    ensures SurroundedAt(s, |s| - |t|, r)
  {
    var k := |s| - |t|;
    assert s[k..k + |r|] == r by {
      assert s[k..k + |r|] == s[k..][..|r|];
    }
    assert s[k + |r|..] == t[|r|..] by {
      assert s[k + |r|..] == s[k..][|r|..];
    }
  }

  /** White space before an all-space suffix makes all of `s` white space. */
  lemma StripsOfBlank(s: string, t: string)
    requires |t| <= |s| && t == s[|s| - |t|..] && AllSpace(s[..|s| - |t|])
    requires AllSpace(t)
    ensures AllSpace(s)
  {
    assert s == s[..|s| - |t|] + t;
    AllSpaceConcat(s[..|s| - |t|], t);
  }

  lemma AllSpaceConcat(a: string, b: string)
    requires AllSpace(a) && AllSpace(b)
    ensures AllSpace(a + b)
  {
    assert forall i :: 0 <= i < |a + b| ==> (a + b)[i] == (if i < |a| then a[i] else b[i - |a|]);
  }

  /** Python's `str.lower()`, restricted to ASCII letters. */
  function Lower(s: string): (r: string)
    ensures |r| == |s|
    ensures forall i :: 0 <= i < |s| ==> r[i] == LowerChar(s[i])
  {
    if s == [] then [] else [LowerChar(s[0])] + Lower(s[1..])
  }

  /** `sanitize_email`: strip the surrounding white space, then lower-case. */
  function Sanitize(email: string): (r: string)
    ensures |r| <= |email|
    ensures NoSurroundingSpace(r) && NoUpper(r)
    ensures r == [] <==> AllSpace(email)
  {
    Lower(Strip(email))
  }

  // ---------------------------------------------------------------------------
  // Properties of strip and sanitize
  // ---------------------------------------------------------------------------

  /** Leading white space of length `k` followed by a non-space or the end:
      exactly `k` characters lead. */
  lemma LeadingSpaceAt(s: string, k: nat)
    requires k <= |s| && AllSpace(s[..k]) && (k == |s| || !IsSpace(s[k]))
    ensures LeadingSpace(s) == k
  {
    SpaceBefore(s, k);
    SpaceBefore(s, LeadingSpace(s));
  }

  /** White space before `k`, character by character. */
  lemma SpaceBefore(s: string, k: nat)
    requires k <= |s| && AllSpace(s[..k])
    ensures forall i :: 0 <= i < k ==> IsSpace(s[i])
  {
    assert forall i :: 0 <= i < k ==> s[..k][i] == s[i];
  }

  /** White space from `j` on, character by character. */
  lemma SpaceFrom(s: string, j: nat)
    requires j <= |s| && AllSpace(s[j..])
    ensures forall i :: j <= i < |s| ==> IsSpace(s[i])
  {
    assert forall i :: j <= i < |s| ==> s[j..][i - j] == s[i];
  }

  /** Trailing white space from index `j` on, preceded by a non-space or the
      start: the trailing white space starts at `j`. */
  lemma TrailingSpaceAt(s: string, j: nat)
    requires j <= |s| && AllSpace(s[j..]) && (j == 0 || !IsSpace(s[j - 1]))
    ensures TrailingSpace(s) == j
  {
    SpaceFrom(s, j);
    SpaceFrom(s, TrailingSpace(s));
  }

  /** `Strip` is the only way to cut white space off both ends so that what
      is left neither starts nor ends with white space. */
  lemma StripUnique(s: string, m: string)
    requires Surrounded(s, m) && NoSurroundingSpace(m)
    ensures Strip(s) == m
  {
    var k :| SurroundedAt(s, k, m);
    if m == [] {
      assert s == s[..k] + s[k..];
      AllSpaceConcat(s[..k], s[k..]);
    } else {
      assert s[k] == m[0];
      LeadingSpaceAt(s, k);
      var t := s[k..];
      assert t[..|m|] == m;
      assert t[|m|..] == s[k + |m|..];
      TrailingSpaceAt(t, |m|);
    }
  }

  /** White space around a string without surrounding white space is what
      `strip` removes. */
  lemma StripRemovesPadding(pre: string, core: string, post: string)
    requires AllSpace(pre) && AllSpace(post) && NoSurroundingSpace(core)
    ensures Strip(pre + core + post) == core
  {
    var s := pre + core + post;
    assert s[..|pre|] == pre;
    assert s[|pre|..|pre| + |core|] == core;
    assert s[|pre| + |core|..] == post;
    assert SurroundedAt(s, |pre|, core);
    StripUnique(s, core);
  }

  /** A string with no surrounding white space is left alone by `strip`. */
  lemma StripWithoutSurroundingSpace(s: string)
    requires NoSurroundingSpace(s)
    ensures Strip(s) == s
  {
    assert SurroundedAt(s, 0, s);
    StripUnique(s, s);
  }

  /** An address with no surrounding white space and no capitals is left
      alone by `sanitize_email`. */
  lemma SanitizeFixedPoint(email: string)
    requires NoSurroundingSpace(email) && NoUpper(email)
    ensures Sanitize(email) == email
  {
    StripWithoutSurroundingSpace(email);
  }

  /** `sanitize_email` is idempotent. */
  lemma SanitizeIdempotent(email: string)
    ensures Sanitize(Sanitize(email)) == Sanitize(email)
  {
    SanitizeFixedPoint(Sanitize(email));
  }

  // ---------------------------------------------------------------------------
  // The e-mail validation library and is_valid_email
  // ---------------------------------------------------------------------------

  /** What `validate_email(..., check_deliverability=False)` does: it returns
      a result carrying the library's normalised form of the address, or it
      raises `EmailNotValidError` with a reason. */
  datatype LibraryOutcome = Normalized(email: string) | EmailNotValid(reason: string)

  /** `is_valid_email`: the library's verdict as a boolean, with the
      `EmailNotValidError` turned into `false` rather than propagated. */
  function IsValidEmail(library: string -> LibraryOutcome, email: string): (ok: bool)
    ensures ok <==> !library(email).EmailNotValid?
  {
    match library(email)
    case Normalized(_) => true
    case EmailNotValid(_) => false
  }

  // ---------------------------------------------------------------------------
  // validate_email_input
  // ---------------------------------------------------------------------------

  const EmptyMessage: string := "E-posta adresi boş olamaz!"
  const FormatMessage: string := "Geçersiz e-posta formatı!"

  /** The `(valid, text)` pair `validate_email_input` returns: the sanitised
      address when `valid`, an error message otherwise. */
  datatype InputCheck = InputCheck(valid: bool, text: string)

  /** `validate_email_input`: the empty check on the raw input, then
      sanitising, then the format check on the sanitised address. */
  function ValidateEmailInput(library: string -> LibraryOutcome, email: string): (r: InputCheck)
    ensures r == InputCheck(false, EmptyMessage) <==> email == []
    ensures r == InputCheck(false, FormatMessage) <==>
              email != [] && !IsValidEmail(library, Sanitize(email))
    ensures r.valid <==> email != [] && IsValidEmail(library, Sanitize(email))
    ensures r.valid ==> r.text == Sanitize(email)
  {
    if email == [] then
      InputCheck(false, EmptyMessage)
    else
      var sanitized := Sanitize(email);
      if !IsValidEmail(library, sanitized) then
        InputCheck(false, FormatMessage)
      else
        InputCheck(true, sanitized)
  }

  // ---------------------------------------------------------------------------
  // Properties of validate_email_input
  // ---------------------------------------------------------------------------

  /** Every input gets exactly one of the three answers. */
  lemma ValidateExactlyOne(library: string -> LibraryOutcome, email: string)
    ensures var r := ValidateEmailInput(library, email);
      && (r == InputCheck(false, EmptyMessage) || r == InputCheck(false, FormatMessage) || r.valid)
      && !(r == InputCheck(false, EmptyMessage) && r == InputCheck(false, FormatMessage))
  {
    assert EmptyMessage != FormatMessage by {
      assert |EmptyMessage| == 26 && |FormatMessage| == 25;
    }
  }

  /** A non-empty input made only of white space passes the empty check; it
      is sanitised to "" and can fail only with the format message. */
  lemma BlankInputIsAFormatError(library: string -> LibraryOutcome, email: string)
    requires email != [] && AllSpace(email)
    ensures Sanitize(email) == []
    ensures ValidateEmailInput(library, email).text != EmptyMessage
    ensures !ValidateEmailInput(library, email).valid ==>
              ValidateEmailInput(library, email) == InputCheck(false, FormatMessage)
    ensures library([]).EmailNotValid? ==>
              ValidateEmailInput(library, email) == InputCheck(false, FormatMessage)
  {
    assert |EmptyMessage| == 26 && |FormatMessage| == 25;
  }

  /** The answer depends on the library only through its accept/reject
      verdict: the library's normalised form never reaches the caller. */
  lemma ValidateIgnoresNormalizedForm(lib1: string -> LibraryOutcome, lib2: string -> LibraryOutcome,
                                      email: string)
    requires lib1(Sanitize(email)).EmailNotValid? == lib2(Sanitize(email)).EmailNotValid?
    ensures ValidateEmailInput(lib1, email) == ValidateEmailInput(lib2, email)
  {
  }

  /** Re-validating the sanitised form of a non-blank input gives the same
      answer as validating the input itself. */
  lemma RevalidationStable(library: string -> LibraryOutcome, email: string)
    requires email != [] && Sanitize(email) != []
    ensures ValidateEmailInput(library, Sanitize(email)) == ValidateEmailInput(library, email)
  {
    SanitizeIdempotent(email);
  }

  /** An accepted address validates to itself, unless the library accepts
      the empty string and the address was blank. */
  lemma AcceptedAddressRevalidates(library: string -> LibraryOutcome, email: string)
    requires ValidateEmailInput(library, email).valid
    requires ValidateEmailInput(library, email).text != []
    ensures var r := ValidateEmailInput(library, email);
      ValidateEmailInput(library, r.text) == r
  {
    RevalidationStable(library, email);
  }

  /** Re-validation is not stable on blank inputs: " " fails the format
      check (or passes as ""), while its sanitised form "" gets the empty
      message. */
  lemma RevalidationChangesBlankInput(library: string -> LibraryOutcome)
    ensures ValidateEmailInput(library, " ") != ValidateEmailInput(library, Sanitize(" "))
  {
    assert AllSpace(" ");
    assert |EmptyMessage| == 26 && |FormatMessage| == 25;
  }
}
