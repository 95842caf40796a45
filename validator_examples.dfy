/**
 The examples utils/test_validators.py pins, checked against the model: the
 format examples against the approximate grammar of AddressSyntax, the
 sanitising examples against Sanitize, and the validate_email_input examples
 both for any library with the verdict the test relies on and for the
 approximate one.
 */
module ValidatorExamples {
  import opened Validators
  import opened AddressSyntax

  // ---------------------------------------------------------------------------
  // test_valid_emails: each address is atoms, "@" and labels
  // ---------------------------------------------------------------------------

  lemma PlainAtoms()
    ensures IsAtom("test") && IsLabel("example") && IsLabel("com")
  {
  }

  lemma PlainJoin()
    ensures Join(["test"], '.') + "@" + Join(["example", "com"], '.') == "test@example.com"
  {
    JoinTwo("example", "com", '.');
  }

  lemma DottedLocalPartAtoms()
    ensures IsAtom("user") && IsAtom("name")
    ensures IsLabel("domain") && IsLabel("co") && IsLabel("uk")
  {
  }

  lemma DottedLocalPartJoin()
    ensures Join(["user", "name"], '.') + "@" + Join(["domain", "co", "uk"], '.') == "user.name@domain.co.uk"
  {
    JoinTwo("user", "name", '.');
    JoinThree("domain", "co", "uk", '.');
  }

  lemma PlusAtoms()
    ensures IsAtom("firstname+lastname") && IsLabel("example") && IsLabel("com")
  {
  }

  lemma PlusJoin()
    ensures Join(["firstname+lastname"], '.') + "@" + Join(["example", "com"], '.')
            == "firstname+lastname@example.com"
  {
    JoinTwo("example", "com", '.');
  }

  lemma SubdomainAtoms()
    ensures IsAtom("email") && IsLabel("subdomain") && IsLabel("example") && IsLabel("com")
  {
  }

  lemma SubdomainJoin()
    ensures Join(["email"], '.') + "@" + Join(["subdomain", "example", "com"], '.')
            == "email@subdomain.example.com"
  {
    JoinThree("subdomain", "example", "com", '.');
  }

  lemma DigitsAtoms()
    ensures IsAtom("1234567890") && IsLabel("example") && IsLabel("com")
  {
  }

  lemma DigitsJoin()
    ensures Join(["1234567890"], '.') + "@" + Join(["example", "com"], '.') == "1234567890@example.com"
  {
    JoinTwo("example", "com", '.');
  }

  lemma HyphenAtoms()
    ensures IsAtom("email") && IsLabel("example-one") && IsLabel("com")
  {
  }

  lemma HyphenJoin()
    ensures Join(["email"], '.') + "@" + Join(["example-one", "com"], '.') == "email@example-one.com"
  {
    JoinTwo("example-one", "com", '.');
  }

  lemma AcceptsPlain()
    ensures IsAddress("test@example.com")
  {
    PlainAtoms();
    PlainJoin();
    AddressFromParts(["test"], ["example", "com"]);
  }

  lemma AcceptsDottedLocalPart()
    ensures IsAddress("user.name@domain.co.uk")
  {
    DottedLocalPartAtoms();
    DottedLocalPartJoin();
    AddressFromParts(["user", "name"], ["domain", "co", "uk"]);
  }

  lemma AcceptsPlus()
    ensures IsAddress("firstname+lastname@example.com")
  {
    PlusAtoms();
    PlusJoin();
    AddressFromParts(["firstname+lastname"], ["example", "com"]);
  }

  lemma AcceptsSubdomain()
    ensures IsAddress("email@subdomain.example.com")
  {
    SubdomainAtoms();
    SubdomainJoin();
    AddressFromParts(["email"], ["subdomain", "example", "com"]);
  }

  lemma AcceptsDigits()
    ensures IsAddress("1234567890@example.com")
  {
    DigitsAtoms();
    DigitsJoin();
    AddressFromParts(["1234567890"], ["example", "com"]);
  }

  lemma AcceptsHyphenatedLabel()
    ensures IsAddress("email@example-one.com")
  {
    HyphenAtoms();
    HyphenJoin();
    AddressFromParts(["email"], ["example-one", "com"]);
  }

  // ---------------------------------------------------------------------------
  // test_invalid_emails: each address breaks one rejection rule
  // ---------------------------------------------------------------------------

  // Each literal fact is shown about a variable equal to the literal, which
  // keeps the verifier from evaluating the grammar on the literal.

  lemma WithoutAtSign(s: string)
    requires s == "plainaddress" || s == "missing-at-sign.com" || s == "invalid-email"
    ensures Count(s, '@') == 0
  {
    assert '@' !in s;
  }

  lemma AtSignsAtThreeAndFour(s: string)
    requires s == "two@@example.com"
    ensures 4 < |s| && s[3] == '@' && s[4] == '@'
  {
  }

  lemma RejectsPlainAddress()
    ensures !IsAddress("plainaddress")
  {
    WithoutAtSign("plainaddress");
    RejectsUnlessOneAt("plainaddress");
  }

  lemma StartsWithAt(s: string)
    requires s == "@no-local.com"
    ensures s != [] && s[0] == '@'
  {
  }

  lemma RejectsNoLocalPart()
    ensures !IsAddress("@no-local.com")
  {
    StartsWithAt("@no-local.com");
    RejectsEmptyLocalPart("@no-local.com");
  }

  lemma RejectsMissingAtSign()
    ensures !IsAddress("missing-at-sign.com")
  {
    WithoutAtSign("missing-at-sign.com");
    RejectsUnlessOneAt("missing-at-sign.com");
  }

  lemma MissingDomainDotParts(s: string)
    requires s == "missing@domain"
    ensures s == "missing" + "@" + "domain"
    ensures '@' !in "missing" && '@' !in "domain" && '.' !in "domain"
  {
  }

  lemma RejectsMissingDomainDot()
    ensures !IsAddress("missing@domain")
  {
    MissingDomainDotParts("missing@domain");
    RejectsUndottedDomain("missing", "domain");
  }

  lemma RejectsTwoAtSigns()
    ensures !IsAddress("two@@example.com")
  {
    AtSignsAtThreeAndFour("two@@example.com");
    RejectsRepeatedAt("two@@example.com", 3, 4);
  }

  lemma RejectsInvalidEmail()
    ensures !IsAddress("invalid-email")
  {
    WithoutAtSign("invalid-email");
    RejectsUnlessOneAt("invalid-email");
  }

  lemma DotsAtSix(s: string)
    requires s == "dotdot..@example.com"
    ensures 6 + 1 < |s| && s[6] == '.' && s[6 + 1] == '.'
  {
  }

  lemma RejectsDotDot()
    ensures !IsAddress("dotdot..@example.com")
  {
    DotsAtSix("dotdot..@example.com");
    RejectsDoubleDot("dotdot..@example.com", 6);
  }

  lemma SpaceAtSix(s: string)
    requires s == "spaces in@example.com"
    ensures 6 < |s| && IsSpace(s[6])
  {
  }

  lemma RejectsSpaces()
    ensures !IsAddress("spaces in@example.com")
  {
    SpaceAtSix("spaces in@example.com");
    RejectsSpace("spaces in@example.com", 6);
  }

  // ---------------------------------------------------------------------------
  // test_sanitize_email
  // ---------------------------------------------------------------------------

  /** A string is the lower-case form of another when it is so character
      by character. */
  lemma LowerPointwise(s: string, t: string)
    requires |s| == |t| && forall i :: 0 <= i < |s| ==> t[i] == LowerChar(s[i])
    ensures Lower(s) == t
  {
  }

  lemma PaddedParts(s: string)
    requires s == "  TEST@EXAMPLE.COM  "
    ensures s == "  " + "TEST@EXAMPLE.COM" + "  "
  {
  }

  lemma StripPadded()
    ensures Strip("  TEST@EXAMPLE.COM  ") == "TEST@EXAMPLE.COM"
  {
    PaddedParts("  TEST@EXAMPLE.COM  ");
    assert AllSpace("  ");
    StripRemovesPadding("  ", "TEST@EXAMPLE.COM", "  ");
  }

  lemma LowerUpperAddress()
    ensures Lower("TEST@EXAMPLE.COM") == "test@example.com"
  {
    LowerPointwise("TEST@EXAMPLE.COM", "test@example.com");
  }

  lemma SanitizePadded()
    ensures Sanitize("  TEST@EXAMPLE.COM  ") == "test@example.com"
  {
    StripPadded();
    LowerUpperAddress();
  }

  lemma StripMixedCase()
    ensures Strip("User@Domain.Com") == "User@Domain.Com"
  {
    StripWithoutSurroundingSpace("User@Domain.Com");
  }

  lemma LowerMixedCase()
    ensures Lower("User@Domain.Com") == "user@domain.com"
  {
    LowerPointwise("User@Domain.Com", "user@domain.com");
  }

  lemma SanitizeMixedCase()
    ensures Sanitize("User@Domain.Com") == "user@domain.com"
  {
    StripMixedCase();
    LowerMixedCase();
  }

  lemma SanitizeClean()
    ensures Sanitize("email@test.com") == "email@test.com"
  {
    SanitizeFixedPoint("email@test.com");
  }

  // ---------------------------------------------------------------------------
  // test_validate_email_input
  // ---------------------------------------------------------------------------

  /** The empty input gets the message containing "boş olamaz", whatever
      the library would say. */
  lemma EmptyInputExample(library: string -> LibraryOutcome)
    ensures var r := ValidateEmailInput(library, "");
      !r.valid && r.text == EmptyMessage && r.text[15..25] == "boş olamaz"
  {
  }

  /** With a library that rejects "invalid-email", the input gets the message
      starting with "Geçersiz". */
  lemma InvalidInputExample(library: string -> LibraryOutcome)
    requires library("invalid-email").EmailNotValid?
    ensures var r := ValidateEmailInput(library, "invalid-email");
      !r.valid && r.text == FormatMessage && r.text[..8] == "Geçersiz"
  {
    SanitizeInvalidEmail();
  }

  lemma SanitizeInvalidEmail()
    ensures Sanitize("invalid-email") == "invalid-email"
  {
    SanitizeFixedPoint("invalid-email");
  }

  /** With a library that accepts "test@example.com", the padded upper-case
      input validates to the sanitised address. */
  lemma PaddedInputExample(library: string -> LibraryOutcome)
    requires library("test@example.com").Normalized?
    ensures ValidateEmailInput(library, "  TEST@EXAMPLE.COM  ") == InputCheck(true, "test@example.com")
  {
    SanitizePadded();
  }

  /** The approximate grammar gives the library verdicts the test relies on:
      the empty input, */
  lemma ApproximateEmptyInput()
    ensures ValidateEmailInput(ApproximateLibrary, "") == InputCheck(false, EmptyMessage)
  {
  }

  /** the address without an "@", */
  lemma ApproximateInvalidInput()
    ensures ValidateEmailInput(ApproximateLibrary, "invalid-email") == InputCheck(false, FormatMessage)
  {
    RejectsInvalidEmail();
    InvalidInputExample(ApproximateLibrary);
  }

  /** and the padded upper-case address. */
  lemma ApproximatePaddedInput()
    ensures ValidateEmailInput(ApproximateLibrary, "  TEST@EXAMPLE.COM  ") == InputCheck(true, "test@example.com")
  {
    AcceptsPlain();
    PaddedInputExample(ApproximateLibrary);
  }
}
