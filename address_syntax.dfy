/**
 An approximate address grammar standing in for the `email_validator`
 library that `is_valid_email` calls: one "@", a local part that is a
 dot-atom (dot-separated, non-empty runs of atext characters, after section
 3.2.3 of RFC 5322), and a domain of at least two dot-separated labels made
 of letters, digits and hyphens, neither starting nor ending with a hyphen.
 It is an approximation of the library only, not of RFC 5322 as a whole.
 */
module AddressSyntax {
  import opened Validators

  // ---------------------------------------------------------------------------
  // Splitting on a separator and joining back
  // ---------------------------------------------------------------------------

  /** Number of occurrences of `c` in `s`. */
  function Count(s: string, c: char): (n: nat)
    ensures n <= |s|
    ensures n == 0 <==> c !in s
  {
    if s == [] then 0 else (if s[0] == c then 1 else 0) + Count(s[1..], c)
  }

  /** The pieces of `s` between occurrences of `sep` (Python's `s.split(sep)`). */
  function Split(s: string, sep: char): (parts: seq<string>)
    ensures |parts| == Count(s, sep) + 1
    ensures forall j :: 0 <= j < |parts| ==> sep !in parts[j]
  {
    if s == [] then [[]]
    else
      var rest := Split(s[1..], sep);
      if s[0] == sep then [[]] + rest
      else [[s[0]] + rest[0]] + rest[1..]
  }

  /** The pieces joined with `sep` in between (Python's `sep.join(parts)`). */
  function Join(parts: seq<string>, sep: char): string {
    if |parts| == 0 then []
    else if |parts| == 1 then parts[0]
    else parts[0] + [sep] + Join(parts[1..], sep)
  }

  lemma JoinTwo(a: string, b: string, sep: char)
    ensures Join([a, b], sep) == a + [sep] + b
  {
    assert [a, b][1..] == [b];
  }

  lemma JoinThree(a: string, b: string, c: string, sep: char)
    ensures Join([a, b, c], sep) == a + [sep] + b + [sep] + c
  {
    assert [a, b, c][1..] == [b, c];
    JoinTwo(b, c, sep);
  }

  /** Joining the pieces of a split gives back the string. */
  lemma {:induction false} JoinSplit(s: string, sep: char)
    ensures Join(Split(s, sep), sep) == s
  {
    if s != [] {
      var rest := Split(s[1..], sep);
      JoinSplit(s[1..], sep);
      if s[0] != sep && |rest| > 1 {
        assert rest == [rest[0]] + rest[1..];
        assert Join(rest, sep) == rest[0] + [sep] + Join(rest[1..], sep);
      }
    }
  }

  /** A string without the separator splits into itself alone. */
  lemma {:induction false} SplitWithoutSep(p: string, sep: char)
    requires sep !in p
    ensures Split(p, sep) == [p]
  {
    if p != [] {
      SplitWithoutSep(p[1..], sep);
      assert [p[0]] + p[1..] == p;
    }
  }

  /** Splitting `p + [sep] + t`, where `p` holds no separator, gives `p`
      followed by the pieces of `t`. */
  lemma {:induction false} SplitAfterPiece(p: string, t: string, sep: char)
    requires sep !in p
    ensures Split(p + [sep] + t, sep) == [p] + Split(t, sep)
  {
    var s := p + [sep] + t;
    if p == [] {
      assert s[1..] == t;
    } else {
      assert s[1..] == p[1..] + [sep] + t;
      SplitAfterPiece(p[1..], t, sep);
      assert [p[0]] + p[1..] == p;
    }
  }

  /** Splitting a join of separator-free pieces gives back the pieces. */
  lemma {:induction false} SplitJoin(parts: seq<string>, sep: char)
    requires |parts| >= 1
    requires forall j :: 0 <= j < |parts| ==> sep !in parts[j]
    ensures Split(Join(parts, sep), sep) == parts
  {
    if |parts| == 1 {
      SplitWithoutSep(parts[0], sep);
    } else {
      SplitJoin(parts[1..], sep);
      SplitAfterPiece(parts[0], Join(parts[1..], sep), sep);
      assert parts == [parts[0]] + parts[1..];
    }
  }

  // ---------------------------------------------------------------------------
  // Character classes and the grammar
  // ---------------------------------------------------------------------------

  predicate IsLetter(c: char) { 'a' <= c <= 'z' || 'A' <= c <= 'Z' }

  predicate IsDigit(c: char) { '0' <= c <= '9' }

  /** The atext characters of section 3.2.3 of RFC 5322: letters, digits and
      ! # $ % & ' * + - / = ? ^ _ ` { | } ~. */
  predicate IsAtext(c: char) {
    || IsLetter(c) || IsDigit(c)
    || c == '!' || '#' <= c <= '\'' || c == '*' || c == '+' || c == '-' || c == '/'
    || c == '=' || c == '?' || '^' <= c <= '`' || '{' <= c <= '~'
  }

  /** A character allowed in a domain label: letter, digit or hyphen. */
  predicate IsLabelChar(c: char) {
    IsLetter(c) || IsDigit(c) || c == '-'
  }

  /** Every character of `s` satisfies `p`. */
  predicate AllChars(s: string, p: char -> bool) {
    forall i :: 0 <= i < |s| ==> p(s[i])
  }

  /** An atom of the local part: a non-empty run of atext. */
  predicate IsAtom(a: string) {
    a != [] && forall i :: 0 <= i < |a| ==> IsAtext(a[i])
  }

  /** A dot-atom: atoms separated by single dots. */
  predicate IsDotAtom(s: string) {
    var atoms := Split(s, '.');
    forall j :: 0 <= j < |atoms| ==> IsAtom(atoms[j])
  }

  /** A domain label: letters, digits and inner hyphens. */
  predicate IsLabel(l: string) {
    && l != []
    && (forall i :: 0 <= i < |l| ==> IsLabelChar(l[i]))
    && l[0] != '-' && l[|l| - 1] != '-'
  }

  /** A dotted domain of at least two labels. */
  predicate IsDomain(d: string) {
    var labels := Split(d, '.');
    |labels| >= 2 && forall j :: 0 <= j < |labels| ==> IsLabel(labels[j])
  }

  /** The approximate addr-spec. */
  predicate IsAddress(s: string) {
    var parts := Split(s, '@');
    |parts| == 2 && IsDotAtom(parts[0]) && IsDomain(parts[1])
  }

  /** The approximate stand-in for `validate_email`: accepts what the grammar
      accepts, returning the address unchanged, and names the first rule a
      rejected address breaks. */
  function ApproximateLibrary(email: string): (r: LibraryOutcome)
    ensures r.Normalized? <==> IsAddress(email)
    ensures r.Normalized? ==> r.email == email
  {
    var parts := Split(email, '@');
    if |parts| != 2 then EmailNotValid("exactly one @ is required")
    else if !IsDotAtom(parts[0]) then EmailNotValid("the local part is not a dot-atom")
    else if !IsDomain(parts[1]) then EmailNotValid("the domain is not a dotted list of labels")
    else Normalized(email)
  }

  // ---------------------------------------------------------------------------
  // What an accepted address looks like
  // ---------------------------------------------------------------------------

  /** No two consecutive characters of `s` are both `c`. */
  predicate NoDoubled(s: string, c: char) {
    forall i :: 0 <= i < |s| - 1 ==> s[i] != c || s[i + 1] != c
  }

  /** The first piece of a join is a prefix of it. */
  lemma {:induction false} JoinStartsWithFirst(parts: seq<string>, sep: char)
    requires |parts| >= 1
    ensures |parts[0]| <= |Join(parts, sep)|
    ensures Join(parts, sep)[..|parts[0]|] == parts[0]
  {
    if |parts| > 1 {
      var s := Join(parts, sep);
      assert s == parts[0] + ([sep] + Join(parts[1..], sep));
    }
  }

  /** A join keeps a property of characters that its pieces and the
      separator have. */
  lemma {:induction false} JoinAllChars(parts: seq<string>, sep: char, p: char -> bool)
    requires p(sep)
    requires forall j :: 0 <= j < |parts| ==> AllChars(parts[j], p)
    ensures AllChars(Join(parts, sep), p)
  {
    if |parts| > 1 {
      JoinAllChars(parts[1..], sep, p);
      var t := Join(parts[1..], sep);
      var s := parts[0] + [sep] + t;
      forall i | 0 <= i < |s| ensures p(s[i]) {
        if i < |parts[0]| {
          assert s[i] == parts[0][i];
        } else if i > |parts[0]| {
          assert s[i] == t[i - |parts[0]| - 1];
        }
      }
    }
  }

  /** Joining with `sep` never puts two `c` side by side when `c` is not the
      separator and no piece has a doubled `c`; when `c` is the separator,
      non-empty pieces free of it keep the separators apart. */
  lemma {:induction false} JoinNoDoubled(parts: seq<string>, sep: char, c: char)
    requires forall j :: 0 <= j < |parts| ==> NoDoubled(parts[j], c) && sep !in parts[j]
    requires c == sep ==> forall j :: 0 <= j < |parts| ==> parts[j] != []
    ensures NoDoubled(Join(parts, sep), c)
  {
    if |parts| > 1 {
      JoinNoDoubled(parts[1..], sep, c);
      var p := parts[0];
      var t := Join(parts[1..], sep);
      var s := p + [sep] + t;
      JoinStartsWithFirst(parts[1..], sep);
      forall i | 0 <= i < |s| - 1 ensures s[i] != c || s[i + 1] != c {
        if i + 1 < |p| {
          assert s[i] == p[i] && s[i + 1] == p[i + 1];
        } else if i + 1 == |p| {
          assert s[i] == p[i] && s[i + 1] == sep;
        } else if i == |p| {
          assert s[i] == sep && s[i + 1] == t[0];
          if c == sep {
            assert t[0] == parts[1][0];
          }
        } else {
          assert s[i] == t[i - |p| - 1] && s[i + 1] == t[i - |p|];
        }
      }
    }
  }

  predicate NotSpace(c: char) { !IsSpace(c) }

  /** An atom has no white space and no dot. */
  lemma AtomHasNoSpaceOrDot(a: string)
    requires IsAtom(a)
    ensures AllChars(a, NotSpace) && NoDoubled(a, '.')
  {
  }

  /** A label has no white space and no dot. */
  lemma LabelHasNoSpaceOrDot(a: string)
    requires IsLabel(a)
    ensures AllChars(a, NotSpace) && NoDoubled(a, '.')
  {
  }

  /** A dot-atom is non-empty. */
  lemma DotAtomNonEmpty(local: string)
    requires IsDotAtom(local)
    ensures local != []
  {
    var atoms := Split(local, '.');
    JoinSplit(local, '.');
    JoinStartsWithFirst(atoms, '.');
    assert IsAtom(atoms[0]);
  }

  /** A string split on dots into atoms or labels has no white space and
      no "..". */
  lemma DottedPiecesShape(s: string)
    requires forall j :: 0 <= j < |Split(s, '.')| ==> IsAtom(Split(s, '.')[j]) || IsLabel(Split(s, '.')[j])
    ensures AllChars(s, NotSpace) && NoDoubled(s, '.')
  {
    var pieces := Split(s, '.');
    forall j | 0 <= j < |pieces| ensures AllChars(pieces[j], NotSpace) && NoDoubled(pieces[j], '.') {
      if IsAtom(pieces[j]) {
        AtomHasNoSpaceOrDot(pieces[j]);
      } else {
        LabelHasNoSpaceOrDot(pieces[j]);
      }
    }
    JoinSplit(s, '.');
    JoinAllChars(pieces, '.', NotSpace);
    JoinNoDoubled(pieces, '.', '.');
  }

  /** A dot-atom is non-empty, has no white space and no "..". */
  lemma DotAtomShape(local: string)
    requires IsDotAtom(local)
    ensures local != [] && AllChars(local, NotSpace) && NoDoubled(local, '.')
  {
    DotAtomNonEmpty(local);
    DottedPiecesShape(local);
  }

  /** A domain holds a dot, no white space and no "..". */
  lemma DomainShape(domain: string)
    requires IsDomain(domain)
    ensures '.' in domain && AllChars(domain, NotSpace) && NoDoubled(domain, '.')
  {
    DottedPiecesShape(domain);
  }

  /** An accepted address is its local part, one "@" and its domain. */
  lemma AddressParts(s: string)
    requires IsAddress(s)
    ensures var parts := Split(s, '@');
      && s == parts[0] + "@" + parts[1]
      && parts[0] != [] && '.' in parts[1]
  {
    var parts := Split(s, '@');
    JoinSplit(s, '@');
    assert parts[1..] == [parts[1]];
    DotAtomShape(parts[0]);
    DomainShape(parts[1]);
  }

  /** A dot-atom, an "@" and a domain hold no white space. */
  lemma PartsHaveNoSpace(local: string, domain: string)
    requires IsDotAtom(local) && IsDomain(domain)
    ensures AllChars(local + "@" + domain, NotSpace)
  {
    DotAtomShape(local);
    DomainShape(domain);
    var s := local + "@" + domain;
    forall i | 0 <= i < |s| ensures NotSpace(s[i]) {
      if i < |local| {
        assert s[i] == local[i];
      } else if i > |local| {
        assert s[i] == domain[i - |local| - 1];
      }
    }
  }

  /** A dot-atom, an "@" and a domain hold no "..". */
  lemma PartsHaveNoDoubleDot(local: string, domain: string)
    requires IsDotAtom(local) && IsDomain(domain)
    ensures NoDoubled(local + "@" + domain, '.')
  {
    DotAtomShape(local);
    DomainShape(domain);
    var s := local + "@" + domain;
    forall i | 0 <= i < |s| - 1 ensures s[i] != '.' || s[i + 1] != '.' {
      if i + 1 < |local| {
        assert s[i] == local[i] && s[i + 1] == local[i + 1];
      } else if i > |local| {
        assert s[i] == domain[i - |local| - 1] && s[i + 1] == domain[i - |local|];
      }
    }
  }

  /** An accepted address has no white space. */
  lemma AddressHasNoSpace(s: string)
    requires IsAddress(s)
    ensures AllChars(s, NotSpace)
  {
    AddressParts(s);
    PartsHaveNoSpace(Split(s, '@')[0], Split(s, '@')[1]);
  }

  /** An accepted address has no "..". */
  lemma AddressHasNoDoubleDot(s: string)
    requires IsAddress(s)
    ensures NoDoubled(s, '.')
  {
    AddressParts(s);
    PartsHaveNoDoubleDot(Split(s, '@')[0], Split(s, '@')[1]);
  }

  /** An accepted address is a non-empty local part, one "@" and a domain
      holding a dot; it contains no white space and no "..". */
  lemma AddressShape(s: string)
    requires IsAddress(s)
    ensures var parts := Split(s, '@');
      && s == parts[0] + "@" + parts[1]
      && parts[0] != [] && '.' in parts[1]
    ensures Count(s, '@') == 1
    ensures AllChars(s, NotSpace)
    ensures NoDoubled(s, '.')
  {
    AddressParts(s);
    AddressHasNoSpace(s);
    AddressHasNoDoubleDot(s);
  }

  // Rejection rules: the contrapositives of the shape lemmas.

  lemma RejectsUnlessOneAt(s: string)
    requires Count(s, '@') != 1
    ensures !IsAddress(s)
  {
  }

  /** Two occurrences of `c` in `s` count at least twice. */
  lemma {:induction false} CountTwo(s: string, c: char, i: nat, j: nat)
    requires i < j < |s| && s[i] == c && s[j] == c
    ensures Count(s, c) >= 2
  {
    if i > 0 {
      CountTwo(s[1..], c, i - 1, j - 1);
    } else {
      assert s[1..][j - 1] == c;
    }
  }

  lemma RejectsRepeatedAt(s: string, i: nat, j: nat)
    requires i < j < |s| && s[i] == '@' && s[j] == '@'
    ensures !IsAddress(s)
  {
    CountTwo(s, '@', i, j);
    RejectsUnlessOneAt(s);
  }

  lemma RejectsEmptyLocalPart(s: string)
    requires s != [] && s[0] == '@'
    ensures !IsAddress(s)
  {
    assert Split(s, '@')[0] == [];
    if IsAddress(s) {
      DotAtomShape(Split(s, '@')[0]);
      assert false;
    }
  }

  lemma RejectsUndottedDomain(local: string, domain: string)
    requires '@' !in local && '@' !in domain && '.' !in domain
    ensures !IsAddress(local + "@" + domain)
  {
    assert Join([local, domain], '@') == local + "@" + domain by {
      assert [local, domain][1..] == [domain];
    }
    SplitJoin([local, domain], '@');
  }

  lemma RejectsSpace(s: string, i: nat)
    requires i < |s| && IsSpace(s[i])
    ensures !IsAddress(s)
  {
    if IsAddress(s) {
      AddressHasNoSpace(s);
      assert false;
    }
  }

  lemma RejectsDoubleDot(s: string, i: nat)
    requires i + 1 < |s| && s[i] == '.' && s[i + 1] == '.'
    ensures !IsAddress(s)
  {
    if IsAddress(s) {
      AddressHasNoDoubleDot(s);
      assert false;
    }
  }

  /** Atoms joined by dots, an "@", and two or more labels joined by dots
      make an accepted address. */
  lemma AddressFromParts(atoms: seq<string>, labels: seq<string>)
    requires |atoms| >= 1 && forall j :: 0 <= j < |atoms| ==> IsAtom(atoms[j])
    requires |labels| >= 2 && forall j :: 0 <= j < |labels| ==> IsLabel(labels[j])
    ensures IsAddress(Join(atoms, '.') + "@" + Join(labels, '.'))
  {
    var local, domain := Join(atoms, '.'), Join(labels, '.');
    var notAt := (c: char) => c != '@';
    forall j | 0 <= j < |atoms| ensures '.' !in atoms[j] && AllChars(atoms[j], notAt) {
      assert forall i :: 0 <= i < |atoms[j]| ==> IsAtext(atoms[j][i]);
    }
    forall j | 0 <= j < |labels| ensures '.' !in labels[j] && AllChars(labels[j], notAt) {
      assert forall i :: 0 <= i < |labels[j]| ==> IsLabelChar(labels[j][i]);
    }
    SplitJoin(atoms, '.');
    SplitJoin(labels, '.');
    JoinAllChars(atoms, '.', notAt);
    JoinAllChars(labels, '.', notAt);
    assert '@' !in local && '@' !in domain;
    assert Join([local, domain], '@') == local + "@" + domain by {
      assert [local, domain][1..] == [domain];
    }
    SplitJoin([local, domain], '@');
  }

  // ---------------------------------------------------------------------------
  // Sanitising an accepted address keeps it accepted
  // ---------------------------------------------------------------------------

  function LowerAll(parts: seq<string>): (r: seq<string>)
    ensures |r| == |parts|
    ensures forall j :: 0 <= j < |parts| ==> r[j] == Lower(parts[j])
  {
    if parts == [] then [] else [Lower(parts[0])] + LowerAll(parts[1..])
  }

  /** Lower-casing commutes with splitting on a non-letter. */
  lemma {:induction false} SplitLower(s: string, sep: char)
    requires !IsLetter(sep)
    ensures Split(Lower(s), sep) == LowerAll(Split(s, sep))
  {
    if s != [] {
      var t := Lower(s);
      SplitLower(s[1..], sep);
      assert t[1..] == Lower(s[1..]);
      assert t[0] == sep <==> s[0] == sep;
      var rest := Split(s[1..], sep);
      var lrest := Split(t[1..], sep);
      assert lrest == LowerAll(rest);
      if s[0] == sep {
        assert Split(t, sep) == [[]] + lrest;
        assert LowerAll(Split(s, sep)) == [[]] + LowerAll(rest);
      } else {
        assert Split(t, sep) == [[t[0]] + lrest[0]] + lrest[1..];
        assert Lower([s[0]] + rest[0]) == [t[0]] + Lower(rest[0]);
        assert LowerAll(rest)[1..] == LowerAll(rest[1..]);
        assert LowerAll(Split(s, sep)) == [Lower([s[0]] + rest[0])] + LowerAll(rest[1..]);
      }
    }
  }

  lemma LowerKeepsAtom(a: string)
    requires IsAtom(a)
    ensures IsAtom(Lower(a))
  {
    var l := Lower(a);
    forall i | 0 <= i < |l| ensures IsAtext(l[i]) {
      assert IsAtext(a[i]);
    }
  }

  lemma LowerKeepsLabel(a: string)
    requires IsLabel(a)
    ensures IsLabel(Lower(a))
  {
    var l := Lower(a);
    forall i | 0 <= i < |l| ensures IsLabelChar(l[i]) {
      assert IsLabelChar(a[i]);
    }
  }

  lemma LowerKeepsDotAtom(local: string)
    requires IsDotAtom(local)
    ensures IsDotAtom(Lower(local))
  {
    SplitLower(local, '.');
    var atoms := Split(local, '.');
    forall j | 0 <= j < |atoms| ensures IsAtom(Lower(atoms[j])) {
      LowerKeepsAtom(atoms[j]);
    }
  }

  lemma LowerKeepsDomain(domain: string)
    requires IsDomain(domain)
    ensures IsDomain(Lower(domain))
  {
    SplitLower(domain, '.');
    var labels := Split(domain, '.');
    forall j | 0 <= j < |labels| ensures IsLabel(Lower(labels[j])) {
      LowerKeepsLabel(labels[j]);
    }
  }

  /** Lower-casing keeps an address accepted. */
  lemma LowerKeepsAddress(s: string)
    requires IsAddress(s)
    ensures IsAddress(Lower(s))
  {
    var parts := Split(s, '@');
    SplitLower(s, '@');
    LowerKeepsDotAtom(parts[0]);
    LowerKeepsDomain(parts[1]);
  }

  /** An address the grammar accepts passes `validate_email_input` unchanged
      but for lower-casing. */
  lemma AcceptedAddressValidates(s: string)
    requires IsAddress(s)
    ensures Sanitize(s) == Lower(s)
    ensures ValidateEmailInput(ApproximateLibrary, s) == InputCheck(true, Lower(s))
  {
    AddressShape(s);
    assert s[0] == Split(s, '@')[0][0];
    assert NoSurroundingSpace(s) by {
      assert NotSpace(s[0]) && NotSpace(s[|s| - 1]);
    }
    assert SurroundedAt(s, 0, s);
    StripUnique(s, s);
    LowerKeepsAddress(s);
  }
}
