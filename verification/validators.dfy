/** The String validators of the iOS client (`isValidEmail`, `isValidMobileNumber`,
    `isValidPAN`, `isValidAadhaar`), which the Android client and the backend's
    bean-validation patterns repeat. Each validator is a whole-string match of a
    regular expression built from character classes with repetition bounds, so the
    model gives those expressions a small matcher (`Matches`) and proves, for each
    validator, what its expression accepts in plain terms. */
module Validators {
  import opened Text

  // ---------------------------------------------------------------------------
  // A matcher for sequences of repeated character classes: `[..]{min,max}` pieces.

  datatype CharRange = CharRange(lo: char, hi: char)
  type CharClass = seq<CharRange>

  predicate InClass(c: char, cls: CharClass)
  {
    exists k :: 0 <= k < |cls| && cls[k].lo <= c <= cls[k].hi
  }

  predicate AllInClass(s: string, cls: CharClass)
  {
    forall i :: 0 <= i < |s| ==> InClass(s[i], cls)
  }

  datatype Bound = AtMost(n: nat) | Unbounded

  /** One regular-expression piece: a character class repeated min..max times. */
  datatype Piece = Piece(cls: CharClass, min: nat, max: Bound)

  predicate WithinMax(k: nat, b: Bound)
  {
    b.Unbounded? || k <= b.n
  }

  /** `s` as a whole matches the pieces of `pat` in order (anchored at both ends,
      as `NSPredicate ... MATCHES` and Java `String.matches` do). */
  predicate Matches(s: string, pat: seq<Piece>)
    decreases |pat|, |s| + 1
  {
    if pat == [] then s == [] else Extend(s, pat, 0)
  }

  /** The first piece has consumed `s[..k]`; either stop it here or consume one more. */
  predicate Extend(s: string, pat: seq<Piece>, k: nat)
    requires pat != [] && k <= |s|
    decreases |pat|, |s| - k
  {
    (pat[0].min <= k && WithinMax(k, pat[0].max) && Matches(s[k..], pat[1..]))
    || (k < |s| && WithinMax(k + 1, pat[0].max) && InClass(s[k], pat[0].cls) && Extend(s, pat, k + 1))
  }

  /** The first piece of `pat` can take exactly `s[..m]`, and the rest takes `s[m..]`. */
  ghost predicate SplitsAt(s: string, pat: seq<Piece>, m: int)
    requires pat != []
  {
    0 <= m <= |s| && pat[0].min <= m && WithinMax(m, pat[0].max)
    && AllInClass(s[..m], pat[0].cls) && Matches(s[m..], pat[1..])
  }

  lemma {:induction false} ExtendIff(s: string, pat: seq<Piece>, k: nat)
    requires pat != [] && k <= |s|
    requires AllInClass(s[..k], pat[0].cls) && WithinMax(k, pat[0].max)
    ensures Extend(s, pat, k) <==> exists m :: k <= m && SplitsAt(s, pat, m)
    decreases |s| - k
  {
    if Extend(s, pat, k) {
      if pat[0].min <= k && Matches(s[k..], pat[1..]) {
        assert SplitsAt(s, pat, k);
      } else {
        assert s[..k + 1] == s[..k] + [s[k]];
        ExtendIff(s, pat, k + 1);
      }
    }
    if exists m :: k <= m && SplitsAt(s, pat, m) {
      var m :| k <= m && SplitsAt(s, pat, m);
      if m > k {
        assert s[..k + 1] == s[..m][..k + 1];
        assert InClass(s[k], pat[0].cls) by { assert s[k] == s[..m][k]; }
        ExtendIff(s, pat, k + 1);
      }
    }
  }

  /** A match of a non-empty pattern is a split of the input after the first piece. */
  lemma MatchesIff(s: string, pat: seq<Piece>)
    requires pat != []
    ensures Matches(s, pat) <==> exists m :: SplitsAt(s, pat, m)
  {
    ExtendIff(s, pat, 0);
  }

  /** For a piece of fixed width n, the only possible split is at n. */
  lemma FixedPieceIff(s: string, pat: seq<Piece>)
    requires pat != [] && pat[0].max == AtMost(pat[0].min)
    ensures Matches(s, pat) <==>
      (pat[0].min <= |s| && AllInClass(s[..pat[0].min], pat[0].cls) && Matches(s[pat[0].min..], pat[1..]))
  {
    MatchesIff(s, pat);
    if pat[0].min <= |s| && AllInClass(s[..pat[0].min], pat[0].cls) && Matches(s[pat[0].min..], pat[1..]) {
      assert SplitsAt(s, pat, pat[0].min);
    }
  }

  lemma InRangeIff(c: char, lo: char, hi: char)
    ensures InClass(c, [CharRange(lo, hi)]) <==> lo <= c <= hi
  {
    if lo <= c <= hi {
      assert [CharRange(lo, hi)][0].lo <= c <= [CharRange(lo, hi)][0].hi;
    }
  }

  lemma AllInRangeIff(s: string, lo: char, hi: char)
    ensures AllInClass(s, [CharRange(lo, hi)]) <==> forall i :: 0 <= i < |s| ==> lo <= s[i] <= hi
  {
    forall i | 0 <= i < |s| {
      InRangeIff(s[i], lo, hi);
    }
  }

  // ---------------------------------------------------------------------------
  // The classes and expressions of the four validators.

  const DigitClass: CharClass := [CharRange('0', '9')]
  const UpperClass: CharClass := [CharRange('A', 'Z')]
  const LetterClass: CharClass := [CharRange('A', 'Z'), CharRange('a', 'z')]
  /** `[A-Z0-9a-z._%+-]` */
  const LocalPartClass: CharClass :=
    [CharRange('A', 'Z'), CharRange('0', '9'), CharRange('a', 'z'),
     CharRange('.', '.'), CharRange('_', '_'), CharRange('%', '%'), CharRange('+', '+'), CharRange('-', '-')]
  /** `[A-Za-z0-9.-]` */
  const DomainClass: CharClass :=
    [CharRange('A', 'Z'), CharRange('a', 'z'), CharRange('0', '9'), CharRange('.', '.'), CharRange('-', '-')]

  function Exactly(cls: CharClass, n: nat): Piece { Piece(cls, n, AtMost(n)) }

  /** `^[6-9]\d{9}$` */
  const MobilePattern: seq<Piece> := [Exactly([CharRange('6', '9')], 1), Exactly(DigitClass, 9)]
  /** `^[0-9]{12}$` */
  const AadhaarPattern: seq<Piece> := [Exactly(DigitClass, 12)]
  /** `^[A-Z]{5}[0-9]{4}[A-Z]{1}$` */
  const PanPattern: seq<Piece> := [Exactly(UpperClass, 5), Exactly(DigitClass, 4), Exactly(UpperClass, 1)]
  /** `[A-Z0-9a-z._%+-]+@[A-Za-z0-9.-]+\.[A-Za-z]{2,64}` */
  const EmailPattern: seq<Piece> :=
    [Piece(LocalPartClass, 1, Unbounded), Exactly([CharRange('@', '@')], 1),
     Piece(DomainClass, 1, Unbounded), Exactly([CharRange('.', '.')], 1),
     Piece(LetterClass, 2, AtMost(64))]

  predicate IsValidMobileNumber(s: string) { Matches(s, MobilePattern) }
  predicate IsValidAadhaar(s: string) { Matches(s, AadhaarPattern) }
  predicate IsValidPAN(s: string) { Matches(s, PanPattern) }
  predicate IsValidEmail(s: string) { Matches(s, EmailPattern) }

  // ---------------------------------------------------------------------------
  // What each expression accepts.

  lemma DigitsIff(s: string)
    ensures AllInClass(s, DigitClass) <==> AllDigits(s)
  {
    AllInRangeIff(s, '0', '9');
  }

  lemma UppersIff(s: string)
    ensures AllInClass(s, UpperClass) <==> forall i :: 0 <= i < |s| ==> IsUpper(s[i])
  {
    AllInRangeIff(s, 'A', 'Z');
  }

  /** A mobile number is ten characters: the first in 6..9, the other nine digits. */
  lemma MobileNumberShape(s: string)
    ensures IsValidMobileNumber(s) <==> |s| == 10 && '6' <= s[0] <= '9' && AllDigits(s[1..])
  {
    FixedPieceIff(s, MobilePattern);
    if |s| >= 1 {
      AllInRangeIff(s[..1], '6', '9');
      var t := s[1..];
      FixedPieceIff(t, MobilePattern[1..]);
      if |t| >= 9 {
        DigitsIff(t[..9]);
        assert Matches(t[9..], []) <==> |t| == 9;
        if |t| == 9 {
          assert t[..9] == t;
        }
      }
    }
  }

  /** An Aadhaar number is exactly twelve digits. */
  lemma AadhaarShape(s: string)
    ensures IsValidAadhaar(s) <==> |s| == 12 && AllDigits(s)
  {
    FixedPieceIff(s, AadhaarPattern);
    if |s| >= 12 {
      DigitsIff(s[..12]);
      if |s| == 12 {
        assert s[..12] == s;
      }
    }
  }

  /** A PAN is five upper-case letters, four digits and one upper-case letter. */
  lemma PanShape(s: string)
    ensures IsValidPAN(s) <==>
      |s| == 10
      && (forall i :: 0 <= i < 5 ==> IsUpper(s[i]))
      && (forall i :: 5 <= i < 9 ==> IsDigit(s[i]))
      && IsUpper(s[9])
  {
    FixedPieceIff(s, PanPattern);
    if |s| >= 5 {
      UppersIff(s[..5]);
      var t := s[5..];
      FixedPieceIff(t, PanPattern[1..]);
      if |t| >= 4 {
        DigitsIff(t[..4]);
        var u := t[4..];
        FixedPieceIff(u, PanPattern[2..]);
        if |u| >= 1 {
          UppersIff(u[..1]);
          assert Matches(u[1..], []) <==> |u| == 1;
          if |s| == 10 {
            assert forall i :: 5 <= i < 9 ==> s[i] == t[..4][i - 5];
            assert forall i :: 0 <= i < 5 ==> s[i] == s[..5][i];
            assert s[9] == u[..1][0];
          }
        }
      }
    }
  }

  /** Valid PANs contain no lower-case letter, so upper-casing leaves them unchanged. */
  lemma PanIsUpperCase(s: string)
    requires IsValidPAN(s)
    ensures ToUpper(s) == s
  {
    PanShape(s);
  }

  // ---------------------------------------------------------------------------
  // The e-mail expression: local@domain.tld

  /** `s` splits as `s[..at]` (local part), '@', `s[at+1..dot]` (domain), '.', and a
      top-level domain of 2 to 64 letters after `dot`. */
  ghost predicate EmailSplit(s: string, at: int, dot: int)
  {
    0 < at && at + 1 < dot && dot + 3 <= |s| && |s| - dot - 1 <= 64
    && s[at] == '@' && s[dot] == '.'
    && AllInClass(s[..at], LocalPartClass)
    && AllInClass(s[at + 1..dot], DomainClass)
    && AllInClass(s[dot + 1..], LetterClass)
  }

  lemma LastPiecesIff(t: string)
    ensures Matches(t, EmailPattern[3..]) <==>
      3 <= |t| <= 65 && t[0] == '.' && AllInClass(t[1..], LetterClass)
  {
    FixedPieceIff(t, EmailPattern[3..]);
    if |t| >= 1 {
      InRangeIff(t[0], '.', '.');
      var u := t[1..];
      MatchesIff(u, EmailPattern[4..]);
      if 2 <= |u| <= 64 && AllInClass(u, LetterClass) {
        assert u[..|u|] == u;
        assert SplitsAt(u, EmailPattern[4..], |u|);
      }
      if exists m :: SplitsAt(u, EmailPattern[4..], m) {
        var m :| SplitsAt(u, EmailPattern[4..], m);
        assert Matches(u[m..], []);
        assert m == |u| && u[..m] == u;
      }
    }
  }

  lemma DomainPiecesIff(t: string)
    ensures Matches(t, EmailPattern[2..]) <==>
      exists d :: 0 < d && d + 3 <= |t| && |t| - d - 1 <= 64 && t[d] == '.'
        && AllInClass(t[..d], DomainClass) && AllInClass(t[d + 1..], LetterClass)
  {
    MatchesIff(t, EmailPattern[2..]);
    if Matches(t, EmailPattern[2..]) {
      var d :| SplitsAt(t, EmailPattern[2..], d);
      LastPiecesIff(t[d..]);
      assert t[d..][1..] == t[d + 1..];
    }
    if exists d :: 0 < d && d + 3 <= |t| && |t| - d - 1 <= 64 && t[d] == '.'
        && AllInClass(t[..d], DomainClass) && AllInClass(t[d + 1..], LetterClass) {
      var d :| 0 < d && d + 3 <= |t| && |t| - d - 1 <= 64 && t[d] == '.'
        && AllInClass(t[..d], DomainClass) && AllInClass(t[d + 1..], LetterClass);
      LastPiecesIff(t[d..]);
      assert t[d..][1..] == t[d + 1..];
      assert SplitsAt(t, EmailPattern[2..], d);
    }
  }

  lemma AtPiecesIff(t: string)
    ensures Matches(t, EmailPattern[1..]) <==>
      |t| >= 1 && t[0] == '@' && Matches(t[1..], EmailPattern[2..])
  {
    FixedPieceIff(t, EmailPattern[1..]);
    if |t| >= 1 {
      InRangeIff(t[0], '@', '@');
      assert EmailPattern[1..][1..] == EmailPattern[2..];
    }
  }

  lemma EmailShapeOnlyIf(s: string)
    requires IsValidEmail(s)
    ensures exists at, dot :: EmailSplit(s, at, dot)
  {
    MatchesIff(s, EmailPattern);
    var a :| SplitsAt(s, EmailPattern, a);
    var t := s[a..];
    AtPiecesIff(t);
    var u := t[1..];
    DomainPiecesIff(u);
    var d :| 0 < d && d + 3 <= |u| && |u| - d - 1 <= 64 && u[d] == '.'
      && AllInClass(u[..d], DomainClass) && AllInClass(u[d + 1..], LetterClass);
    assert u[..d] == s[a + 1..a + 1 + d];
    assert u[d + 1..] == s[a + 1 + d + 1..];
    assert EmailSplit(s, a, a + 1 + d);
  }

  lemma EmailShapeIf(s: string, at: int, dot: int)
    requires EmailSplit(s, at, dot)
    ensures IsValidEmail(s)
  {
    var t := s[at..];
    var u := t[1..];
    var d := dot - at - 1;
    assert u[..d] == s[at + 1..dot];
    assert u[d + 1..] == s[dot + 1..];
    DomainPiecesIff(u);
    AtPiecesIff(t);
    assert SplitsAt(s, EmailPattern, at);
    MatchesIff(s, EmailPattern);
  }

  /** The e-mail expression accepts exactly the strings that split as
      local@domain.tld with the three classes above and a 2..64-letter TLD. */
  lemma EmailShape(s: string)
    ensures IsValidEmail(s) <==> exists at, dot :: EmailSplit(s, at, dot)
  {
    if IsValidEmail(s) {
      EmailShapeOnlyIf(s);
    }
    if exists at, dot :: EmailSplit(s, at, dot) {
      var at, dot :| EmailSplit(s, at, dot);
      EmailShapeIf(s, at, dot);
    }
  }

  /** '@' is in neither the local-part nor the domain class, so a valid address has
      exactly one '@' — quoted local parts of RFC 5322 addresses are rejected. */
  lemma EmailHasOneAt(s: string, at: int, dot: int, i: int)
    requires EmailSplit(s, at, dot) && 0 <= i < |s| && s[i] == '@'
    ensures i == at
  {
  }
}
