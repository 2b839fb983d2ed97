/**
 * The request and response shapes of the student API and the field
 * constraints attached to them.  `StudentCreate` and `StudentUpdate` add
 * nothing to `StudentBase`, so they are the same type with the same
 * constraints; `StudentOut` is `StudentBase` plus the row id.
 */
module Models {

  import opened Wrappers
  import opened Patterns

  const NameMinLength := 2
  const NameMaxLength := 50

  /** A calendar date as parsed by the framework; its validity is a parameter of `ValidStudent`. */
  datatype Date = Date(year: int, month: int, day: int)

  datatype StudentBase = StudentBase(
    firstName: string,
    lastName: string,
    phone: string,
    birthdate: Date,
    email: string)

  type StudentCreate = StudentBase

  type StudentUpdate = StudentBase

  datatype StudentOut = StudentOut(
    id: int,
    firstName: string,
    lastName: string,
    phone: string,
    birthdate: Date,
    email: string)

  /** `[A-Za-z\s-]` */
  const NameClass: CharClass := [Range('A', 'Z'), Range('a', 'z'), SpaceEscape, Literal('-')]

  /** `^[A-Za-z\s-]+$` */
  const NamePattern: Pattern := [Piece(NameClass, 1, None)]

  /** `^[5-9]\d{9}$` */
  const PhonePattern: Pattern := [Piece([Range('5', '9')], 1, Some(1)), Piece([DigitEscape], 9, Some(9))]

  /** The constraint on `first_name` and `last_name`, as declared: length bounds and pattern. */
  predicate ValidName(s: string)
  {
    NameMinLength <= |s| <= NameMaxLength && Matches(NamePattern, s)
  }

  /** The constraint on `phone`, as declared: the pattern alone. */
  predicate ValidPhone(s: string)
  {
    Matches(PhonePattern, s)
  }

  predicate IsAsciiLetter(c: char)
  {
    'A' <= c <= 'Z' || 'a' <= c <= 'z'
  }

  predicate NameChar(c: char)
  {
    IsAsciiLetter(c) || IsSpace(c) || c == '-'
  }

  lemma NameClassMembers(c: char)
    ensures InClass(NameClass, c) <==> NameChar(c)
  {
    if NameChar(c) {
      if 'A' <= c <= 'Z' {
        assert ItemMatches(NameClass[0], c);
      } else if 'a' <= c <= 'z' {
        assert ItemMatches(NameClass[1], c);
      } else if IsSpace(c) {
        assert ItemMatches(NameClass[2], c);
      } else {
        assert ItemMatches(NameClass[3], c);
      }
    }
  }

  /** A name is 2 to 50 characters, each an ASCII letter, a white-space character or a hyphen. */
  lemma ValidNameChars(s: string)
    ensures ValidName(s) <==>
      2 <= |s| <= 50 && forall i :: 0 <= i < |s| ==> NameChar(s[i])
  {
    SinglePiece(NamePattern[0], s);
    assert NamePattern == [NamePattern[0]];
    forall i | 0 <= i < |s| {
      NameClassMembers(s[i]);
    }
  }

  /** The pattern alone already demands a non-empty name. */
  lemma NamePatternNonEmpty(s: string)
    ensures Matches(NamePattern, s) ==> |s| >= 1
  {
  }

  /** A phone is exactly ten characters: one of `5`-`9`, then nine decimal digits. */
  lemma ValidPhoneShape(s: string)
    ensures ValidPhone(s) <==>
      |s| == 10 && '5' <= s[0] <= '9' && forall i :: 1 <= i < 10 ==> IsDigit(s[i])
  {
    var first, rest := PhonePattern[0], PhonePattern[1];
    assert PhonePattern == [first, rest];
    TwoPieces(first, rest, s);
    if |s| >= 1 {
      assert InClass(first.cls, s[0]) <==> ItemMatches(first.cls[0], s[0]);
    }
    if |s| == 10 {
      forall i | 1 <= i < 10
        ensures InClass(rest.cls, s[i]) <==> IsDigit(s[i])
      {
        assert InClass(rest.cls, s[i]) <==> ItemMatches(rest.cls[0], s[i]);
      }
      assert AllIn(rest.cls, s[1..]) <==> forall i :: 1 <= i < 10 ==> InClass(rest.cls, s[i]) by {
        forall i | 1 <= i < 10 ensures s[1..][i - 1] == s[i] { }
      }
    }
  }

  /**
   * The constraints of `StudentBase`, which `StudentCreate` and `StudentUpdate`
   * inherit unchanged.  Email syntax and date validity belong to the framework
   * and are given as predicates.
   */
  predicate ValidStudent(s: StudentBase, isEmail: string -> bool, isDate: Date -> bool)
  {
    ValidName(s.firstName) && ValidName(s.lastName) && ValidPhone(s.phone) &&
    isDate(s.birthdate) && isEmail(s.email)
  }

  /** The response shape: the submitted fields plus the row id. */
  function WithId(id: int, s: StudentBase): (o: StudentOut)
    ensures o.id == id && Base(o) == s
  {
    StudentOut(id, s.firstName, s.lastName, s.phone, s.birthdate, s.email)
  }

  function Base(o: StudentOut): StudentBase
  {
    StudentBase(o.firstName, o.lastName, o.phone, o.birthdate, o.email)
  }
}
