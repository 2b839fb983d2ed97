/**
 * The fragment of regular expressions that the student field constraints use:
 * a pattern anchored at both ends (`^...$`), written as a sequence of pieces,
 * each piece one character class with a repetition count (`+` is one or more,
 * `{9}` exactly nine, no quantifier exactly one).
 *
 * The semantics follow the regex engine that pydantic 2 uses for `pattern=`:
 * `$` matches only at the end of the text, and `\s` is the Unicode White_Space
 * property.
 */
module Patterns {

  import opened Wrappers

  /** One member of a bracketed class, or a class escape. */
  datatype ClassItem =
    | Range(lo: char, hi: char)   // `A-Z`
    | Literal(c: char)            // `-`
    | SpaceEscape                 // `\s`
    | DigitEscape                 // `\d`

  type CharClass = seq<ClassItem>

  /** A character class repeated at least `min` and at most `max` times (`None` is unbounded). */
  datatype Piece = Piece(cls: CharClass, min: nat, max: Option<nat>)

  /** An anchored pattern `^p0 p1 ... pn$`. */
  type Pattern = seq<Piece>

  /** The Unicode White_Space property, which `\s` denotes. */
  predicate IsSpace(c: char)
  {
    || ('\U{0009}' <= c <= '\U{000D}') || c == '\U{0020}' || c == '\U{0085}' || c == '\U{00A0}'
    || c == '\U{1680}' || ('\U{2000}' <= c <= '\U{200A}') || c == '\U{2028}' || c == '\U{2029}'
    || c == '\U{202F}' || c == '\U{205F}' || c == '\U{3000}'
  }

  /** The decimal digits `0`-`9` (see README for the Unicode digits left out). */
  predicate IsDigit(c: char)
  {
    '0' <= c <= '9'
  }

  predicate ItemMatches(item: ClassItem, c: char)
  {
    match item
    case Range(lo, hi) => lo <= c <= hi
    case Literal(d) => c == d
    case SpaceEscape => IsSpace(c)
    case DigitEscape => IsDigit(c)
  }

  predicate InClass(cls: CharClass, c: char)
  {
    exists i :: 0 <= i < |cls| && ItemMatches(cls[i], c)
  }

  /** Every character of `t` belongs to the class. */
  predicate AllIn(cls: CharClass, t: string)
  {
    forall i :: 0 <= i < |t| ==> InClass(cls, t[i])
  }

  /** The piece may consume exactly `k` characters. */
  predicate Admits(piece: Piece, k: nat)
  {
    piece.min <= k && (piece.max.None? || k <= piece.max.value)
  }

  /**
   * The whole of `s` matches the anchored pattern `p`: some split of `s` gives
   * each piece a run of characters of its class, of a length the piece admits.
   */
  predicate Matches(p: Pattern, s: string)
    decreases |p|
  {
    if p == [] then s == []
    else exists k :: 0 <= k <= |s| && Admits(p[0], k) && AllIn(p[0].cls, s[..k]) && Matches(p[1..], s[k..])
  }

  /** A pattern made of one piece matches exactly the runs of its class of an admitted length. */
  lemma SinglePiece(piece: Piece, s: string)
    ensures Matches([piece], s) <==> Admits(piece, |s|) && AllIn(piece.cls, s)
  {
    var p := [piece];
    assert p[1..] == [];
    if Admits(piece, |s|) && AllIn(piece.cls, s) {
      assert s[..|s|] == s;
      assert s[|s|..] == [];
    }
    if Matches(p, s) {
      var k :| 0 <= k <= |s| && Admits(piece, k) && AllIn(piece.cls, s[..k]) && Matches(p[1..], s[k..]);
      assert |s[k..]| == 0;
      assert s[..k] == s;
    }
  }

  /** A pattern `^a b$` of two pieces of which the first admits exactly one character. */
  lemma TwoPieces(a: Piece, b: Piece, s: string)
    requires a.min == 1 && a.max == Some(1)
    ensures Matches([a, b], s) <==>
      |s| >= 1 && InClass(a.cls, s[0]) && Admits(b, |s| - 1) && AllIn(b.cls, s[1..])
  {
    var p := [a, b];
    assert p[1..] == [b];
    if |s| >= 1 && InClass(a.cls, s[0]) && Admits(b, |s| - 1) && AllIn(b.cls, s[1..]) {
      SinglePiece(b, s[1..]);
      assert AllIn(a.cls, s[..1]);
    }
    if Matches(p, s) {
      var k :| 0 <= k <= |s| && Admits(a, k) && AllIn(a.cls, s[..k]) && Matches(p[1..], s[k..]);
      assert k == 1;
      assert s[..k][0] == s[0];
      SinglePiece(b, s[k..]);
    }
  }
}
