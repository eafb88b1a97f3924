/**
 * The property-pane validator for the mission code: the value is accepted
 * (empty error message) when the global regular expression
 * `AS-[2,5][0,1][0-9]` finds a match anywhere in it.
 *
 * Inside a character class a comma is an ordinary character, so the two
 * classes are {'2', ',', '5'} and {'0', ',', '1'}; the pattern has no
 * anchors, so a match may start and end anywhere in the value.
 */
module MissionCode {

  import opened Wrappers

  /** Every match of the pattern is exactly this many characters long. */
  const CodeLength: nat := 6

  /** The message returned for a value the pattern does not match (spelling as in the web part). */
  const InvalidCodeMessage: string := "invalid mission code: shoudl be 'AS-###'."

  /** The class `[2,5]`. */
  predicate InFirstClass(c: char) {
    c == '2' || c == ',' || c == '5'
  }

  /** The class `[0,1]`. */
  predicate InSecondClass(c: char) {
    c == '0' || c == ',' || c == '1'
  }

  /** The class `[0-9]`. */
  predicate IsDecimalDigit(c: char) {
    '0' <= c <= '9'
  }

  /**
   * The language of the pattern, stated on its own: the words the regular
   * expression denotes. Used as the reference the matcher is proved against.
   */
  predicate InCodeLanguage(w: string) {
    && |w| == CodeLength
    && w[..3] == "AS-"
    && w[3] in "2,5"
    && w[4] in "0,1"
    && w[5] in "0123456789"
  }

  /** Unanchored matching: some substring of `s` is a word of the pattern's language. */
  ghost predicate ContainsCode(s: string) {
    exists i, j :: 0 <= i <= j <= |s| && InCodeLanguage(s[i..j])
  }

  /** One attempt of the regex engine: does the pattern match starting at position `i`? */
  predicate MatchesAt(s: string, i: nat) {
    && i + CodeLength <= |s|
    && s[i] == 'A' && s[i + 1] == 'S' && s[i + 2] == '-'
    && InFirstClass(s[i + 3])
    && InSecondClass(s[i + 4])
    && IsDecimalDigit(s[i + 5])
  }

  /**
   * The engine's scan from `from` onwards: the leftmost position at which the
   * pattern matches, or None when it matches nowhere from there.
   */
  function FindMatch(s: string, from: nat): (r: Option<nat>)
    requires from <= |s|
    decreases |s| - from
    ensures r.Some? ==> from <= r.value && MatchesAt(s, r.value)
    ensures r.Some? ==> forall i: nat :: from <= i < r.value ==> !MatchesAt(s, i)
    ensures r.None? ==> forall i: nat :: from <= i ==> !MatchesAt(s, i)
  {
    if from + CodeLength > |s| then None
    else if MatchesAt(s, from) then Some(from)
    else FindMatch(s, from + 1)
  }

  /**
   * The start positions of all matches a global search finds from `from`:
   * after each match the search resumes right after it, so the matches are
   * in order and do not overlap. `MatchIsFound` proves that no match is left
   * out, and the three `NoMatch...` lemmas that nothing else lies between.
   */
  function MatchPositions(s: string, from: nat): (ps: seq<nat>)
    requires from <= |s|
    decreases |s| - from
    ensures forall j :: 0 <= j < |ps| ==> from <= ps[j] && MatchesAt(s, ps[j])
    ensures forall j :: 0 < j < |ps| ==> ps[j - 1] + CodeLength <= ps[j]
    ensures ps == [] <==> forall i: nat :: from <= i ==> !MatchesAt(s, i)
  {
    match FindMatch(s, from)
    case None => []
    case Some(k) => [k] + MatchPositions(s, k + CodeLength)
  }

  /** The engine succeeds at no position in `lo` .. `hi` - 1. */
  ghost predicate NoMatchBetween(s: string, lo: nat, hi: nat) {
    forall i: nat :: lo <= i < hi ==> !MatchesAt(s, i)
  }

  /** The global search skips no match before the first position it finds. */
  lemma NoMatchBeforeFirst(s: string, from: nat)
    requires from <= |s|
    ensures var ps := MatchPositions(s, from);
            ps != [] ==> NoMatchBetween(s, from, ps[0])
  {
    match FindMatch(s, from)
    case None =>
    case Some(k) =>
      assert MatchPositions(s, from)[0] == k;
  }

  /** The global search skips no match between the (j-1)-th and the j-th position it finds. */
  lemma {:induction false} NoMatchBetweenConsecutive(s: string, from: nat, j: nat)
    requires from <= |s|
    requires 0 < j < |MatchPositions(s, from)|
    decreases |s| - from
    ensures var ps := MatchPositions(s, from);
            NoMatchBetween(s, ps[j - 1] + CodeLength, ps[j])
  {
    var ps := MatchPositions(s, from);
    var k := FindMatch(s, from).value;
    var rest := MatchPositions(s, k + CodeLength);
    assert ps == [k] + rest;
    if j == 1 {
      NoMatchBeforeFirst(s, k + CodeLength);
    } else {
      NoMatchBetweenConsecutive(s, k + CodeLength, j - 1);
      assert ps[j - 1] == rest[j - 2] && ps[j] == rest[j - 1];
    }
  }

  /** The global search skips no match after the last position it finds. */
  lemma {:induction false} NoMatchAfterLast(s: string, from: nat)
    requires from <= |s|
    decreases |s| - from
    ensures var ps := MatchPositions(s, from);
            ps != [] ==> NoMatchBetween(s, ps[|ps| - 1] + CodeLength, |s| + 1)
  {
    var ps := MatchPositions(s, from);
    match FindMatch(s, from)
    case None =>
    case Some(k) =>
      var rest := MatchPositions(s, k + CodeLength);
      assert ps == [k] + rest;
      if rest != [] {
        NoMatchAfterLast(s, k + CodeLength);
        assert ps[|ps| - 1] == rest[|rest| - 1];
      }
  }

  /**
   * Two matches of the pattern never overlap: no attempt succeeds inside a
   * match, because "AS-" can only start where an 'A' is and the other five
   * characters of a match are never an 'A'.
   */
  lemma NoSelfOverlap(s: string, i: nat, k: nat)
    requires MatchesAt(s, i) && i < k < i + CodeLength
    ensures !MatchesAt(s, k)
  {
  }

  /** Every position where the pattern matches, at or after `from`, is found by the global search. */
  lemma {:induction false} MatchIsFound(s: string, from: nat, i: nat)
    requires from <= i && from <= |s| && MatchesAt(s, i)
    decreases |s| - from
    ensures i in MatchPositions(s, from)
  {
    var k := FindMatch(s, from).value;
    if i != k {
      if i < k + CodeLength {
        NoSelfOverlap(s, k, i);
      }
      MatchIsFound(s, k + CodeLength, i);
    }
  }

  /**
   * `s.match(/AS-[2,5][0,1][0-9]/g)`: None (null) when nothing matches,
   * otherwise the matched substrings: the j-th is the text of `s` at the
   * j-th position the global search finds, and is a word of the pattern's
   * language.
   */
  function Match(s: string): (r: Option<seq<string>>)
    ensures r.None? <==> !ContainsCode(s)
    ensures r.Some? ==>
              var ps := MatchPositions(s, 0);
              && |r.value| == |ps| > 0
              && forall j :: 0 <= j < |ps| ==>
                   r.value[j] == s[ps[j]..ps[j] + CodeLength] && InCodeLanguage(r.value[j])
  {
    var ps := MatchPositions(s, 0);
    ContainsCodeIffSomeMatch(s);
    if ps == [] then None
    else
      MatchedTextsInLanguage(s, ps);
      Some(seq(|ps|, j requires 0 <= j < |ps| => s[ps[j]..ps[j] + CodeLength]))
  }

  /** The text at every position where the engine succeeds is a word of the language. */
  lemma MatchedTextsInLanguage(s: string, ps: seq<nat>)
    requires forall j :: 0 <= j < |ps| ==> MatchesAt(s, ps[j])
    ensures forall j :: 0 <= j < |ps| ==>
              ps[j] + CodeLength <= |s| && InCodeLanguage(s[ps[j]..ps[j] + CodeLength])
  {
    forall j | 0 <= j < |ps|
      ensures ps[j] + CodeLength <= |s| && InCodeLanguage(s[ps[j]..ps[j] + CodeLength])
    {
      MatchesAtIffWindow(s, ps[j]);
    }
  }

  /**
   * The validator: the empty string when the pattern matches somewhere in
   * `value`, the fixed error message otherwise.
   */
  function ValidateMissionCode(value: string): (r: string)
    ensures r == "" <==> ContainsCode(value)
    ensures r != "" ==> r == InvalidCodeMessage
  {
    if Match(value).Some? then "" else InvalidCodeMessage
  }

  /** One engine attempt at `i` succeeds exactly when the six characters there form a word of the language. */
  lemma MatchesAtIffWindow(s: string, i: nat)
    ensures MatchesAt(s, i) <==> i + CodeLength <= |s| && InCodeLanguage(s[i..i + CodeLength])
  {
    if i + CodeLength <= |s| {
      var w := s[i..i + CodeLength];
      assert w[..3] == "AS-" <==> s[i] == 'A' && s[i + 1] == 'S' && s[i + 2] == '-' by {
        if s[i] == 'A' && s[i + 1] == 'S' && s[i + 2] == '-' {
          assert w[..3] == [w[0], w[1], w[2]];
        }
      }
    }
  }

  /** The reference predicate agrees with the engine attempting every start position. */
  lemma ContainsCodeIffSomeMatch(s: string)
    ensures ContainsCode(s) <==> exists i: nat :: MatchesAt(s, i)
  {
    if ContainsCode(s) {
      var i, j :| 0 <= i <= j <= |s| && InCodeLanguage(s[i..j]);
      MatchesAtIffWindow(s, i);
      assert MatchesAt(s, i);
    }
    if i: nat :| MatchesAt(s, i) {
      MatchesAtIffWindow(s, i);
      assert InCodeLanguage(s[i..i + CodeLength]);
    }
  }

  /** The validator answers with exactly one of two strings. */
  lemma ValidatorAnswers(value: string)
    ensures ValidateMissionCode(value) in {"", InvalidCodeMessage}
  {
  }

  /**
   * Matching is unanchored: whatever is written before or after an accepted
   * value, the result is still accepted.
   */
  lemma UnanchoredAcceptance(prefix: string, value: string, suffix: string)
    requires ValidateMissionCode(value) == ""
    ensures ValidateMissionCode(prefix + value + suffix) == ""
  {
    var i, j :| 0 <= i <= j <= |value| && InCodeLanguage(value[i..j]);
    var s := prefix + value + suffix;
    assert s[|prefix| + i..|prefix| + j] == value[i..j];
  }

  /**
   * A six-character value starting with "AS-" is accepted exactly when its
   * last three characters fall in `[2,5]`, `[0,1]` and `[0-9]`.
   */
  lemma SixCharacterCodes(a: char, b: char, d: char)
    ensures ValidateMissionCode("AS-" + [a, b, d]) == "" <==>
              InFirstClass(a) && InSecondClass(b) && IsDecimalDigit(d)
  {
    var s := "AS-" + [a, b, d];
    ContainsCodeIffSomeMatch(s);
    if InFirstClass(a) && InSecondClass(b) && IsDecimalDigit(d) {
      assert MatchesAt(s, 0);
    }
    if i: nat :| MatchesAt(s, i) {
      assert i == 0;
    }
  }

  /** The comma is a literal member of both classes, so "AS-,,0" is accepted. */
  lemma CommaIsAccepted()
    ensures ValidateMissionCode("AS-,,0") == ""
  {
    SixCharacterCodes(',', ',', '0');
  }

  /** '3' is outside `[2,5]` and '2' is outside `[0,1]`. */
  lemma OutOfClassRejected()
    ensures ValidateMissionCode("AS-306") == InvalidCodeMessage
    ensures ValidateMissionCode("AS-526") == InvalidCodeMessage
  {
    SixCharacterCodes('3', '0', '6');
    assert "AS-" + ['3', '0', '6'] == "AS-306";
    SixCharacterCodes('5', '2', '6');
    assert "AS-" + ['5', '2', '6'] == "AS-526";
  }

  /** A code surrounded by other text is still accepted. */
  lemma SurroundedCodeAccepted()
    ensures ValidateMissionCode("xAS-506y") == ""
  {
    var s := "xAS-506y";
    assert InCodeLanguage(s[1..7]);
  }

  /** A value shorter than a code can never be accepted. */
  lemma ShortValueRejected(value: string)
    requires |value| < CodeLength
    ensures ValidateMissionCode(value) == InvalidCodeMessage
  {
    ContainsCodeIffSomeMatch(value);
  }

  /** "AS-" occurs in `s` at position `i`. */
  predicate HasCodePrefixAt(s: string, i: nat) {
    i + 3 <= |s| && s[i..i + 3] == "AS-"
  }

  /** The engine only succeeds where "AS-" occurs. */
  lemma MatchStartsWithPrefix(s: string, i: nat)
    requires MatchesAt(s, i)
    ensures HasCodePrefixAt(s, i)
  {
    assert s[i..i + 3] == [s[i], s[i + 1], s[i + 2]];
  }

  /** A value in which "AS-" occurs nowhere is rejected. */
  lemma NoPrefixRejected(value: string)
    requires forall i: nat :: !HasCodePrefixAt(value, i)
    ensures ValidateMissionCode(value) == InvalidCodeMessage
  {
    ContainsCodeIffSomeMatch(value);
    forall i: nat ensures !MatchesAt(value, i) {
      if MatchesAt(value, i) {
        MatchStartsWithPrefix(value, i);
      }
    }
  }
}
