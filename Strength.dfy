/**
 * The password strength estimator of the registration form: a score that
 * counts five independent tests on the password, and the tier (tier, bar
 * width and colour) that the score is shown as.
 */
module Strength {

  /** `/[A-Z]/` */
  predicate IsUpper(c: char) { 'A' <= c <= 'Z' }

  /** `/[0-9]/` */
  predicate IsDigit(c: char) { '0' <= c <= '9' }

  /** `/[^A-Za-z0-9]/`: anything but an ASCII letter or digit. */
  predicate IsSymbol(c: char) {
    !(IsUpper(c) || ('a' <= c <= 'z') || IsDigit(c))
  }

  /** `/[...]/.test(s)` for a one-character class: some character of `s`
      belongs to the class. */
  function Test(s: string, member: char -> bool): (found: bool)
    ensures found <==> exists i :: 0 <= i < |s| && member(s[i])
  {
    if s == [] then false
    else if member(s[0]) then true
    else
      var found := Test(s[1..], member);
      assert found ==> exists i :: 0 <= i < |s| && member(s[i]) by {
        if found {
          var i :| 0 <= i < |s| - 1 && member(s[1..][i]);
          assert member(s[i + 1]);
        }
      }
      assert (exists i :: 0 <= i < |s| && member(s[i])) ==> found by {
        if exists i :: 0 <= i < |s| && member(s[i]) {
          var i :| 0 <= i < |s| && member(s[i]);
          assert i > 0 && member(s[1..][i - 1]);
        }
      }
      found
  }

  /** 1 when the test passes, 0 otherwise. */
  function Point(passed: bool): nat { if passed then 1 else 0 }

  /** The score of `checkStrength`: one point each for a length over 5, a
      length over 8, an upper-case letter, a digit and a symbol. */
  function Score(password: string): (score: nat)
    ensures score <= 5
    ensures score == 5 <==>
      |password| > 8 && Test(password, IsUpper) &&
      Test(password, IsDigit) && Test(password, IsSymbol)
    ensures score == 0 <==>
      |password| <= 5 && !Test(password, IsUpper) &&
      !Test(password, IsDigit) && !Test(password, IsSymbol)
  {
    Point(|password| > 5) + Point(|password| > 8) +
    Point(Test(password, IsUpper)) + Point(Test(password, IsDigit)) +
    Point(Test(password, IsSymbol))
  }

  /** A test that passes on `s` still passes once characters are appended. */
  lemma {:induction false} TestAppend(s: string, t: string, member: char -> bool)
    requires Test(s, member)
    ensures Test(s + t, member)
  {
    var i :| 0 <= i < |s| && member(s[i]);
    assert (s + t)[i] == s[i];
  }

  /** Typing more characters never lowers the score. */
  lemma ScoreMonotone(s: string, t: string)
    ensures Score(s) <= Score(s + t)
  {
    if Test(s, IsUpper) { TestAppend(s, t, IsUpper); }
    if Test(s, IsDigit) { TestAppend(s, t, IsDigit); }
    if Test(s, IsSymbol) { TestAppend(s, t, IsSymbol); }
  }

  /** What the strength meter shows: a tier, the bar width in percent and
      the bar colour (an opaque CSS colour string). */
  datatype Rating = Rating(tier: string, width: nat, colour: string)

  const NeutralColour := "#ddd"

  /** The tier of a score, as the if-chain of `checkStrength` picks it: the
      scores fall into four ranges, each with its own tier and bar width. */
  function Rate(score: nat): (r: Rating)
    ensures r.width <= 100
    ensures score == 0 <==> r == Rating("", 0, NeutralColour)
    ensures 1 <= score <= 2 <==> r.tier == "Weak" && r.width == 30
    ensures 3 <= score <= 4 <==> r.tier == "Medium" && r.width == 70
    ensures score >= 5 <==> r.tier == "Strong" && r.width == 100
    ensures r.tier == "" <==> score == 0
    ensures r.width == 100 <==> score >= 5
  {
    if score == 0 then Rating("", 0, NeutralColour)
    else if score <= 2 then Rating("Weak", 30, "#ff4757")
    else if score <= 4 then Rating("Medium", 70, "#ffa502")
    else Rating("Strong", 100, "#2ed573")
  }

  /** A higher score never draws a shorter bar. */
  lemma RateMonotone(m: nat, n: nat)
    requires m <= n
    ensures Rate(m).width <= Rate(n).width
  {
  }

  /** The bar is full exactly when the password is longer than eight
      characters and holds an upper-case letter, a digit and a symbol. */
  lemma StrongIff(password: string)
    ensures Rate(Score(password)).tier == "Strong" <==>
      |password| > 8 && Test(password, IsUpper) &&
      Test(password, IsDigit) && Test(password, IsSymbol)
  {
  }

  /** The password typed by the positive end-to-end flow rates "Strong". */
  lemma TestPasswordIsStrong()
    ensures Score("Test@1234") == 5
    ensures Rate(Score("Test@1234")).tier == "Strong"
  {
    var p := "Test@1234";
    assert IsUpper(p[0]) && IsSymbol(p[4]) && IsDigit(p[5]);
  }

  /** A short password of lower-case letters scores nothing and shows no
      tier. */
  lemma PlainShortScoresZero()
    ensures Score("abc") == 0 && Rate(Score("abc")).tier == ""
  {
    assert !Test("abc", IsUpper) && !Test("abc", IsDigit) && !Test("abc", IsSymbol);
  }

  /** Eight characters with an upper-case letter, a digit and a symbol score
      four, not five: the length point for more than eight is missing. */
  lemma EightCharactersScoreMedium()
    ensures Score("Abcdef1!") == 4 && Rate(Score("Abcdef1!")).tier == "Medium"
  {
    var p := "Abcdef1!";
    assert IsUpper(p[0]) && IsDigit(p[6]) && IsSymbol(p[7]);
  }

  /** Six lower-case letters earn only the first length point. */
  lemma SixLettersScoreWeak()
    ensures Score("abcdef") == 1 && Rate(Score("abcdef")).tier == "Weak"
  {
    assert !Test("abcdef", IsUpper) && !Test("abcdef", IsDigit) && !Test("abcdef", IsSymbol);
  }
}
