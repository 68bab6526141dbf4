/** Argument parsing and message classification of the moderation bot
    (utils.py). Everything here is a pure function of its inputs.
    Characters are restricted to ASCII semantics: `str.isdigit`, regex `\d`
    and `\s`, and `str.lower` are modelled on ASCII digits, ASCII whitespace
    and ASCII letters only. */
module Utils {

  datatype Option<T> = None | Some(value: T)

  // ---------------------------------------------------------------------
  // Decimal numerals: str.isdigit, int(text) and str(n)
  // ---------------------------------------------------------------------

  predicate IsDigit(c: char) {
    '0' <= c <= '9'
  }

  predicate AllDigits(s: string) {
    forall i :: 0 <= i < |s| ==> IsDigit(s[i])
  }

  /** Python's `text.isdigit()`: false on the empty string. */
  predicate IsDecimal(s: string) {
    |s| > 0 && AllDigits(s)
  }

  function DigitValue(c: char): (d: nat)
    requires IsDigit(c)
    ensures d < 10
  {
    (c as int) - ('0' as int)
  }

  function DigitChar(d: nat): (c: char)
    requires d < 10
    ensures IsDigit(c) && DigitValue(c) == d
  {
    (('0' as int) + d) as char
  }

  /** `int(text)` on a string of decimal digits; leading zeros are allowed.
      The value is zero (falsy) exactly when every digit is '0'. */
  function DecimalValue(s: string): (v: nat)
    requires AllDigits(s)
    ensures v == 0 <==> forall i :: 0 <= i < |s| ==> s[i] == '0'
  {
    if |s| == 0 then 0 else DecimalValue(s[..|s| - 1]) * 10 + DigitValue(s[|s| - 1])
  }

  /** `str(n)` for a natural number: the canonical numeral, with no leading zero. */
  function NatToString(n: nat): (s: string)
    ensures IsDecimal(s)
    ensures |s| == 1 || s[0] != '0'
    ensures n < 10 <==> |s| == 1
  {
    if n < 10 then [DigitChar(n)] else NatToString(n / 10) + [DigitChar(n % 10)]
  }

  /** int(str(n)) == n. */
  lemma {:induction false} NatToStringRoundTrip(n: nat)
    ensures DecimalValue(NatToString(n)) == n
  {
    var s := NatToString(n);
    if n < 10 {
      assert s[..|s| - 1] == [];
    } else {
      assert s[..|s| - 1] == NatToString(n / 10);
      NatToStringRoundTrip(n / 10);
    }
  }

  /** A numeral whose first digit is not '0' denotes a positive number. */
  lemma {:induction false} LeadingDigitPositive(s: string)
    requires IsDecimal(s) && s[0] != '0'
    ensures DecimalValue(s) >= 1
  {
    if |s| > 1 {
      LeadingDigitPositive(s[..|s| - 1]);
    }
  }

  /** str(int(text)) == text exactly when text is canonical: a single digit,
      or a numeral that does not start with '0'. So "007" is stored as "7". */
  lemma {:induction false} CanonicalRoundTrip(s: string)
    requires IsDecimal(s)
    ensures NatToString(DecimalValue(s)) == s <==> (|s| == 1 || s[0] != '0')
  {
    if |s| == 1 || s[0] != '0' {
      CanonicalRoundTripPositive(s);
    }
  }

  lemma {:induction false} CanonicalRoundTripPositive(s: string)
    requires IsDecimal(s) && (|s| == 1 || s[0] != '0')
    ensures NatToString(DecimalValue(s)) == s
  {
    var init := s[..|s| - 1];
    var last := s[|s| - 1];
    if |s| == 1 {
      assert init == [];
      assert DigitChar(DigitValue(last)) == last;
    } else {
      assert init[0] == s[0];
      LeadingDigitPositive(init);
      CanonicalRoundTripPositive(init);
      var v := DecimalValue(s);
      assert v == DecimalValue(init) * 10 + DigitValue(last);
      assert v / 10 == DecimalValue(init) && v % 10 == DigitValue(last);
      assert DigitChar(DigitValue(last)) == last;
      assert s == init + [last];
    }
  }

  // ---------------------------------------------------------------------
  // extract_user_info
  // ---------------------------------------------------------------------

  /** The (user id, username) pair parsed from a command argument. */
  datatype UserInfo = UserInfo(userId: Option<nat>, username: Option<string>)

  predicate StartsWithAt(text: string) {
    |text| > 0 && text[0] == '@'
  }

  /** A numeric argument gives an id, an `@handle` gives itself as username,
      anything else (the empty string included) gives neither. */
  function ExtractUserInfo(text: string): (r: UserInfo)
    ensures !(r.userId.Some? && r.username.Some?)
    ensures r.userId.Some? <==> IsDecimal(text)
    ensures r.userId.Some? ==> r.userId.value == DecimalValue(text)
    ensures r.username.Some? <==> !IsDecimal(text) && StartsWithAt(text)
    ensures r.username.Some? ==> r.username.value == text
  {
    if IsDecimal(text) then UserInfo(Some(DecimalValue(text)), None)
    else if StartsWithAt(text) then UserInfo(None, Some(text))
    else UserInfo(None, None)
  }

  /** Parsing the printed form of an id gives that id back, with no username. */
  lemma ExtractUserInfoOfNumeral(n: nat)
    ensures ExtractUserInfo(NatToString(n)) == UserInfo(Some(n), None)
  {
    NatToStringRoundTrip(n);
  }

  /** An `@handle` is returned unchanged, `@` included, and never as an id. */
  lemma ExtractUserInfoOfHandle(h: string)
    requires StartsWithAt(h)
    ensures ExtractUserInfo(h) == UserInfo(None, Some(h))
  {
    assert !IsDigit(h[0]);
  }

  // ---------------------------------------------------------------------
  // is_media_message, is_edited_message
  // ---------------------------------------------------------------------

  /** Python's `any(xs)` over a list of truth values. */
  function AnyTrue(xs: seq<bool>): (r: bool)
    ensures r <==> true in xs
  {
    if |xs| == 0 then false else xs[0] || AnyTrue(xs[1..])
  }

  /** The fields of an incoming message the moderation logic looks at.
      An attachment field is true when the platform supplied that kind of
      attachment; `editDate` and `text` are absent or present. */
  datatype Message = Message(
    sticker: bool,
    animation: bool,
    video: bool,
    photo: bool,
    document: bool,
    editDate: Option<int>,
    text: Option<string>)

  function IsMediaMessage(m: Message): (r: bool)
    ensures r <==> m.sticker || m.animation || m.video || m.photo || m.document
  {
    AnyTrue([m.sticker, m.animation, m.video, m.photo, m.document])
  }

  predicate IsEditedMessage(m: Message) {
    m.editDate.Some?
  }

  /** Only the edit date decides whether a message counts as edited: any
      message given an edit date is edited, and none without one is,
      whatever its attachments and text. */
  lemma EditDateDecidesEdited(m: Message, d: int)
    ensures IsEditedMessage(m.(editDate := Some(d)))
    ensures !IsEditedMessage(m.(editDate := None))
    ensures IsEditedMessage(m) <==> IsEditedMessage(Message(false, false, false, false, false, m.editDate, None))
  {
  }

  // ---------------------------------------------------------------------
  // check_copyright_violation
  // ---------------------------------------------------------------------

  /** The ASCII characters regex `\s` matches in a str pattern: space, the
      controls \t \n \v \f \r, and the separators \x1c to \x1f. */
  predicate IsSpace(c: char) {
    c == ' ' || '\t' <= c <= '\r' || '\U{1C}' <= c <= '\U{1F}'
  }

  function ToLower(c: char): char {
    if 'A' <= c <= 'Z' then ((c as int) - ('A' as int) + ('a' as int)) as char else c
  }

  function ToUpper(c: char): char {
    if 'a' <= c <= 'z' then ((c as int) - ('a' as int) + ('A' as int)) as char else c
  }

  /** `str.lower` on ASCII letters. */
  function Lower(s: string): (r: string)
    ensures |r| == |s|
  {
    seq(|s|, i requires 0 <= i < |s| => ToLower(s[i]))
  }

  /** What lower-casing does to each character: an upper-case ASCII letter
      becomes its lower-case letter, every other character stays, and no
      upper-case letter is left. */
  lemma LowerMapsLetters(s: string)
    ensures |Lower(s)| == |s|
    ensures forall i :: 0 <= i < |s| && 'A' <= s[i] <= 'Z' ==> Lower(s)[i] as int == s[i] as int + 32
    ensures forall i :: 0 <= i < |s| && !('A' <= s[i] <= 'Z') ==> Lower(s)[i] == s[i]
    ensures forall i :: 0 <= i < |s| ==> !('A' <= Lower(s)[i] <= 'Z')
  {
  }

  function Upper(s: string): (r: string)
    ensures |r| == |s|
  {
    seq(|s|, i requires 0 <= i < |s| => ToUpper(s[i]))
  }

  const CopyrightSign: char := '\U{A9}'

  /** The position just past the run of whitespace that starts at `j`:
      what a greedy `\s*` consumes. */
  function SkipSpaces(t: string, j: nat): (k: nat)
    requires j <= |t|
    ensures j <= k <= |t|
    ensures forall m :: j <= m < k ==> IsSpace(t[m])
    ensures k == |t| || !IsSpace(t[k])
    decreases |t| - j
  {
    if j < |t| && IsSpace(t[j]) then SkipSpaces(t, j + 1) else j
  }

  /** The literal `w` occurs in `t` at position `j`. */
  predicate LiteralAt(t: string, j: nat, w: string) {
    j + |w| <= |t| && forall m :: 0 <= m < |w| ==> t[j + m] == w[m]
  }

  /** `\d{n}` matches at position `j`. */
  predicate DigitsAt(t: string, j: nat, n: nat) {
    j + n <= |t| && forall m :: j <= m < j + n ==> IsDigit(t[m])
  }

  /** `©\s*\d{4}` matches at `i`. */
  predicate SymbolYearAt(t: string, i: nat) {
    i < |t| && t[i] == CopyrightSign && DigitsAt(t, SkipSpaces(t, i + 1), 4)
  }

  /** `all\s*rights?\s*reserved` matches at `i`. The optional `s` is taken
      when present; leaving it out cannot help, since "reserved" starts with
      `r`. */
  predicate RightsReservedAt(t: string, i: nat) {
    LiteralAt(t, i, "all") &&
    var j := SkipSpaces(t, i + 3);
    LiteralAt(t, j, "right") &&
    var j' := if j + 5 < |t| && t[j + 5] == 's' then j + 6 else j + 5;
    LiteralAt(t, SkipSpaces(t, j'), "reserved")
  }

  /** `copyright\s*\d{4}` matches at `i`. */
  predicate CopyrightYearAt(t: string, i: nat) {
    LiteralAt(t, i, "copyright") && DigitsAt(t, SkipSpaces(t, i + 9), 4)
  }

  /** `proprietary\s*content` matches at `i`. */
  predicate ProprietaryContentAt(t: string, i: nat) {
    LiteralAt(t, i, "proprietary") && LiteralAt(t, SkipSpaces(t, i + 11), "content")
  }

  /** One of the four patterns matches at position `i` of `t`. */
  predicate MatchesAt(t: string, i: nat) {
    SymbolYearAt(t, i) || RightsReservedAt(t, i) || CopyrightYearAt(t, i) || ProprietaryContentAt(t, i)
  }

  /** `re.search` of the four patterns over the lowered text: some position
      starts a match. */
  function CheckCopyrightViolation(text: string): (r: bool)
    ensures text == [] ==> !r
    ensures r ==> exists i :: 0 <= i < |text| && MatchesAt(Lower(text), i)
  {
    var t := Lower(text);
    exists i :: 0 <= i < |t| && MatchesAt(t, i)
  }

  // ---------------------------------------------------------------------
  // Reference semantics of the patterns: `\s*` may stop anywhere inside a
  // run of whitespace, and `s?` may or may not be taken.
  // ---------------------------------------------------------------------

  /** t[j..k] is all whitespace: one way for `\s*` to match. */
  ghost predicate SpaceRun(t: string, j: nat, k: nat) {
    j <= k <= |t| && forall m :: j <= m < k ==> IsSpace(t[m])
  }

  ghost predicate SymbolYearSpec(t: string, i: nat) {
    i < |t| && t[i] == CopyrightSign &&
    exists k: nat :: SpaceRun(t, i + 1, k) && DigitsAt(t, k, 4)
  }

  /** `rights?\s*reserved` matches from `j` with "reserved" at `k`. */
  ghost predicate RightsTail(t: string, j: nat, k: nat) {
    LiteralAt(t, j, "right") &&
    (SpaceRun(t, j + 5, k) || (j + 5 < |t| && t[j + 5] == 's' && SpaceRun(t, j + 6, k))) &&
    LiteralAt(t, k, "reserved")
  }

  ghost predicate RightsReservedSpec(t: string, i: nat) {
    LiteralAt(t, i, "all") &&
    exists j: nat, k: nat :: SpaceRun(t, i + 3, j) && RightsTail(t, j, k)
  }

  ghost predicate CopyrightYearSpec(t: string, i: nat) {
    LiteralAt(t, i, "copyright") &&
    exists k: nat :: SpaceRun(t, i + 9, k) && DigitsAt(t, k, 4)
  }

  ghost predicate ProprietaryContentSpec(t: string, i: nat) {
    LiteralAt(t, i, "proprietary") &&
    exists k: nat :: SpaceRun(t, i + 11, k) && LiteralAt(t, k, "content")
  }

  ghost predicate MatchesAtSpec(t: string, i: nat) {
    SymbolYearSpec(t, i) || RightsReservedSpec(t, i) || CopyrightYearSpec(t, i) || ProprietaryContentSpec(t, i)
  }

  /** A whitespace run that ends before a non-space character is the one
      greedy skipping finds. */
  lemma SkipSpacesUnique(t: string, j: nat, k: nat)
    requires SpaceRun(t, j, k) && k < |t| && !IsSpace(t[k])
    ensures SkipSpaces(t, j) == k
  {
  }

  /** Greedy skipping always yields one of the runs `\s*` may match. */
  lemma SkipSpacesIsRun(t: string, j: nat)
    requires j <= |t|
    ensures SpaceRun(t, j, SkipSpaces(t, j))
  {
  }

  lemma SymbolYearAgrees(t: string, i: nat)
    ensures SymbolYearAt(t, i) <==> SymbolYearSpec(t, i)
  {
    if SymbolYearSpec(t, i) {
      var k: nat :| SpaceRun(t, i + 1, k) && DigitsAt(t, k, 4);
      assert IsDigit(t[k]);
      SkipSpacesUnique(t, i + 1, k);
    }
    if SymbolYearAt(t, i) {
      SkipSpacesIsRun(t, i + 1);
    }
  }

  lemma RightsReservedSpecImpliesGreedy(t: string, i: nat)
    requires RightsReservedSpec(t, i)
    ensures RightsReservedAt(t, i)
  {
    var j: nat, k: nat :| SpaceRun(t, i + 3, j) && RightsTail(t, j, k);
    assert t[j + 0] == "right"[0];
    SkipSpacesUnique(t, i + 3, j);
    assert t[k + 0] == "reserved"[0];
    if j + 5 < |t| && t[j + 5] == 's' {
      // the `s` cannot be skipped: it is neither whitespace nor the `r` of "reserved"
      assert !SpaceRun(t, j + 5, k);
      SkipSpacesUnique(t, j + 6, k);
    } else {
      SkipSpacesUnique(t, j + 5, k);
    }
  }

  lemma RightsReservedGreedyImpliesSpec(t: string, i: nat)
    requires RightsReservedAt(t, i)
    ensures RightsReservedSpec(t, i)
  {
    var j := SkipSpaces(t, i + 3);
    SkipSpacesIsRun(t, i + 3);
    var j' := if j + 5 < |t| && t[j + 5] == 's' then j + 6 else j + 5;
    var k := SkipSpaces(t, j');
    SkipSpacesIsRun(t, j');
    assert RightsTail(t, j, k);
  }

  lemma RightsReservedAgrees(t: string, i: nat)
    ensures RightsReservedAt(t, i) <==> RightsReservedSpec(t, i)
  {
    if RightsReservedSpec(t, i) {
      RightsReservedSpecImpliesGreedy(t, i);
    }
    if RightsReservedAt(t, i) {
      RightsReservedGreedyImpliesSpec(t, i);
    }
  }

  lemma CopyrightYearAgrees(t: string, i: nat)
    ensures CopyrightYearAt(t, i) <==> CopyrightYearSpec(t, i)
  {
    if CopyrightYearSpec(t, i) {
      var k: nat :| SpaceRun(t, i + 9, k) && DigitsAt(t, k, 4);
      assert IsDigit(t[k]);
      SkipSpacesUnique(t, i + 9, k);
    }
    if CopyrightYearAt(t, i) {
      SkipSpacesIsRun(t, i + 9);
    }
  }

  lemma ProprietaryContentAgrees(t: string, i: nat)
    ensures ProprietaryContentAt(t, i) <==> ProprietaryContentSpec(t, i)
  {
    if ProprietaryContentSpec(t, i) {
      var k: nat :| SpaceRun(t, i + 11, k) && LiteralAt(t, k, "content");
      assert t[k + 0] == "content"[0];
      SkipSpacesUnique(t, i + 11, k);
    }
    if ProprietaryContentAt(t, i) {
      SkipSpacesIsRun(t, i + 11);
    }
  }

  /** The hand-coded greedy matcher agrees with the pattern semantics at
      every position. */
  lemma MatchesAtAgrees(t: string, i: nat)
    ensures MatchesAt(t, i) <==> MatchesAtSpec(t, i)
  {
    SymbolYearAgrees(t, i);
    RightsReservedAgrees(t, i);
    CopyrightYearAgrees(t, i);
    ProprietaryContentAgrees(t, i);
  }

  // ---------------------------------------------------------------------
  // Properties of check_copyright_violation
  // ---------------------------------------------------------------------

  lemma LiteralShifts(p: string, t: string, s: string, j: nat, w: string)
    requires LiteralAt(t, j, w)
    ensures LiteralAt(p + t + s, |p| + j, w)
  {
    var u := p + t + s;
    forall m | 0 <= m < |w| ensures u[|p| + j + m] == w[m] {
      assert u[|p| + j + m] == t[j + m];
    }
  }

  lemma SpaceRunShifts(p: string, t: string, s: string, j: nat, k: nat)
    requires SpaceRun(t, j, k)
    ensures SpaceRun(p + t + s, |p| + j, |p| + k)
  {
    var u := p + t + s;
    forall m | |p| + j <= m < |p| + k ensures IsSpace(u[m]) {
      assert u[m] == t[m - |p|];
    }
  }

  lemma DigitsShift(p: string, t: string, s: string, j: nat)
    requires DigitsAt(t, j, 4)
    ensures DigitsAt(p + t + s, |p| + j, 4)
  {
    var u := p + t + s;
    forall m | |p| + j <= m < |p| + j + 4 ensures IsDigit(u[m]) {
      assert u[m] == t[m - |p|];
    }
  }

  /** A match in `t` is still a match, shifted by |p|, in `p + t + s`. */
  lemma MatchSpecShifts(p: string, t: string, s: string, i: nat)
    requires MatchesAtSpec(t, i)
    ensures MatchesAtSpec(p + t + s, |p| + i)
  {
    var u := p + t + s;
    var d := |p|;
    if SymbolYearSpec(t, i) {
      var k: nat :| SpaceRun(t, i + 1, k) && DigitsAt(t, k, 4);
      assert u[d + i] == t[i];
      SpaceRunShifts(p, t, s, i + 1, k);
      DigitsShift(p, t, s, k);
      assert SymbolYearSpec(u, d + i);
    } else if RightsReservedSpec(t, i) {
      var j: nat, k: nat :| SpaceRun(t, i + 3, j) && RightsTail(t, j, k);
      LiteralShifts(p, t, s, i, "all");
      SpaceRunShifts(p, t, s, i + 3, j);
      LiteralShifts(p, t, s, j, "right");
      LiteralShifts(p, t, s, k, "reserved");
      if SpaceRun(t, j + 5, k) {
        SpaceRunShifts(p, t, s, j + 5, k);
      } else {
        assert u[d + j + 5] == t[j + 5];
        SpaceRunShifts(p, t, s, j + 6, k);
      }
      assert RightsTail(u, d + j, d + k);
      assert RightsReservedSpec(u, d + i);
    } else if CopyrightYearSpec(t, i) {
      var k: nat :| SpaceRun(t, i + 9, k) && DigitsAt(t, k, 4);
      LiteralShifts(p, t, s, i, "copyright");
      SpaceRunShifts(p, t, s, i + 9, k);
      DigitsShift(p, t, s, k);
      assert CopyrightYearSpec(u, d + i);
    } else {
      var k: nat :| SpaceRun(t, i + 11, k) && LiteralAt(t, k, "content");
      LiteralShifts(p, t, s, i, "proprietary");
      SpaceRunShifts(p, t, s, i + 11, k);
      LiteralShifts(p, t, s, k, "content");
      assert ProprietaryContentSpec(u, d + i);
    }
  }

  lemma LowerDistributes(p: string, t: string, s: string)
    ensures Lower(p + t + s) == Lower(p) + Lower(t) + Lower(s)
  {
  }

  /** Flagged text stays flagged whatever is written before or after it:
      `re.search` looks for the patterns anywhere. */
  lemma CopyrightMonotone(p: string, t: string, s: string)
    requires CheckCopyrightViolation(t)
    ensures CheckCopyrightViolation(p + t + s)
  {
    var lt := Lower(t);
    var i :| 0 <= i < |lt| && MatchesAt(lt, i);
    MatchesAtAgrees(lt, i);
    MatchSpecShifts(Lower(p), lt, Lower(s), i);
    LowerDistributes(p, t, s);
    var lu := Lower(p + t + s);
    assert MatchesAtSpec(lu, |p| + i);
    MatchesAtAgrees(lu, |p| + i);
    FlaggedByMatch(p + t + s, |p| + i);
  }

  /** Changing the letter case of any characters does not change the verdict. */
  lemma CopyrightCaseInsensitive(t: string, u: string)
    requires |t| == |u|
    requires forall i :: 0 <= i < |t| ==> ToLower(t[i]) == ToLower(u[i])
    ensures CheckCopyrightViolation(t) == CheckCopyrightViolation(u)
  {
    assert Lower(t) == Lower(u);
  }

  /** In particular upper-casing the whole text changes nothing. */
  lemma CopyrightIgnoresUpperCase(t: string)
    ensures CheckCopyrightViolation(Upper(t)) == CheckCopyrightViolation(t)
  {
    forall i | 0 <= i < |t|
      ensures ToLower(Upper(t)[i]) == ToLower(t[i])
    {
    }
    CopyrightCaseInsensitive(Upper(t), t);
  }

  /** The text is flagged exactly when, at some position of its lower-cased
      form, one of the four patterns matches in the sense of the reference
      semantics. */
  lemma CopyrightViolationIffPattern(text: string)
    ensures CheckCopyrightViolation(text) <==>
      exists i :: 0 <= i < |text| && MatchesAtSpec(Lower(text), i)
  {
    var t := Lower(text);
    forall i | 0 <= i < |t| {
      MatchesAtAgrees(t, i);
    }
  }

  /** A match at any position of the lowered text flags the text. */
  lemma FlaggedByMatch(text: string, i: nat)
    requires i < |text| && MatchesAt(Lower(text), i)
    ensures CheckCopyrightViolation(text)
  {
  }

  /** A text that opens with `©`, a space and four digits is flagged. */
  lemma SymbolYearOpeningFlagged(text: string)
    requires |text| >= 6 && text[0] == CopyrightSign && text[1] == ' '
    requires DigitsAt(text, 2, 4)
    ensures CheckCopyrightViolation(text)
  {
    var t := Lower(text);
    assert t[0] == CopyrightSign && t[1] == ' ';
    assert forall m :: 2 <= m < 6 ==> t[m] == text[m];
    assert SkipSpaces(t, 2) == 2;
    assert SkipSpaces(t, 1) == 2;
    assert SymbolYearAt(t, 0);
    FlaggedByMatch(text, 0);
  }

  /** The sample notice "© 2024 Some Corp, all rights reserved" is flagged. */
  lemma SampleNoticeFlagged()
    ensures CheckCopyrightViolation("\U{A9} 2024 Some Corp, all rights reserved")
  {
    var text := "\U{A9} 2024 Some Corp, all rights reserved";
    assert text[2] == '2' && text[3] == '0' && text[4] == '2' && text[5] == '4';
    SymbolYearOpeningFlagged(text);
  }

  lemma RightsNoticeMatches()
    ensures RightsReservedAt("all rights reserved", 0)
  {
    var t := "all rights reserved";
    assert LiteralAt(t, 0, "all");
    assert SkipSpaces(t, 3) == 4;
    assert LiteralAt(t, 4, "right") && t[9] == 's';
    assert SkipSpaces(t, 10) == 11;
    assert LiteralAt(t, 11, "reserved");
  }

  /** "all rights reserved" on its own is flagged. */
  lemma RightsNoticeFlagged()
    ensures CheckCopyrightViolation("all rights reserved")
  {
    var t := "all rights reserved";
    assert Lower(t) == t;
    RightsNoticeMatches();
    FlaggedByMatch(t, 0);
  }

  lemma LowerCapitalisedNotice()
    ensures Lower("All Rights Reserved") == "all rights reserved"
  {
    var u := "All Rights Reserved";
    forall i | 0 <= i < |u| ensures Lower(u)[i] == "all rights reserved"[i] {
    }
  }

  /** ... and so is "All Rights Reserved". */
  lemma CapitalisedNoticeFlagged()
    ensures CheckCopyrightViolation("All Rights Reserved")
  {
    LowerCapitalisedNotice();
    RightsNoticeMatches();
    FlaggedByMatch("All Rights Reserved", 0);
  }
}
