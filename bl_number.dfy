/** Per-match clean-up, validation and shape scoring of a B/L (bill of lading or
    air waybill) reference number: `normalizeBl`, `isValidBlNumber` and
    `patternScore` of BlNumberExtractorService. Each anchored pattern of the
    source is a predicate over the whole string; a pattern that can match in
    several ways is an existential over its split points. */
module BlNumber {
  import opened Text

  predicate IsSlash(c: char) { c == '/' }

  /** `[-\s]`: a hyphen or a `\s` character. */
  predicate IsSeparator(c: char) { c == '-' || IsSpace(c) }

  /** `(?i)[A-Z]{i}/\d{2}/\d{5,}` with the letter run ending at `i`. */
  predicate SlashSplit(s: string, i: nat)
  {
    && i + 9 <= |s|
    && AllLetters(s[..i]) && s[i] == '/' && AllDigits(s[i + 1..i + 3])
    && s[i + 3] == '/' && AllDigits(s[i + 4..])
  }

  /** `(?i)[A-Z]{1,4}/\d{2}/\d{5,}` against the whole string (e.g. `MI/24/304058`). */
  predicate IsSlashForm(s: string)
  {
    exists i | 1 <= i <= 4 :: SlashSplit(s, i)
  }

  /** `\d{a}[-\s]?\d{b}` against the whole string. */
  predicate DigitGroups(t: string, a: nat, b: nat)
  {
    || (|t| == a + b && AllDigits(t))
    || (|t| == a + b + 1 && AllDigits(t[..a]) && IsSeparator(t[a]) && AllDigits(t[a + 1..]))
  }

  /** `(?:\d{8}|\d{4}[-\s]?\d{4}|\d{3}[-\s]?\d{5})` against the whole string. */
  predicate IsWaybillTail(t: string)
  {
    (|t| == 8 && AllDigits(t)) || DigitGroups(t, 4, 4) || DigitGroups(t, 3, 5)
  }

  /** `\d{3}[-\s]?(?:\d{8}|\d{4}[-\s]?\d{4}|\d{3}[-\s]?\d{5})`: the 11-digit air waybill
      number (e.g. `176-12345678`). */
  predicate IsAirWaybill(s: string)
  {
    && |s| >= 3 && AllDigits(s[..3])
    && (IsWaybillTail(s[3..]) || (|s| >= 4 && IsSeparator(s[3]) && IsWaybillTail(s[4..])))
  }

  /** `-?[A-Z0-9]{1,12}` under `(?i)` against the whole string. */
  predicate IsAlnumTail(t: string)
  {
    || (1 <= |t| <= 12 && AllAlnum(t))
    || (2 <= |t| <= 13 && t[0] == '-' && AllAlnum(t[1..]))
  }

  /** `(?i)[A-Z]{2,10}-?[A-Z0-9]{1,12}` with the letter run ending at `i`. */
  predicate LabelStyleSplit(s: string, i: nat)
  {
    i <= |s| && AllLetters(s[..i]) && IsAlnumTail(s[i..])
  }

  /** `(?i)^[A-Z]{2,10}-?[A-Z0-9]{1,12}$`: the mixed letters-and-digits form found next to
      labels (e.g. `CHLY720Q013`, `MJLS-2406034`). */
  predicate IsLabelStyle(s: string)
  {
    exists i | 2 <= i <= 10 :: LabelStyleSplit(s, i)
  }

  /** `(?i)^[A-Z]{4}\d{7}$`: an ISO 6346 container number such as `ABCD1234567`. */
  predicate IsContainerNumber(s: string)
  {
    |s| == 11 && AllLetters(s[..4]) && AllDigits(s[4..])
  }

  /** `.*[A-Z].*` (case-sensitive, no DOTALL): an uppercase ASCII letter and no line terminator. */
  predicate HasUpperOnOneLine(s: string)
  {
    NoLineTerminator(s) && exists i :: 0 <= i < |s| && IsUpper(s[i])
  }

  /** `.*\d.*` (no DOTALL). */
  predicate HasDigitOnOneLine(s: string)
  {
    NoLineTerminator(s) && exists i :: 0 <= i < |s| && IsDigit(s[i])
  }

  /** `.*\d$` (no DOTALL): ends in a digit and holds no line terminator. */
  predicate EndsInDigitOnOneLine(s: string)
  {
    NoLineTerminator(s) && |s| > 0 && IsDigit(s[|s| - 1])
  }

  /** `normalizeBl`: null gives ""; otherwise every `\s` is deleted and, when what is
      left has the slash form, its slashes are deleted too (`MI/24/304058` becomes
      `MI24304058`). */
  function NormalizeBl(raw: Option<string>): (r: string)
    ensures raw.None? ==> r == ""
    ensures NoSpace(r)
  {
    match raw
    case None => ""
    case Some(text) =>
      var s := ReplaceEach(text, IsSpace, "");
      if IsSlashForm(s) then ReplaceEach(s, IsSlash, "") else s
  }

  /** `isValidBlNumber`: the checks of the source, in its order, on the trimmed value. */
  function IsValidBlNumber(bl: string): (ok: bool)
    ensures ok ==> 6 <= |Trim(bl)| <= 20
    ensures IsContainerNumber(Trim(bl)) ==> !ok
  {
    var s := Trim(bl);
    if |s| > 0 && AllDigits(s) then false
    else if |s| < 6 || |s| > 20 then false
    else if !HasUpperOnOneLine(s) || !HasDigitOnOneLine(s) then false
    else if !EndsInDigitOnOneLine(s) then false
    else if IsContainerNumber(s) then false
    else if IsSlashForm(s) then true
    else if IsAirWaybill(s) then true
    else if IsLabelStyle(s) then true
    else false
  }

  /** `(?i)^[A-Z]{3,4}[A-Z0-9]{0,4}\d{6,}$` with the runs ending at `i` and `j`. */
  predicate StrongSplit(s: string, i: nat, j: nat)
  {
    i <= j && j + 6 <= |s| && AllLetters(s[..i]) && AllAlnum(s[i..j]) && AllDigits(s[j..])
  }

  /** The strong shape: 3 or 4 letters, up to 4 letters or digits, then at least 6 digits. */
  predicate IsStrongShape(s: string)
  {
    exists i, j | 3 <= i <= 4 && i <= j <= i + 4 :: StrongSplit(s, i, j)
  }

  /** `\d{6,10}` against the whole string. */
  predicate IsDigitRun6To10(t: string)
  {
    6 <= |t| <= 10 && AllDigits(t)
  }

  /** `(?i)^[A-Z]{2,6}-?\d{6,10}$` with the letter run ending at `i`. */
  predicate ModerateSplit(s: string, i: nat)
  {
    && i <= |s| && AllLetters(s[..i])
    && (IsDigitRun6To10(s[i..]) || (i < |s| && s[i] == '-' && IsDigitRun6To10(s[i + 1..])))
  }

  /** The moderate shape: 2 to 6 letters, an optional hyphen, then 6 to 10 digits. */
  predicate IsModerateShape(s: string)
  {
    exists i | 2 <= i <= 6 :: ModerateSplit(s, i)
  }

  /** `patternScore`: +1 for a length of 10 to 12, then +2 for the strong shape or
      else +1 for the moderate shape. */
  function PatternScore(s: string): (score: int)
    ensures 0 <= score <= 3
    ensures score == 3 <==> 10 <= |s| <= 12 && IsStrongShape(s)
  {
    (if 10 <= |s| <= 12 then 1 else 0)
    + (if IsStrongShape(s) then 2 else if IsModerateShape(s) then 1 else 0)
  }

  // ---------------------------------------------------------------------------
  // Properties of the clean-up

  /** A whitespace-free value in the slash form loses exactly its two slashes. */
  lemma SlashFormLosesOnlySlashes(s: string, i: nat)
    requires 1 <= i <= 4 && SlashSplit(s, i)
    ensures NormalizeBl(Some(s)) == s[..i] + s[i + 1..i + 3] + s[i + 4..]
  {
    var letters, mid, tail := s[..i], s[i + 1..i + 3], s[i + 4..];
    assert s == letters + "/" + mid + "/" + tail;
    SlashSplitHasNoSpace(s, i);
    assert ReplaceEach(s, IsSpace, "") == s;
    assert IsSlashForm(s);
    DropTwoSlashes(letters, mid, tail);
  }

  lemma SlashSplitHasNoSpace(s: string, i: nat)
    requires SlashSplit(s, i)
    ensures forall k :: 0 <= k < |s| ==> !IsSpace(s[k])
  {
    forall k | 0 <= k < |s| ensures !IsSpace(s[k]) {
      if k < i { assert s[k] == s[..i][k]; }
      else if i + 1 <= k < i + 3 { assert s[k] == s[i + 1..i + 3][k - i - 1]; }
      else if k >= i + 4 { assert s[k] == s[i + 4..][k - i - 4]; }
    }
  }

  lemma DropTwoSlashes(letters: string, mid: string, tail: string)
    requires AllLetters(letters) && AllDigits(mid) && AllDigits(tail)
    ensures ReplaceEach(letters + "/" + mid + "/" + tail, IsSlash, "") == letters + mid + tail
  {
    var a := letters + "/";
    var b := a + mid;
    var c := b + "/";
    assert ReplaceEach("/", IsSlash, "") == "";
    ReplaceEachAppend(letters, "/", IsSlash, "");
    assert ReplaceEach(a, IsSlash, "") == letters;
    ReplaceEachAppend(a, mid, IsSlash, "");
    assert ReplaceEach(b, IsSlash, "") == letters + mid;
    ReplaceEachAppend(b, "/", IsSlash, "");
    assert ReplaceEach(c, IsSlash, "") == letters + mid;
    ReplaceEachAppend(c, tail, IsSlash, "");
  }

  /** Applying `normalizeBl` to its own result changes nothing. */
  lemma NormalizeBlIdempotent(raw: Option<string>)
    ensures NormalizeBl(Some(NormalizeBl(raw))) == NormalizeBl(raw)
  {
    var n := NormalizeBl(raw);
    assert ReplaceEach(n, IsSpace, "") == n;
    if raw.Some? {
      var s := ReplaceEach(raw.value, IsSpace, "");
      if IsSlashForm(s) {
        NoSlashNotSlashForm(ReplaceEach(s, IsSlash, ""));
      }
    }
  }

  /** The slash form needs a slash. */
  lemma NoSlashNotSlashForm(s: string)
    requires forall k :: 0 <= k < |s| ==> !IsSlash(s[k])
    ensures !IsSlashForm(s)
  {
    forall i | 1 <= i <= 4 ensures !SlashSplit(s, i) {
      if i < |s| { assert !IsSlash(s[i]); }
    }
  }

  // ---------------------------------------------------------------------------
  // Properties of the validator

  /** The characters that group 1 of both search patterns can capture: letters of
      either case, digits, `\s`, hyphens and slashes. */
  predicate IsCaptureChar(c: char)
  {
    IsAlnum(c) || IsSpace(c) || c == '-' || c == '/'
  }

  /** A value without an uppercase ASCII letter (for example one whose letters are all
      lowercase) is always rejected: line 189 has no `(?i)`. */
  lemma NoUppercaseRejected(bl: string)
    requires forall k :: 0 <= k < |bl| ==> !IsUpper(bl[k])
    ensures !IsValidBlNumber(bl)
  {
    var s := Trim(bl);
    forall k | 0 <= k < |s| ensures !IsUpper(s[k]) {
      assert s[k] in bl;
    }
  }

  /** A value made of digits and hyphens only (such as `176-12345678`) is always rejected. */
  lemma DigitsAndHyphensRejected(bl: string)
    requires forall k :: 0 <= k < |bl| ==> IsDigit(bl[k]) || bl[k] == '-'
    ensures !IsValidBlNumber(bl)
  {
    NoUppercaseRejected(bl);
  }

  /** The air waybill shape holds no letter. */
  lemma AirWaybillHasNoUpper(s: string)
    requires IsAirWaybill(s)
    ensures forall k :: 0 <= k < |s| ==> !IsUpper(s[k])
  {
    forall k | 0 <= k < |s| ensures !IsUpper(s[k]) {
      if k < 3 {
        assert s[k] == s[..3][k];
      } else if IsWaybillTail(s[3..]) {
        WaybillTailHasNoUpper(s[3..], k - 3);
      } else {
        if k == 3 {
        } else {
          WaybillTailHasNoUpper(s[4..], k - 4);
        }
      }
    }
  }

  lemma WaybillTailHasNoUpper(t: string, k: nat)
    requires IsWaybillTail(t) && k < |t|
    ensures !IsUpper(t[k])
  {
    if |t| == 8 && AllDigits(t) {
    } else if DigitGroups(t, 4, 4) {
      if |t| == 9 && !AllDigits(t) && k != 4 {
        if k < 4 { assert t[k] == t[..4][k]; } else { assert t[k] == t[5..][k - 5]; }
      }
    } else {
      if |t| == 9 && !AllDigits(t) && k != 3 {
        if k < 3 { assert t[k] == t[..3][k]; } else { assert t[k] == t[4..][k - 4]; }
      }
    }
  }

  /** The air waybill acceptance of line 199 never decides anything: a value of that
      shape has already been rejected at line 189 for lacking an uppercase letter. */
  lemma AirWaybillNeverAccepted(bl: string)
    requires IsAirWaybill(Trim(bl))
    ensures !IsValidBlNumber(bl)
  {
    var s := Trim(bl);
    AirWaybillHasNoUpper(s);
    assert !HasUpperOnOneLine(s);
  }

  /** What an accepted value looks like once trimmed: not all digits, 6 to 20 characters,
      an uppercase letter and a digit, a final digit, not a container number, and either
      the slash form or the mixed letters-and-digits form (never the air waybill form). */
  lemma ValidValueShape(bl: string)
    requires IsValidBlNumber(bl)
    ensures var s := Trim(bl);
      && !AllDigits(s) && 6 <= |s| <= 20
      && (exists k :: 0 <= k < |s| && IsUpper(s[k]))
      && (exists k :: 0 <= k < |s| && IsDigit(s[k]))
      && IsDigit(s[|s| - 1])
      && !IsContainerNumber(s)
      && !IsAirWaybill(s)
      && (IsSlashForm(s) || IsLabelStyle(s))
  {
    if IsAirWaybill(Trim(bl)) {
      AirWaybillNeverAccepted(bl);
    }
  }

  /** For a captured group-1 string, `normalizeBl` yields a value that `trim()` leaves
      alone and that is never in the slash form: the slash acceptance of line 198 never
      fires on it. */
  lemma NormalizedCaptureNotSlashForm(raw: string)
    requires forall k :: 0 <= k < |raw| ==> IsCaptureChar(raw[k])
    ensures Trim(NormalizeBl(Some(raw))) == NormalizeBl(Some(raw))
    ensures !IsSlashForm(NormalizeBl(Some(raw)))
  {
    var s := ReplaceEach(raw, IsSpace, "");
    var n := NormalizeBl(Some(raw));
    assert forall k :: 0 <= k < |n| ==> n[k] > ' ' by {
      forall k | 0 <= k < |n| ensures n[k] > ' ' {
        if IsSlashForm(s) {
          assert n[k] in s && !IsSpace(n[k]);
        } else {
          assert n[k] in raw && !IsSpace(n[k]);
        }
      }
    }
    if IsSlashForm(s) {
      NoSlashNotSlashForm(n);
    }
  }

  /** Hence every value the extractor accepts from a captured string is in the mixed
      letters-and-digits form, unchanged by `trim()`, and made of ASCII letters, digits
      and hyphens only. */
  lemma AcceptedCaptureIsLabelStyle(raw: string)
    requires forall k :: 0 <= k < |raw| ==> IsCaptureChar(raw[k])
    requires IsValidBlNumber(NormalizeBl(Some(raw)))
    ensures IsLabelStyle(NormalizeBl(Some(raw)))
    ensures forall k :: 0 <= k < |NormalizeBl(Some(raw))| ==>
              IsAlnum(NormalizeBl(Some(raw))[k]) || NormalizeBl(Some(raw))[k] == '-'
  {
    var n := NormalizeBl(Some(raw));
    NormalizedCaptureNotSlashForm(raw);
    ValidValueShape(n);
    var i :| 2 <= i <= 10 && LabelStyleSplit(n, i);
    LabelStyleChars(n, i);
  }

  /** Conversely, a value of the mixed letters-and-digits form of line 202 is accepted
      when it has 6 to 20 characters, an uppercase letter and a final digit, and is
      not a container number. */
  lemma LabelStyleAccepted(n: string, i: nat, u: nat)
    requires 2 <= i <= 10 && LabelStyleSplit(n, i)
    requires 6 <= |n| <= 20 && u < |n| && IsUpper(n[u]) && IsDigit(n[|n| - 1])
    requires !IsContainerNumber(n)
    ensures IsValidBlNumber(n)
  {
    LabelStyleChars(n, i);
    assert Trim(n) == n;
    assert IsLetter(n[0]) by { assert n[0] == n[..i][0]; }
    assert HasUpperOnOneLine(n) && HasDigitOnOneLine(n);
    NoSlashNotSlashForm(n);
    assert !IsAirWaybill(n) by { assert n[..3][0] == n[0]; }
    assert IsLabelStyle(n);
  }

  /** The mixed form holds only ASCII letters, digits and hyphens. */
  lemma LabelStyleChars(n: string, i: nat)
    requires LabelStyleSplit(n, i)
    ensures forall k :: 0 <= k < |n| ==> IsAlnum(n[k]) || n[k] == '-'
  {
    forall k | 0 <= k < |n| ensures IsAlnum(n[k]) || n[k] == '-' {
      if k < i {
        assert n[k] == n[..i][k];
      } else {
        assert n[k] == n[i..][k - i];
      }
    }
  }

  // ---------------------------------------------------------------------------
  // Worked cases

  /** `176-12345678` has the air waybill shape of line 199 ... */
  lemma AirWaybillShapeCase()
    ensures IsAirWaybill("176-12345678")
  {
    var s := "176-12345678";
    assert s[..3] == "176" && s[4..] == "12345678";
  }

  /** ... and is rejected all the same. */
  lemma AirWaybillRejectedCase()
    ensures !IsValidBlNumber("176-12345678")
  {
    DigitsAndHyphensRejected("176-12345678");
  }

  /** The container number `ABCD1234567` is rejected. */
  lemma ContainerNumberCase()
    ensures !IsValidBlNumber("ABCD1234567")
  {
    var s := "ABCD1234567";
    assert Trim(s) == s;
    assert IsContainerNumber(s) by {
      assert s[..4] == "ABCD" && s[4..] == "1234567";
    }
  }

  /** `MI/24/304058` has the slash form with a two-letter prefix. */
  lemma SlashFormCase()
    ensures SlashSplit("MI/24/304058", 2)
  {
    var s := "MI/24/304058";
    assert s[..2] == "MI" && s[3..5] == "24" && s[6..] == "304058";
  }

  /** `CHLY720Q013`, a letters-and-digits number found next to a label, is accepted. */
  lemma LabelStyleAcceptedCase()
    ensures IsValidBlNumber("CHLY720Q013")
  {
    var s := "CHLY720Q013";
    assert LabelStyleSplit(s, 4) by {
      assert s[..4] == "CHLY" && s[4..] == "720Q013";
    }
    assert !IsContainerNumber(s) by { assert !IsDigit(s[4..][3]); }
    LabelStyleAccepted(s, 4, 0);
  }

  // ---------------------------------------------------------------------------
  // Which slash forms survive

  /** The verdict on letters followed by digits (at least seven of them): accepted
      exactly when there are at least two letters, one of them uppercase (line 189),
      at most twelve digits (line 202), and the value is not a container number
      (line 195). */
  lemma LettersThenDigitsVerdict(n: string, i: nat)
    requires 1 <= i <= 4 && i + 7 <= |n|
    requires AllLetters(n[..i]) && AllDigits(n[i..])
    ensures IsValidBlNumber(n) <==>
      && 2 <= i && |n| - i <= 12 && !(i == 4 && |n| == 11)
      && exists k :: 0 <= k < i && IsUpper(n[k])
  {
    forall k | 0 <= k < |n| ensures IsAlnum(n[k]) {
      if k < i { assert n[k] == n[..i][k]; } else { assert n[k] == n[i..][k - i]; }
    }
    assert Trim(n) == n;
    assert IsDigit(n[i]) by { assert n[i] == n[i..][0]; }
    assert IsLetter(n[0]) by { assert n[0] == n[..i][0]; }
    NoSlashNotSlashForm(n);
    assert !IsAirWaybill(n) by { assert n[..3][0] == n[0]; }
    assert HasDigitOnOneLine(n);
    UpperOnlyAmongLetters(n, i);
    ContainerVerdict(n, i);
    LabelStyleVerdict(n, i);
  }

  lemma UpperOnlyAmongLetters(n: string, i: nat)
    requires i <= |n| && AllDigits(n[i..])
    ensures (exists k :: 0 <= k < |n| && IsUpper(n[k])) <==> exists k :: 0 <= k < i && IsUpper(n[k])
  {
    forall k | i <= k < |n| ensures !IsUpper(n[k]) {
      assert n[k] == n[i..][k - i];
    }
  }

  lemma ContainerVerdict(n: string, i: nat)
    requires 1 <= i <= 4 && i < |n|
    requires AllLetters(n[..i]) && AllDigits(n[i..])
    ensures IsContainerNumber(n) <==> i == 4 && |n| == 11
  {
    assert IsDigit(n[i]) by { assert n[i] == n[i..][0]; }
  }

  lemma LabelStyleVerdict(n: string, i: nat)
    requires 1 <= i <= 4 && i < |n|
    requires AllLetters(n[..i]) && AllDigits(n[i..])
    ensures IsLabelStyle(n) <==> 2 <= i && |n| - i <= 12
  {
    assert IsDigit(n[i]) by { assert n[i] == n[i..][0]; }
    if 2 <= i && |n| - i <= 12 {
      assert LabelStyleSplit(n, i);
    }
    forall j | i < j <= |n| ensures !AllLetters(n[..j]) {
      assert n[..j][i] == n[i];
    }
    if j :| 2 <= j <= 10 && LabelStyleSplit(n, j) {
      if j < i {
        assert n[j] == n[..i][j];
      }
      assert n[j..][0] == n[j];
    }
  }

  /** A slash form keeps its letters and digits through `normalizeBl`, and the result is
      accepted exactly when the prefix has at least two letters, one of them uppercase,
      the two digits and the serial number have at most twelve digits between them, and
      the result is not a container number. So a one-letter slash form such as
      `M/24/304058` is always lost, and `MI/24/304058` is kept as `MI24304058`. */
  lemma SlashFormVerdict(s: string, i: nat)
    requires 1 <= i <= 4 && SlashSplit(s, i)
    ensures var n := NormalizeBl(Some(s));
      IsValidBlNumber(n) <==>
        && 2 <= i && |s| - i - 2 <= 12 && !(i == 4 && |s| == 13)
        && exists k :: 0 <= k < i && IsUpper(s[k])
  {
    SlashFormLosesOnlySlashes(s, i);
    var n := NormalizeBl(Some(s));
    var mid, tail := s[i + 1..i + 3], s[i + 4..];
    assert n == s[..i] + mid + tail;
    assert n[..i] == s[..i];
    assert n[i..] == mid + tail;
    assert AllDigits(n[i..]) by {
      forall k | 0 <= k < |n| - i ensures IsDigit(n[i..][k]) {
        if k < 2 { assert n[i..][k] == mid[k]; } else { assert n[i..][k] == tail[k - 2]; }
      }
    }
    LettersThenDigitsVerdict(n, i);
    if k :| 0 <= k < i && IsUpper(n[k]) {
      assert s[k] == n[..i][k];
    }
    if k :| 0 <= k < i && IsUpper(s[k]) {
      assert n[k] == s[..i][k];
    }
  }

  /** `MI/24/304058` survives `normalizeBl` and `isValidBlNumber` ... */
  lemma SlashFormKeptCase()
    ensures IsValidBlNumber(NormalizeBl(Some("MI/24/304058")))
  {
    var s := "MI/24/304058";
    SlashFormCase();
    SlashFormVerdict(s, 2);
    assert IsUpper(s[0]);
  }

  /** ... while `M/24/304058` is lost. */
  lemma OneLetterSlashFormLostCase()
    ensures !IsValidBlNumber(NormalizeBl(Some("M/24/304058")))
  {
    var s := "M/24/304058";
    assert SlashSplit(s, 1) by {
      assert s[..1] == "M" && s[2..4] == "24" && s[5..] == "304058";
    }
    SlashFormVerdict(s, 1);
  }
}
