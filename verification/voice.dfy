/** The voice command interpreter (`parse_voice_command`): two hand-written
    scanners for the patterns

      exercise\s+['"](.+?)['"]                       (exercise name)
      (\d+)\s*minutes?\s*(\d+)?\s*seconds?           (optional duration)

    searched case-insensitively, leftmost match first, with Python's
    backtracking order. Each scanner is paired with a declarative reading of
    its pattern and proved equivalent to it. */
module Voice {
  import opened Common
  import opened Text

  /** Minutes and seconds captured from the transcript. */
  datatype Duration = Duration(minutes: nat, seconds: nat)

  /** The parsed command: exercise name and optional duration. */
  datatype VoiceCommand = VoiceCommand(exercise: string, time: Option<Duration>)

  predicate IsQuote(c: char) {
    c == '\'' || c == '"'
  }

  /** The character at `k` is the lower-case ASCII letter `c` or its
      upper-case form (the `re.IGNORECASE` comparison). */
  predicate LetterAt(s: string, k: nat, c: char)
    requires 'a' <= c <= 'z'
  {
    k < |s| && (s[k] == c || s[k] as int == c as int - 32)
  }

  /** The case-insensitive letter test agrees with lower-casing: the
      character at `k` is `c` in either case exactly when it lower-cases to
      `c`. */
  lemma LetterAtLowers(s: string, k: nat, c: char)
    requires 'a' <= c <= 'z'
    ensures LetterAt(s, k, c) <==> k < |s| && LowerChar(s[k]) == c
  {
  }

  /** The word `exercise` at `i`, in any case. */
  predicate ExerciseWordAt(s: string, i: nat) {
    && LetterAt(s, i, 'e') && LetterAt(s, i + 1, 'x') && LetterAt(s, i + 2, 'e') && LetterAt(s, i + 3, 'r')
    && LetterAt(s, i + 4, 'c') && LetterAt(s, i + 5, 'i') && LetterAt(s, i + 6, 's') && LetterAt(s, i + 7, 'e')
  }

  /** The word `minute` at `i`, in any case. */
  predicate MinuteWordAt(s: string, i: nat) {
    && LetterAt(s, i, 'm') && LetterAt(s, i + 1, 'i') && LetterAt(s, i + 2, 'n')
    && LetterAt(s, i + 3, 'u') && LetterAt(s, i + 4, 't') && LetterAt(s, i + 5, 'e')
  }

  /** The word `second` at `i`, in any case. */
  predicate SecondWordAt(s: string, i: nat) {
    && LetterAt(s, i, 's') && LetterAt(s, i + 1, 'e') && LetterAt(s, i + 2, 'c')
    && LetterAt(s, i + 3, 'o') && LetterAt(s, i + 4, 'n') && LetterAt(s, i + 5, 'd')
  }

  /** Every character of s[i..j] is whitespace. */
  predicate AllSpace(s: string, i: nat, j: nat) {
    i <= j <= |s| && forall k :: i <= k < j ==> IsSpace(s[k])
  }

  /** Every character of s[i..j] is a decimal digit. */
  predicate AllDigits(s: string, i: nat, j: nat) {
    i <= j <= |s| && forall k :: i <= k < j ==> IsDigit(s[k])
  }

  /** Length of the longest run of whitespace starting at `i` (a greedy
      `\s*`); `SpaceRunSpaces` and `SpaceRunIsLongest` state what it
      measures. */
  function SpaceRun(s: string, i: nat): (n: nat)
    requires i <= |s|
    ensures i + n <= |s|
    decreases |s| - i
  {
    if i == |s| || !IsSpace(s[i]) then 0 else 1 + SpaceRun(s, i + 1)
  }

  /** Length of the longest run of digits starting at `i` (a greedy `\d+`);
      `DigitRunIsLongest` states that nothing longer would do. */
  function DigitRun(s: string, i: nat): (n: nat)
    requires i <= |s|
    ensures AllDigits(s, i, i + n)
    decreases |s| - i
  {
    if i == |s| || !IsDigit(s[i]) then 0 else 1 + DigitRun(s, i + 1)
  }

  // ----- Decimal numbers -----

  function DigitValue(c: char): nat
    requires IsDigit(c)
  {
    c as int - '0' as int
  }

  function DigitChar(d: nat): (c: char)
    requires d < 10
    ensures IsDigit(c) && DigitValue(c) == d
  {
    ('0' as int + d) as char
  }

  predicate IsDecimal(ds: string) {
    forall k :: 0 <= k < |ds| ==> IsDigit(ds[k])
  }

  /** `int()` of a string of digits (leading zeros allowed). */
  function DecimalValue(ds: string): nat
    requires IsDecimal(ds)
  {
    if ds == [] then 0 else DecimalValue(ds[..|ds| - 1]) * 10 + DigitValue(ds[|ds| - 1])
  }

  /** `str()` of a natural number: digits, no leading zero. */
  function NatToDecimal(n: nat): (r: string)
    ensures |r| >= 1 && IsDecimal(r)
    ensures |r| > 1 ==> r[0] != '0'
  {
    if n < 10 then [DigitChar(n)] else NatToDecimal(n / 10) + [DigitChar(n % 10)]
  }

  // ----- The exercise-name pattern -----

  /** The lazy `(.+?)['"]` scanning from `p`: the index of the first quote at
      or after `p`, provided no newline comes before it. */
  function CloseQuote(s: string, p: nat): (q: Option<nat>)
    requires p <= |s|
    ensures q.Some? ==> p <= q.value < |s| && IsQuote(s[q.value])
    ensures q.Some? ==> forall k :: p <= k < q.value ==> !IsQuote(s[k]) && s[k] != '\n'
    decreases |s| - p
  {
    if p == |s| then None
    else if IsQuote(s[p]) then Some(p)
    else if s[p] == '\n' then None
    else CloseQuote(s, p + 1)
  }

  /** The exercise pattern tried at position `i` alone: the captured name. */
  function ExerciseMatchAt(s: string, i: nat): (r: Option<string>)
    requires i <= |s|
    ensures r.Some? ==> |r.value| >= 1 && '\n' !in r.value
    ensures r.Some? ==> forall k :: 1 <= k < |r.value| ==> !IsQuote(r.value[k])
  {
    if !ExerciseWordAt(s, i) then None
    else
      var j := i + 8;
      var k := j + SpaceRun(s, j);
      if k == j || k == |s| || !IsQuote(s[k]) then None
      else if k + 1 == |s| || s[k + 1] == '\n' then None
      else match CloseQuote(s, k + 2)
        case None => None
        case Some(q) =>
          Some(s[k + 1..q])
  }

  /** `re.search` for the exercise pattern from position `i` on: the name
      captured by the leftmost match. */
  function FindExerciseName(s: string, i: nat): (r: Option<string>)
    requires i <= |s|
    ensures r.Some? ==> |r.value| >= 1 && '\n' !in r.value
    ensures r.Some? ==> forall k :: 1 <= k < |r.value| ==> !IsQuote(r.value[k])
    decreases |s| - i
  {
    match ExerciseMatchAt(s, i)
    case Some(name) => Some(name)
    case None => if i == |s| then None else FindExerciseName(s, i + 1)
  }

  /** Declarative reading of `exercise\s+['"](.+?)['"]` matching at `i`
      with the group spanning s[a..b]: the word, at least one whitespace
      character up to the opening quote at a - 1, then a non-empty group
      without newline, whose characters after the first are not quotes, and
      the closing quote at b. */
  ghost predicate ExerciseMatch(s: string, i: nat, a: nat, b: nat) {
    && ExerciseWordAt(s, i)
    && i + 9 < a < b < |s|
    && AllSpace(s, i + 8, a - 1)
    && IsQuote(s[a - 1])
    && (forall k :: a <= k < b ==> s[k] != '\n')
    && (forall k :: a < k < b ==> !IsQuote(s[k]))
    && IsQuote(s[b])
  }

  ghost predicate ExerciseMatchesAt(s: string, i: nat) {
    exists a: nat, b: nat :: ExerciseMatch(s, i, a, b)
  }

  /** The match at `j`, group s[a..b], is the leftmost one at or after `i`
      (`re.search` tries the start positions in order). */
  ghost predicate LeftmostExercise(s: string, i: nat, j: nat, a: nat, b: nat) {
    && i <= j
    && ExerciseMatch(s, j, a, b)
    && forall j': nat :: i <= j' < j ==> !ExerciseMatchesAt(s, j')
  }

  // ----- The duration pattern -----

  /** The tail `\s*(\d+)?\s*second` tried from `t`: the seconds captured, or
      0 when the optional group is empty. */
  function SecondsFrom(s: string, t: nat): (r: Option<nat>)
    requires t <= |s|
    ensures r.Some? ==> t + 6 <= |s|
  {
    var u := t + SpaceRun(s, t);
    var v := u + DigitRun(s, u);
    if v > u then
      var w := v + SpaceRun(s, v);
      if SecondWordAt(s, w) then Some(DecimalValue(s[u..v])) else None
    else if SecondWordAt(s, u) then Some(0)
    else None
  }

  /** The head `(\d+)\s*minute` tried at `i`: the position of `minute`. */
  function MinuteAt(s: string, i: nat): (q: Option<nat>)
    requires i <= |s|
    ensures q.Some? ==> DigitRun(s, i) > 0 && AllSpace(s, i + DigitRun(s, i), q.value)
    ensures q.Some? ==> MinuteWordAt(s, q.value)
  {
    var p := i + DigitRun(s, i);
    if p == i then None
    else
      SpaceRunSpaces(s, p);
      var q := p + SpaceRun(s, p);
      if MinuteWordAt(s, q) then Some(q) else None
  }

  /** Everything after `minute` at `q`: the optional `s` is first taken; when
      the tail then fails it is given back and `second` must follow at
      once. */
  function SecondsAfterMinute(s: string, q: nat): (r: Option<nat>)
    requires q + 6 <= |s|
    ensures r.Some? ==> q + 12 <= |s|
  {
    var t := q + 6;
    if LetterAt(s, t, 's') then
      match SecondsFrom(s, t + 1)
      case Some(sec) => Some(sec)
      case None => if SecondWordAt(s, t) then Some(0) else None
    else SecondsFrom(s, t)
  }

  /** The duration pattern tried at position `i` alone. */
  function TimeMatchAt(s: string, i: nat): (r: Option<Duration>)
    requires i <= |s|
    ensures r.Some? ==> i < |s| && IsDigit(s[i])
  {
    match MinuteAt(s, i)
    case None => None
    case Some(q) =>
      match SecondsAfterMinute(s, q)
      case None => None
      case Some(sec) => Some(Duration(DecimalValue(s[i..i + DigitRun(s, i)]), sec))
  }

  /** `re.search` for the duration pattern from position `i` on. */
  function FindTime(s: string, i: nat): (r: Option<Duration>)
    requires i <= |s|
    ensures r.Some? ==> exists j :: i <= j < |s| && IsDigit(s[j])
    decreases |s| - i
  {
    match TimeMatchAt(s, i)
    case Some(d) => Some(d)
    case None => if i == |s| then None else FindTime(s, i + 1)
  }

  /** Where the parts of a seconds tail lie: whitespace s[t..u], the
      optional seconds digits s[u..v] (empty unless `hasSeconds`),
      whitespace s[v..w], `second` at w. */
  datatype TailSpans = TailSpans(t: nat, u: nat, v: nat, w: nat, hasSeconds: bool)

  /** Declarative reading of the tail `\s*(\d+)?\s*second` at `g`. */
  ghost predicate SecondsTail(s: string, g: TailSpans) {
    && AllSpace(s, g.t, g.u)
    && (if g.hasSeconds then g.u < g.v && AllDigits(s, g.u, g.v) else g.v == g.u)
    && AllSpace(s, g.v, g.w)
    && SecondWordAt(s, g.w)
  }

  /** The seconds a tail captures: its digits, or 0 when there are none. */
  function SecondsValue(s: string, g: TailSpans): nat
    requires g.hasSeconds ==> AllDigits(s, g.u, g.v)
  {
    if g.hasSeconds then DecimalValue(s[g.u..g.v]) else 0
  }

  /** Declarative reading of `s?\s*(\d+)?\s*second` after `minute` at `q`:
      the tail starts right after `minute`, or after an `s` following it. */
  ghost predicate AfterMinute(s: string, q: nat, g: TailSpans) {
    && (g.t == q + 6 || (g.t == q + 7 && LetterAt(s, q + 6, 's')))
    && SecondsTail(s, g)
  }

  /** Where the parts of a duration match lie: digits s[i..p], whitespace
      s[p..q], `minute` at q, then the rest. */
  datatype TimeSpans = TimeSpans(p: nat, q: nat, tail: TailSpans)

  /** Declarative reading of `(\d+)\s*minutes?\s*(\d+)?\s*seconds?` matching
      at `i` with its parts at `g`. */
  ghost predicate TimeMatch(s: string, i: nat, g: TimeSpans) {
    && i < g.p && AllDigits(s, i, g.p)
    && AllSpace(s, g.p, g.q)
    && MinuteWordAt(s, g.q)
    && AfterMinute(s, g.q, g.tail)
  }

  /** The duration a declarative match captures. */
  function CapturedDuration(s: string, i: nat, g: TimeSpans): Duration
    requires AllDigits(s, i, g.p)
    requires g.tail.hasSeconds ==> AllDigits(s, g.tail.u, g.tail.v)
  {
    Duration(DecimalValue(s[i..g.p]), SecondsValue(s, g.tail))
  }

  ghost predicate TimeMatchesAt(s: string, i: nat) {
    exists g: TimeSpans :: TimeMatch(s, i, g)
  }

  /** The duration match at `j`, with parts `g`, is the leftmost one at or
      after `i`. */
  ghost predicate LeftmostTime(s: string, i: nat, j: nat, g: TimeSpans) {
    && i <= j
    && TimeMatch(s, j, g)
    && forall j': nat :: i <= j' < j ==> !TimeMatchesAt(s, j')
  }

  // ----- The parser -----

  /** `parse_voice_command`: `None` without an exercise name; otherwise the
      name and the duration, if the duration pattern matched (seconds 0 when
      not spoken). */
  function ParseVoiceCommand(transcript: string): (r: Option<VoiceCommand>)
    ensures r.Some? ==> |r.value.exercise| >= 1 && '\n' !in r.value.exercise
    ensures r.Some? ==> forall k :: 1 <= k < |r.value.exercise| ==> !IsQuote(r.value.exercise[k])
  {
    var name := FindExerciseName(transcript, 0);
    var time := FindTime(transcript, 0);
    if name.None? || name.value == [] then None
    else Some(VoiceCommand(name.value, time))
  }

  /** The `working_time` text voice-add stores: `f"{minutes}:{seconds}"`,
      with no zero padding. */
  function WorkingTimeText(d: Duration): (r: string)
    ensures ':' in r
  {
    NatToDecimal(d.minutes) + ":" + NatToDecimal(d.seconds)
  }

  // ----- Lemmas: the scanners agree with the patterns -----

  /** `SpaceRun` measures whitespace only, up to the first character that
      is not whitespace. */
  lemma {:induction false} SpaceRunIsLongest(s: string, i: nat)
    requires i <= |s|
    ensures i + SpaceRun(s, i) == |s| || !IsSpace(s[i + SpaceRun(s, i)])
    decreases |s| - i
  {
    if i < |s| && IsSpace(s[i]) {
      SpaceRunIsLongest(s, i + 1);
    }
  }

  /** `SpaceRun` counts only whitespace. */
  lemma {:induction false} SpaceRunSpaces(s: string, i: nat)
    requires i <= |s|
    ensures AllSpace(s, i, i + SpaceRun(s, i))
    decreases |s| - i
  {
    if i < |s| && IsSpace(s[i]) {
      SpaceRunSpaces(s, i + 1);
    }
  }

  /** `DigitRun` stops only at the end or at a character that is not a
      digit. */
  lemma {:induction false} DigitRunIsLongest(s: string, i: nat)
    requires i <= |s|
    ensures i + DigitRun(s, i) == |s| || !IsDigit(s[i + DigitRun(s, i)])
    decreases |s| - i
  {
    if i < |s| && IsDigit(s[i]) {
      DigitRunIsLongest(s, i + 1);
    }
  }

  /** A whitespace run ended by a non-whitespace character (or the end) is
      the one `SpaceRun` measures. */
  lemma SpaceRunUnique(s: string, i: nat, j: nat)
    requires AllSpace(s, i, j) && (j == |s| || !IsSpace(s[j]))
    ensures j == i + SpaceRun(s, i)
  {
    SpaceRunSpaces(s, i);
    SpaceRunIsLongest(s, i);
  }

  /** A digit run ended by a non-digit (or the end) is the one `DigitRun`
      measures. */
  lemma DigitRunUnique(s: string, i: nat, j: nat)
    requires AllDigits(s, i, j) && (j == |s| || !IsDigit(s[j]))
    ensures j == i + DigitRun(s, i)
  {
    DigitRunIsLongest(s, i);
  }

  /** A character that lower-cases to a letter is neither whitespace nor a
      digit. */
  lemma LetterIsNotSpaceOrDigit(s: string, k: nat, c: char)
    requires 'a' <= c <= 'z' && LetterAt(s, k, c)
    ensures !IsSpace(s[k]) && !IsDigit(s[k])
  {
  }

  lemma {:induction false} CloseQuoteFinds(s: string, p: nat, b: nat)
    requires p <= b < |s| && IsQuote(s[b])
    requires forall k :: p <= k < b ==> !IsQuote(s[k]) && s[k] != '\n'
    ensures CloseQuote(s, p) == Some(b)
    decreases b - p
  {
    if p < b {
      CloseQuoteFinds(s, p + 1, b);
    }
  }

  /** Whatever the exercise scanner captures at `i` is a match of the
      pattern there. */
  lemma ExerciseMatchAtSound(s: string, i: nat)
    requires i <= |s| && ExerciseMatchAt(s, i).Some?
    ensures exists a: nat, b: nat :: ExerciseMatch(s, i, a, b) && ExerciseMatchAt(s, i).value == s[a..b]
  {
    var j := i + 8;
    SpaceRunSpaces(s, j);
    var k := j + SpaceRun(s, j);
    var q := CloseQuote(s, k + 2).value;
    assert ExerciseMatch(s, i, k + 1, q);
  }

  /** Every match of the exercise pattern at `i` is the one the scanner
      captures: the match at a position is unique. */
  lemma ExerciseMatchAtComplete(s: string, i: nat, a: nat, b: nat)
    requires ExerciseMatch(s, i, a, b)
    ensures ExerciseMatchAt(s, i) == Some(s[a..b])
  {
    SpaceRunUnique(s, i + 8, a - 1);
    CloseQuoteFinds(s, a + 1, b);
  }

  /** Where the scanner finds nothing, the pattern does not match. */
  lemma NoExerciseMatchAt(s: string, i: nat)
    requires i <= |s| && ExerciseMatchAt(s, i).None?
    ensures !ExerciseMatchesAt(s, i)
  {
    if ExerciseMatchesAt(s, i) {
      var a: nat, b: nat :| ExerciseMatch(s, i, a, b);
      ExerciseMatchAtComplete(s, i, a, b);
    }
  }

  /** The search returns the group of the leftmost match at or after `i`. */
  lemma {:induction false} FindExerciseNameSound(s: string, i: nat)
    requires i <= |s| && FindExerciseName(s, i).Some?
    ensures exists j: nat, a: nat, b: nat :: LeftmostExercise(s, i, j, a, b) && FindExerciseName(s, i).value == s[a..b]
    decreases |s| - i
  {
    if ExerciseMatchAt(s, i).Some? {
      ExerciseMatchAtSound(s, i);
      var a: nat, b: nat :| ExerciseMatch(s, i, a, b) && ExerciseMatchAt(s, i).value == s[a..b];
      assert LeftmostExercise(s, i, i, a, b);
    } else {
      FindExerciseNameSound(s, i + 1);
      var j: nat, a: nat, b: nat :| LeftmostExercise(s, i + 1, j, a, b) && FindExerciseName(s, i + 1).value == s[a..b];
      LeftmostExerciseLater(s, i, j, a, b);
    }
  }

  /** A start position where the scanner fails does not change which match
      is leftmost. */
  lemma LeftmostExerciseLater(s: string, i: nat, j: nat, a: nat, b: nat)
    requires i <= |s| && ExerciseMatchAt(s, i).None? && LeftmostExercise(s, i + 1, j, a, b)
    ensures LeftmostExercise(s, i, j, a, b)
  {
    NoExerciseMatchAt(s, i);
  }

  /** The search finds something whenever the pattern matches at or after
      `i`. */
  lemma {:induction false} FindExerciseNameComplete(s: string, i: nat, j: nat, a: nat, b: nat)
    requires i <= j && ExerciseMatch(s, j, a, b)
    ensures FindExerciseName(s, i).Some?
    decreases j - i
  {
    if i == j {
      ExerciseMatchAtComplete(s, j, a, b);
    } else if ExerciseMatchAt(s, i).None? {
      FindExerciseNameComplete(s, i + 1, j, a, b);
    }
  }

  /** Whatever the tail scanner captures from `t` is a match of the tail. */
  lemma SecondsFromSound(s: string, t: nat) returns (g: TailSpans)
    requires t <= |s| && SecondsFrom(s, t).Some?
    ensures g.t == t && SecondsTail(s, g) && SecondsFrom(s, t).value == SecondsValue(s, g)
  {
    SpaceRunSpaces(s, t);
    var u := t + SpaceRun(s, t);
    var v := u + DigitRun(s, u);
    if v > u {
      SpaceRunSpaces(s, v);
      var w := v + SpaceRun(s, v);
      assert SecondWordAt(s, w) && SecondsFrom(s, t) == Some(DecimalValue(s[u..v]));
      g := TailSpans(t, u, v, w, true);
      DigitTail(s, g);
    } else {
      assert SecondWordAt(s, u) && SecondsFrom(s, t) == Some(0);
      g := TailSpans(t, u, u, u, false);
    }
  }

  /** Spaces, digits, spaces and `second` in a row form a tail capturing
      the digits. */
  lemma DigitTail(s: string, g: TailSpans)
    requires g.hasSeconds && g.t <= g.u < g.v <= g.w
    requires AllSpace(s, g.t, g.u) && AllDigits(s, g.u, g.v) && AllSpace(s, g.v, g.w) && SecondWordAt(s, g.w)
    ensures SecondsTail(s, g) && SecondsValue(s, g) == DecimalValue(s[g.u..g.v])
  {
  }

  /** Every match of the tail yields what the tail scanner captures. */
  lemma SecondsFromComplete(s: string, g: TailSpans)
    requires SecondsTail(s, g)
    ensures SecondsFrom(s, g.t) == Some(SecondsValue(s, g))
  {
    if g.hasSeconds {
      SecondsFromWithDigits(s, g);
    } else {
      SecondsFromWithoutDigits(s, g);
    }
  }

  lemma SecondsFromWithDigits(s: string, g: TailSpans)
    requires SecondsTail(s, g) && g.hasSeconds
    ensures SecondsFrom(s, g.t) == Some(DecimalValue(s[g.u..g.v]))
  {
    TailRuns(s, g);
  }

  /** The runs of a tail with seconds are the ones the scanner measures. */
  lemma TailRuns(s: string, g: TailSpans)
    requires SecondsTail(s, g) && g.hasSeconds
    ensures SpaceRun(s, g.t) == g.u - g.t
    ensures DigitRun(s, g.u) == g.v - g.u
    ensures SpaceRun(s, g.v) == g.w - g.v
  {
    LetterIsNotSpaceOrDigit(s, g.w, 's');
    SpaceRunUnique(s, g.t, g.u);
    if g.v < g.w {
      assert IsSpace(s[g.v]);
    }
    DigitRunUnique(s, g.u, g.v);
    SpaceRunUnique(s, g.v, g.w);
  }

  lemma SecondsFromWithoutDigits(s: string, g: TailSpans)
    requires SecondsTail(s, g) && !g.hasSeconds
    ensures SecondsFrom(s, g.t) == Some(0)
  {
    LetterIsNotSpaceOrDigit(s, g.w, 's');
    SpaceRunUnique(s, g.t, g.w);
    assert DigitRun(s, g.w) == 0;
  }

  /** Whatever the scanner finds after `minute` at `q` is a match of the
      rest of the pattern there. */
  lemma SecondsAfterMinuteSound(s: string, q: nat) returns (g: TailSpans)
    requires q + 6 <= |s| && SecondsAfterMinute(s, q).Some?
    ensures AfterMinute(s, q, g) && SecondsAfterMinute(s, q).value == SecondsValue(s, g)
  {
    var t := q + 6;
    if LetterAt(s, t, 's') && SecondsFrom(s, t + 1).Some? {
      g := SecondsFromSound(s, t + 1);
    } else if LetterAt(s, t, 's') {
      g := TailSpans(t, t, t, t, false);
    } else {
      g := SecondsFromSound(s, t);
    }
  }

  /** When the optional `s` is followed by `second` at once, no tail can
      start after it: `second` does not begin with `e`. */
  lemma NoTailAfterSecondsS(s: string, t: nat)
    requires SecondWordAt(s, t)
    ensures SecondsFrom(s, t + 1).None?
  {
    LetterIsNotSpaceOrDigit(s, t + 1, 'e');
    assert SpaceRun(s, t + 1) == 0;
    assert DigitRun(s, t + 1) == 0;
  }

  /** A tail starting at an `s` is empty and `second` begins at that `s`. */
  lemma TailAtLetterS(s: string, g: TailSpans)
    requires SecondsTail(s, g) && LetterAt(s, g.t, 's')
    ensures !g.hasSeconds && g.w == g.t
  {
    LetterIsNotSpaceOrDigit(s, g.t, 's');
  }

  /** Every match of the rest of the pattern after `minute` at `q` yields
      what the scanner finds there. */
  lemma SecondsAfterMinuteComplete(s: string, q: nat, g: TailSpans)
    requires q + 6 <= |s| && AfterMinute(s, q, g)
    ensures SecondsAfterMinute(s, q) == Some(SecondsValue(s, g))
  {
    var t0 := q + 6;
    if g.t == t0 + 1 {
      SecondsFromComplete(s, g);
    } else if LetterAt(s, t0, 's') {
      TailAtLetterS(s, g);
      NoTailAfterSecondsS(s, t0);
    } else {
      SecondsFromComplete(s, g);
    }
  }

  /** Whatever the duration scanner captures at `i` is a match of the
      pattern there. */
  lemma TimeMatchAtSound(s: string, i: nat) returns (g: TimeSpans)
    requires i <= |s| && TimeMatchAt(s, i).Some?
    ensures TimeMatch(s, i, g) && TimeMatchAt(s, i).value == CapturedDuration(s, i, g)
  {
    TimeMatchAtValue(s, i);
    var q := MinuteAt(s, i).value;
    var tail := SecondsAfterMinuteSound(s, q);
    g := TimeSpans(i + DigitRun(s, i), q, tail);
  }

  /** What a successful duration scan captures: the digits at `i` and the
      seconds found after `minute`. */
  lemma TimeMatchAtValue(s: string, i: nat)
    requires i <= |s| && TimeMatchAt(s, i).Some?
    ensures MinuteAt(s, i).Some? && MinuteAt(s, i).value + 6 <= |s|
    ensures SecondsAfterMinute(s, MinuteAt(s, i).value).Some?
    ensures TimeMatchAt(s, i).value
            == Duration(DecimalValue(s[i..i + DigitRun(s, i)]), SecondsAfterMinute(s, MinuteAt(s, i).value).value)
  {
  }

  /** Every match of the duration pattern at `i` yields what the scanner
      captures: the captured minutes and seconds at a position are unique. */
  lemma TimeMatchAtComplete(s: string, i: nat, g: TimeSpans)
    requires TimeMatch(s, i, g)
    ensures TimeMatchAt(s, i) == Some(CapturedDuration(s, i, g))
  {
    MinuteAtComplete(s, i, g.p, g.q);
    SecondsAfterMinuteComplete(s, g.q, g.tail);
    assert s[i..i + DigitRun(s, i)] == s[i..g.p];
  }

  /** Digits s[i..p], whitespace s[p..q] and `minute` at q are what the
      head scanner finds. */
  lemma MinuteAtComplete(s: string, i: nat, p: nat, q: nat)
    requires i < p && AllDigits(s, i, p) && AllSpace(s, p, q) && MinuteWordAt(s, q)
    ensures MinuteAt(s, i) == Some(q) && DigitRun(s, i) == p - i
  {
    LetterIsNotSpaceOrDigit(s, q, 'm');
    if p < q {
      assert IsSpace(s[p]);
    }
    DigitRunUnique(s, i, p);
    SpaceRunUnique(s, p, q);
  }

  /** Where the scanner finds nothing, the pattern does not match. */
  lemma NoTimeMatchAt(s: string, i: nat)
    requires i <= |s| && TimeMatchAt(s, i).None?
    ensures !TimeMatchesAt(s, i)
  {
    if TimeMatchesAt(s, i) {
      var g :| TimeMatch(s, i, g);
      TimeMatchAtComplete(s, i, g);
    }
  }

  /** The duration search returns the capture of the leftmost match at or
      after `i`. */
  lemma {:induction false} FindTimeSound(s: string, i: nat)
    requires i <= |s| && FindTime(s, i).Some?
    ensures exists j: nat, g: TimeSpans :: LeftmostTime(s, i, j, g) && FindTime(s, i).value == CapturedDuration(s, j, g)
    decreases |s| - i
  {
    if TimeMatchAt(s, i).Some? {
      var g := TimeMatchAtSound(s, i);
      assert LeftmostTime(s, i, i, g);
    } else {
      FindTimeSound(s, i + 1);
      var j: nat, g :| LeftmostTime(s, i + 1, j, g) && FindTime(s, i + 1).value == CapturedDuration(s, j, g);
      LeftmostTimeLater(s, i, j, g);
    }
  }

  /** A start position where the duration scanner fails does not change
      which match is leftmost. */
  lemma LeftmostTimeLater(s: string, i: nat, j: nat, g: TimeSpans)
    requires i <= |s| && TimeMatchAt(s, i).None? && LeftmostTime(s, i + 1, j, g)
    ensures LeftmostTime(s, i, j, g)
  {
    NoTimeMatchAt(s, i);
  }

  /** The duration search finds something whenever the pattern matches at or
      after `i`. */
  lemma {:induction false} FindTimeComplete(s: string, i: nat, j: nat)
    requires i <= j && TimeMatchesAt(s, j)
    ensures FindTime(s, i).Some?
    decreases j - i
  {
    if TimeMatchAt(s, i).None? {
      if i == j {
        var g :| TimeMatch(s, j, g);
        TimeMatchAtComplete(s, j, g);
        assert false;
      }
      FindTimeComplete(s, i + 1, j);
      assert FindTime(s, i) == FindTime(s, i + 1);
    } else {
      assert FindTime(s, i) == TimeMatchAt(s, i);
    }
  }

  // ----- Lemmas: the parser -----

  /** The parser fails exactly when the exercise pattern matches nowhere. */
  lemma ParseFailsIffNoExercise(s: string)
    ensures ParseVoiceCommand(s).None? <==> forall j: nat :: !ExerciseMatchesAt(s, j)
  {
    if FindExerciseName(s, 0).Some? {
      FindExerciseNameSound(s, 0);
      var j: nat, a: nat, b: nat :| LeftmostExercise(s, 0, j, a, b) && FindExerciseName(s, 0).value == s[a..b];
      assert ExerciseMatchesAt(s, j);
    } else {
      forall j: nat | ExerciseMatchesAt(s, j)
        ensures false
      {
        var a: nat, b: nat :| ExerciseMatch(s, j, a, b);
        FindExerciseNameComplete(s, 0, j, a, b);
      }
    }
  }

  /** A parsed name is the group of the leftmost exercise match. */
  lemma ParsedNameIsLeftmost(s: string)
    requires ParseVoiceCommand(s).Some?
    ensures exists j: nat, a: nat, b: nat ::
              LeftmostExercise(s, 0, j, a, b) && ParseVoiceCommand(s).value.exercise == s[a..b]
  {
    FindExerciseNameSound(s, 0);
  }

  /** A parsed command carries a duration exactly when the duration pattern
      matches somewhere, and then it is the capture of the leftmost match,
      with seconds 0 when none were spoken. */
  lemma ParsedTimeIsLeftmost(s: string)
    requires ParseVoiceCommand(s).Some?
    ensures ParseVoiceCommand(s).value.time.None? <==> forall j: nat :: !TimeMatchesAt(s, j)
    ensures ParseVoiceCommand(s).value.time.Some? ==>
              exists j: nat, g: TimeSpans :: LeftmostTime(s, 0, j, g)
                && ParseVoiceCommand(s).value.time.value == CapturedDuration(s, j, g)
  {
    assert ParseVoiceCommand(s).value.time == FindTime(s, 0);
    if FindTime(s, 0).Some? {
      FindTimeSound(s, 0);
      var j: nat, g :| LeftmostTime(s, 0, j, g) && FindTime(s, 0).value == CapturedDuration(s, j, g);
      assert TimeMatchesAt(s, j);
    } else {
      forall j: nat | TimeMatchesAt(s, j)
        ensures false
      {
        FindTimeComplete(s, 0, j);
      }
    }
  }

  /** A transcript without quotes never parses: the name must be quoted. */
  lemma NoQuoteNoCommand(s: string)
    requires forall c :: c in s ==> !IsQuote(c)
    ensures ParseVoiceCommand(s) == None
  {
    if FindExerciseName(s, 0).Some? {
      FindExerciseNameSound(s, 0);
    }
  }

  /** Without the word `second` there is no duration: `for 5 minutes` alone
      is not recognised. */
  lemma NoSecondWordNoTime(s: string)
    requires forall k: nat :: !SecondWordAt(s, k)
    ensures FindTime(s, 0) == None
  {
    if FindTime(s, 0).Some? {
      FindTimeSound(s, 0);
    }
  }

  /** A duration match starts with a digit. */
  lemma MatchStartsWithDigit(s: string, j: nat, g: TimeSpans)
    requires TimeMatch(s, j, g)
    ensures j < |s| && IsDigit(s[j])
  {
  }

  /** A duration match with no digit before it is the one the search
      returns. */
  lemma FirstTimeAt(s: string, i: nat, g: TimeSpans)
    requires TimeMatch(s, i, g)
    requires forall k :: 0 <= k < i ==> !IsDigit(s[k])
    ensures FindTime(s, 0) == Some(CapturedDuration(s, i, g))
  {
    assert TimeMatchesAt(s, i);
    FindTimeComplete(s, 0, i);
    FindTimeSound(s, 0);
    var j: nat, h :| LeftmostTime(s, 0, j, h) && FindTime(s, 0).value == CapturedDuration(s, j, h);
    MatchStartsWithDigit(s, j, h);
    assert j == i;
    TimeMatchAtComplete(s, i, g);
    TimeMatchAtComplete(s, i, h);
  }

  /** The parser pairs the leftmost name with the leftmost duration. */
  lemma ParseCombines(s: string, name: string, time: Option<Duration>)
    requires FindExerciseName(s, 0) == Some(name) && FindTime(s, 0) == time
    ensures ParseVoiceCommand(s) == Some(VoiceCommand(name, time))
  {
  }

  /** A transcript opening with `exercise "NAME"` parses to NAME, whatever
      follows, for any NAME a quoted name can be. */
  lemma QuotedNameFound(name: string, rest: string)
    requires |name| >= 1 && forall c :: c in name ==> c != '\n' && !IsQuote(c)
    ensures FindExerciseName("exercise \"" + name + "\"" + rest, 0) == Some(name)
  {
    var s := "exercise \"" + name + "\"" + rest;
    assert s[0..10] == "exercise \"" && s[10..10 + |name|] == name && s[10 + |name|] == '"';
    QuotedNameAt(s, name);
  }

  /** The exercise search on a transcript opening with `exercise "` followed
      by NAME and a quote. */
  lemma QuotedNameAt(s: string, name: string)
    requires |name| >= 1 && forall c :: c in name ==> c != '\n' && !IsQuote(c)
    requires 10 + |name| < |s| && s[0..10] == "exercise \"" && s[10..10 + |name|] == name && s[10 + |name|] == '"'
    ensures FindExerciseName(s, 0) == Some(name)
  {
    var b := 10 + |name|;
    assert forall k :: 0 <= k < 10 ==> s[k] == "exercise \""[k];
    assert ExerciseWordAt(s, 0);
    assert AllSpace(s, 8, 9);
    assert forall k :: 10 <= k < b ==> s[k] == name[k - 10] && name[k - 10] in name;
    assert ExerciseMatch(s, 0, 10, b);
    ExerciseMatchAtComplete(s, 0, 10, b);
  }

  /** The duration search on a transcript whose first digit starts the
      phrase `M minutes S seconds`: digits `m` at s[i..p], ` minutes `,
      digits `sec` at s[p + 9..v], ` second`. */
  lemma TimePhraseAt(s: string, i: nat, p: nat, v: nat, m: string, sec: string)
    requires i < p && p + 9 < v && v + 7 <= |s|
    requires forall k :: 0 <= k < i ==> !IsDigit(s[k])
    requires AllDigits(s, i, p) && AllDigits(s, p + 9, v)
    requires AllSpace(s, p, p + 1) && MinuteWordAt(s, p + 1)
    requires LetterAt(s, p + 7, 's') && AllSpace(s, p + 8, p + 9)
    requires AllSpace(s, v, v + 1) && SecondWordAt(s, v + 1)
    requires s[i..p] == m && s[p + 9..v] == sec
    ensures IsDecimal(m) && IsDecimal(sec)
    ensures FindTime(s, 0) == Some(Duration(DecimalValue(m), DecimalValue(sec)))
  {
    var g := PhraseSpans(s, i, p, v);
    FirstTimeAt(s, i, g);
  }

  /** The two numbers of `M minutes S seconds` lie where expected. */
  lemma PhraseDigits(pre: string, m: string, sec: string, post: string)
    requires IsDecimal(m) && IsDecimal(sec)
    ensures var s := pre + m + " minutes " + sec + " seconds" + post;
            var p := |pre| + |m|;
            var v := p + 9 + |sec|;
            && AllDigits(s, |pre|, p) && s[|pre|..p] == m
            && AllDigits(s, p + 9, v) && s[p + 9..v] == sec
  {
    var s := pre + m + " minutes " + sec + " seconds" + post;
    TimePhraseSlices(pre, m, sec, post);
    DigitsSlice(s, |pre|, m);
    DigitsSlice(s, |pre| + |m| + 9, sec);
  }

  /** The words of `M minutes S seconds` lie where expected. */
  lemma PhraseWords(pre: string, m: string, sec: string, post: string)
    ensures var s := pre + m + " minutes " + sec + " seconds" + post;
            var p := |pre| + |m|;
            var v := p + 9 + |sec|;
            && AllSpace(s, p, p + 1) && MinuteWordAt(s, p + 1)
            && LetterAt(s, p + 7, 's') && AllSpace(s, p + 8, p + 9)
            && AllSpace(s, v, v + 1) && SecondWordAt(s, v + 1)
  {
    var s := pre + m + " minutes " + sec + " seconds" + post;
    TimePhraseSlices(pre, m, sec, post);
    MinutesWord(s, |pre| + |m|);
    SecondsWord(s, |pre| + |m| + 9 + |sec|);
  }

  /** Where the parts of the phrase lie, as a match of the pattern. */
  lemma PhraseSpans(s: string, i: nat, p: nat, v: nat) returns (g: TimeSpans)
    requires i < p && p + 9 < v && v + 7 <= |s|
    requires AllDigits(s, i, p) && AllDigits(s, p + 9, v)
    requires AllSpace(s, p, p + 1) && MinuteWordAt(s, p + 1)
    requires LetterAt(s, p + 7, 's') && AllSpace(s, p + 8, p + 9)
    requires AllSpace(s, v, v + 1) && SecondWordAt(s, v + 1)
    ensures TimeMatch(s, i, g)
    ensures IsDecimal(s[i..p]) && IsDecimal(s[p + 9..v])
    ensures CapturedDuration(s, i, g) == Duration(DecimalValue(s[i..p]), DecimalValue(s[p + 9..v]))
  {
    g := TimeSpans(p, p + 1, TailSpans(p + 8, p + 9, v, v + 1, true));
  }

  lemma TimePhraseSlices(pre: string, m: string, sec: string, post: string)
    ensures var s := pre + m + " minutes " + sec + " seconds" + post;
            var p := |pre| + |m|;
            var v := p + 9 + |sec|;
            && s[|pre|..p] == m && s[p..p + 9] == " minutes "
            && s[p + 9..v] == sec && s[v..v + 8] == " seconds"
  {
  }

  lemma DigitsSlice(s: string, i: nat, ds: string)
    requires i + |ds| <= |s| && s[i..i + |ds|] == ds && IsDecimal(ds)
    ensures AllDigits(s, i, i + |ds|)
  {
    assert forall k :: i <= k < i + |ds| ==> s[k] == ds[k - i];
  }

  lemma MinutesWord(s: string, p: nat)
    requires p + 9 <= |s| && s[p..p + 9] == " minutes "
    ensures AllSpace(s, p, p + 1) && MinuteWordAt(s, p + 1) && LetterAt(s, p + 7, 's') && AllSpace(s, p + 8, p + 9)
  {
    assert forall k :: 0 <= k < 9 ==> s[p + k] == " minutes "[k];
  }

  lemma SecondsWord(s: string, v: nat)
    requires v + 8 <= |s| && s[v..v + 8] == " seconds"
    ensures AllSpace(s, v, v + 1) && SecondWordAt(s, v + 1)
  {
    assert forall k :: 0 <= k < 8 ==> s[v + k] == " seconds"[k];
  }

  /** A transcript without digits carries no duration. */
  lemma NoDigitNoTime(s: string)
    requires forall k :: 0 <= k < |s| ==> !IsDigit(s[k])
    ensures FindTime(s, 0) == None
  {
  }

  // ----- Lemmas: decimal text -----

  lemma DigitCharOfValue(c: char)
    requires IsDigit(c)
    ensures DigitChar(DigitValue(c)) == c
  {
  }

  /** Reading back the digits of `n` gives `n`. */
  lemma {:induction false} DecimalRoundTrip(n: nat)
    ensures DecimalValue(NatToDecimal(n)) == n
  {
    var r := NatToDecimal(n);
    if n >= 10 {
      DecimalRoundTrip(n / 10);
      assert r[..|r| - 1] == NatToDecimal(n / 10);
    }
  }

  /** Digits without a leading zero of value at least ten are two or more. */
  lemma {:induction false} DecimalValueAtLeastTen(ds: string)
    requires IsDecimal(ds) && |ds| >= 2 && ds[0] != '0'
    ensures DecimalValue(ds) >= 10
    decreases |ds|
  {
    var init := ds[..|ds| - 1];
    if |init| >= 2 {
      DecimalValueAtLeastTen(init);
    } else {
      assert init == [ds[0]];
      assert DecimalValue(init) == DigitValue(ds[0]);
    }
  }

  /** Writing out the value of digits without a leading zero gives the same
      digits back. */
  lemma {:induction false} DecimalRoundTripBack(ds: string)
    requires IsDecimal(ds) && |ds| >= 1 && (|ds| > 1 ==> ds[0] != '0')
    ensures NatToDecimal(DecimalValue(ds)) == ds
    decreases |ds|
  {
    var last := ds[|ds| - 1];
    DigitCharOfValue(last);
    if |ds| == 1 {
      assert ds[..0] == [];
      assert ds == [last];
    } else {
      var init := ds[..|ds| - 1];
      DecimalValueAtLeastTen(ds);
      var v := DecimalValue(ds);
      assert v / 10 == DecimalValue(init) && v % 10 == DigitValue(last);
      DecimalRoundTripBack(init);
      assert ds == init + [last];
    }
  }

  /** The stored working time splits at its only colon back into the
      minutes and seconds it was written from. */
  lemma WorkingTimeTextRoundTrip(d: Duration)
    ensures var r := WorkingTimeText(d);
            var k := |NatToDecimal(d.minutes)|;
            && k < |r| && r[k] == ':'
            && (forall m :: 0 <= m < |r| && m != k ==> r[m] != ':')
            && IsDecimal(r[..k]) && DecimalValue(r[..k]) == d.minutes
            && IsDecimal(r[k + 1..]) && DecimalValue(r[k + 1..]) == d.seconds
  {
    var a := NatToDecimal(d.minutes);
    var b := NatToDecimal(d.seconds);
    var r := WorkingTimeText(d);
    assert r[..|a|] == a;
    assert r[|a| + 1..] == b;
    DecimalRoundTrip(d.minutes);
    DecimalRoundTrip(d.seconds);
  }
}
