/** Character classes and the text normalisation shared by the exercise
    searches (`normalize_text` and the catalog-side `$replaceAll`/`$toLower`
    pipeline in `search_exercise_rigid`). */
module Text {

  /** Python's `\s` on a `str` pattern: the same characters `str.isspace`
      accepts (ASCII tab..carriage return, the four information separators,
      space, NEL, NBSP and the Unicode space separators). */
  predicate IsSpace(c: char) {
    || c == ' '
    || ('\t' <= c <= '\r')
    || ('\U{1C}' <= c <= '\U{1F}')
    || c == '\U{85}'
    || c == '\U{A0}'
    || c == '\U{1680}'
    || ('\U{2000}' <= c <= '\U{200A}')
    || c == '\U{2028}'
    || c == '\U{2029}'
    || c == '\U{202F}'
    || c == '\U{205F}'
    || c == '\U{3000}'
  }

  /** The characters `normalize_text` deletes: the class `[\s\-]`. */
  predicate IsSeparator(c: char) {
    IsSpace(c) || c == '-'
  }

  /** The characters the catalog side deletes before comparing: only the
      literal hyphen and the literal space. */
  predicate IsSpaceOrHyphen(c: char) {
    c == ' ' || c == '-'
  }

  predicate IsUpper(c: char) {
    'A' <= c <= 'Z'
  }

  predicate IsDigit(c: char) {
    '0' <= c <= '9'
  }

  /** Lower-casing of one character (ASCII letters only). */
  function LowerChar(c: char): (r: char)
    ensures !IsUpper(r)
    ensures IsSpace(r) <==> IsSpace(c)
    ensures r == '-' <==> c == '-'
    ensures IsDigit(r) <==> IsDigit(c)
    ensures !IsUpper(c) ==> r == c
    ensures IsUpper(c) ==> 'a' <= r <= 'z' && r as int - 'a' as int == c as int - 'A' as int
  {
    if IsUpper(c) then (c as int + 32) as char else c
  }

  /** Two characters that are equal or the same ASCII letter in two cases. */
  predicate SameIgnoringCase(a: char, b: char) {
    || a == b
    || (IsUpper(a) && b as int - 'a' as int == a as int - 'A' as int)
    || (IsUpper(b) && a as int - 'a' as int == b as int - 'A' as int)
  }

  /** `str.lower()` / `$toLower`: length-preserving, character-wise. */
  function Lower(s: string): (r: string)
    ensures |r| == |s|
    ensures forall i :: 0 <= i < |s| ==> r[i] == LowerChar(s[i])
  {
    seq(|s|, i requires 0 <= i < |s| => LowerChar(s[i]))
  }

  /** Two characters lower-case alike exactly when they agree up to ASCII
      case. */
  lemma LowerCharAlike(a: char, b: char)
    ensures LowerChar(a) == LowerChar(b) <==> SameIgnoringCase(a, b)
  {
  }

  /** Two texts lower-case alike exactly when they have the same length and
      agree, position by position, up to ASCII case. */
  lemma LowerAlike(s: string, t: string)
    ensures Lower(s) == Lower(t) <==>
              |s| == |t| && forall i :: 0 <= i < |s| ==> SameIgnoringCase(s[i], t[i])
  {
    if Lower(s) == Lower(t) {
      forall i | 0 <= i < |s|
        ensures SameIgnoringCase(s[i], t[i])
      {
        assert Lower(s)[i] == Lower(t)[i];
        LowerCharAlike(s[i], t[i]);
      }
    }
    if |s| == |t| && forall i :: 0 <= i < |s| ==> SameIgnoringCase(s[i], t[i]) {
      forall i | 0 <= i < |s|
        ensures Lower(s)[i] == Lower(t)[i]
      {
        LowerCharAlike(s[i], t[i]);
      }
    }
  }

  /** Deletes every character `dropped` holds of, keeping the others in order
      (what `re.sub(..., '', ...)` and `$replaceAll` with an empty
      replacement do). */
  function Drop(s: string, dropped: char -> bool): (r: string)
    ensures |r| <= |s|
    ensures forall c :: c in r ==> c in s && !dropped(c)
  {
    if s == [] then []
    else (if dropped(s[0]) then [] else [s[0]]) + Drop(s[1..], dropped)
  }

  /** `normalize_text`: strip `[\s\-]`, then lower-case. */
  function Normalize(s: string): (r: string)
    ensures forall c :: c in r ==> !IsSeparator(c) && !IsUpper(c)
  {
    Lower(Drop(s, IsSeparator))
  }

  /** The catalog side of the exact search: `workout_name` with `-` and ` `
      replaced by nothing, then `$toLower`. Other whitespace survives. */
  function CatalogKey(name: string): (r: string)
    ensures forall c :: c in r ==> !IsSpaceOrHyphen(c) && !IsUpper(c)
  {
    Lower(Drop(name, IsSpaceOrHyphen))
  }

  /** `needle` occurs as a contiguous block of `hay` (the empty needle
      occurs everywhere). */
  predicate Contains(hay: string, needle: string) {
    exists i :: 0 <= i <= |hay| && OccursAt(hay, needle, i)
  }

  /** `needle` occurs in `hay` starting at index `i`. */
  predicate OccursAt(hay: string, needle: string, i: nat) {
    i + |needle| <= |hay| && hay[i..i + |needle|] == needle
  }

  // ----- Lemmas -----

  lemma {:induction false} DropConcat(a: string, b: string, dropped: char -> bool)
    ensures Drop(a + b, dropped) == Drop(a, dropped) + Drop(b, dropped)
  {
    if a == [] {
      assert a + b == b;
    } else {
      var head := if dropped(a[0]) then [] else [a[0]];
      assert (a + b)[1..] == a[1..] + b;
      calc {
        Drop(a + b, dropped);
        head + Drop(a[1..] + b, dropped);
        { DropConcat(a[1..], b, dropped); }
        head + (Drop(a[1..], dropped) + Drop(b, dropped));
        Drop(a, dropped) + Drop(b, dropped);
      }
    }
  }

  /** A character `dropped` does not hold of survives. */
  lemma {:induction false} DropKeeps(s: string, dropped: char -> bool, c: char)
    requires c in s && !dropped(c)
    ensures c in Drop(s, dropped)
  {
    if s[0] != c {
      DropKeeps(s[1..], dropped, c);
    }
  }

  lemma LowerConcat(a: string, b: string)
    ensures Lower(a + b) == Lower(a) + Lower(b)
  {
  }

  /** Normalisation works piecewise: normalising a concatenation is
      concatenating the normalised pieces. */
  lemma NormalizeConcat(a: string, b: string)
    ensures Normalize(a + b) == Normalize(a) + Normalize(b)
  {
    DropConcat(a, b, IsSeparator);
    LowerConcat(Drop(a, IsSeparator), Drop(b, IsSeparator));
  }

  lemma {:induction false} DropNothing(s: string, dropped: char -> bool)
    requires forall c :: c in s ==> !dropped(c)
    ensures Drop(s, dropped) == s
  {
    if s != [] {
      assert s[0] in s;
      assert forall c :: c in s[1..] ==> c in s;
      DropNothing(s[1..], dropped);
    }
  }

  /** Two predicates that agree on every character of `s` drop the same
      characters from it. */
  lemma {:induction false} DropAgree(s: string, p: char -> bool, q: char -> bool)
    requires forall c :: c in s ==> (p(c) <==> q(c))
    ensures Drop(s, p) == Drop(s, q)
  {
    if s != [] {
      assert s[0] in s;
      assert forall c :: c in s[1..] ==> c in s;
      DropAgree(s[1..], p, q);
    }
  }

  /** A string is its own normal form exactly when it has no separator and
      no upper-case letter. */
  lemma NormalizeFixedPoint(s: string)
    ensures Normalize(s) == s <==> forall c :: c in s ==> !IsSeparator(c) && !IsUpper(c)
  {
    if forall c :: c in s ==> !IsSeparator(c) && !IsUpper(c) {
      DropNothing(s, IsSeparator);
      assert forall i :: 0 <= i < |s| ==> s[i] in s;
    }
  }

  /** `normalize_text` is idempotent. */
  lemma NormalizeIdempotent(s: string)
    ensures Normalize(Normalize(s)) == Normalize(s)
  {
    NormalizeFixedPoint(Normalize(s));
  }

  /** "Push-Up", "push up" and "PUSHUP" all normalise to "pushup". */
  lemma NormalizeExamples()
    ensures Normalize("Push-Up") == "pushup"
    ensures Normalize("push up") == "pushup"
    ensures Normalize("PUSHUP") == "pushup"
  {
    NormalizeHyphenated();
    NormalizeSpaced();
    NormalizeShouted();
  }

  lemma NormalizeHyphenated()
    ensures Normalize("Push-Up") == "pushup"
  {
    NormalizeAroundSeparator("Push", '-', "Up");
    assert "Push" + ['-'] + "Up" == "Push-Up";
    LowerWord("Push" + "Up");
  }

  lemma NormalizeSpaced()
    ensures Normalize("push up") == "pushup"
  {
    NormalizeAroundSeparator("push", ' ', "up");
    assert "push" + [' '] + "up" == "push up";
    LowerWord("push" + "up");
  }

  /** The spoken "Push Up" and the catalog's "Push-Up" both reduce to
      "pushup". */
  lemma PushUpKeys()
    ensures Normalize("Push Up") == "pushup"
    ensures CatalogKey("Push-Up") == "pushup"
  {
    NormalizeSpacedCapitals();
    CatalogKeyHyphenated();
  }

  /** So the spoken name occurs in the catalog key. */
  lemma PushUpContained()
    ensures Contains(CatalogKey("Push-Up"), Normalize("Push Up"))
  {
    PushUpKeys();
    ContainsItself("pushup");
  }

  /** Every string contains itself. */
  lemma ContainsItself(s: string)
    ensures Contains(s, s)
  {
    assert s[0..|s|] == s;
    assert OccursAt(s, s, 0);
  }

  lemma NormalizeSpacedCapitals()
    ensures Normalize("Push Up") == "pushup"
  {
    NormalizeAroundSeparator("Push", ' ', "Up");
    assert "Push" + [' '] + "Up" == "Push Up";
    LowerWord("Push" + "Up");
  }

  lemma CatalogKeyHyphenated()
    ensures CatalogKey("Push-Up") == "pushup"
  {
    DropAround("Push", '-', "Up", IsSpaceOrHyphen);
    assert "Push" + ['-'] + "Up" == "Push-Up";
    LowerWord("Push" + "Up");
  }

  lemma NormalizeShouted()
    ensures Normalize("PUSHUP") == "pushup"
  {
    var w := "PUSHUP";
    assert forall c :: c in w ==> IsUpper(c);
    NormalizeWord(w);
    assert w[0] == 'P' && w[1] == 'U' && w[2] == 'S' && w[3] == 'H' && w[4] == 'U' && w[5] == 'P';
    assert LowerChar('P') == 'p' && LowerChar('U') == 'u' && LowerChar('S') == 's' && LowerChar('H') == 'h';
    LowerWord(w);
  }

  /** A word without separators only changes case. */
  lemma NormalizeWord(w: string)
    requires forall c :: c in w ==> !IsSeparator(c)
    ensures Normalize(w) == Lower(w)
  {
    DropNothing(w, IsSeparator);
  }

  /** A dropped character between two words that keep all theirs
      disappears, and the words close up. */
  lemma DropAround(a: string, sep: char, b: string, dropped: char -> bool)
    requires forall c :: c in a ==> !dropped(c)
    requires forall c :: c in b ==> !dropped(c)
    requires dropped(sep)
    ensures Drop(a + [sep] + b, dropped) == a + b
  {
    var left := a + [sep];
    DropConcat(a, [sep], dropped);
    DropNothing(a, dropped);
    assert Drop([sep], dropped) == [] by {
      assert [sep][1..] == [];
    }
    assert Drop(left, dropped) == a;
    DropConcat(left, b, dropped);
    DropNothing(b, dropped);
  }

  /** A separator between two separator-free words disappears. */
  lemma NormalizeAroundSeparator(a: string, sep: char, b: string)
    requires forall c :: c in a ==> !IsSeparator(c)
    requires forall c :: c in b ==> !IsSeparator(c)
    requires IsSeparator(sep)
    ensures Normalize(a + [sep] + b) == Lower(a + b)
  {
    DropAround(a, sep, b, IsSeparator);
  }

  /** Lower-casing a six-letter word spelling "pushup" in any case. */
  lemma LowerWord(w: string)
    requires |w| == 6
    requires LowerChar(w[0]) == 'p' && LowerChar(w[1]) == 'u' && LowerChar(w[2]) == 's'
    requires LowerChar(w[3]) == 'h' && LowerChar(w[4]) == 'u' && LowerChar(w[5]) == 'p'
    ensures Lower(w) == "pushup"
  {
  }

  /** For a name whose only whitespace is the plain space, the catalog key
      and `normalize_text` agree. */
  lemma CatalogKeyMatchesNormalize(name: string)
    requires forall c :: c in name && IsSpace(c) ==> c == ' '
    ensures CatalogKey(name) == Normalize(name)
  {
    DropAgree(name, IsSpaceOrHyphen, IsSeparator);
  }

  /** A name holding any whitespace other than the plain space (a tab, a
      non-breaking space, ...) keeps it in its catalog key, so no normalised
      query can ever equal that key. */
  lemma CatalogKeyKeepsOtherSpace(name: string, c: char, query: string)
    requires c in name && IsSpace(c) && c != ' '
    ensures CatalogKey(name) != Normalize(query)
  {
    var kept := Drop(name, IsSpaceOrHyphen);
    DropKeeps(name, IsSpaceOrHyphen, c);
    var i :| 0 <= i < |kept| && kept[i] == c;
    assert IsSpace(CatalogKey(name)[i]);
    assert CatalogKey(name)[i] in CatalogKey(name);
  }
}
