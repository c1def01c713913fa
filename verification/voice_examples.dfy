/** Worked transcripts for the voice command parser, and the general phrase
    lemma they rest on. */
module VoiceExamples {
  import opened Common
  import opened Text
  import opened Voice

  /** A duration phrase `M minutes S seconds` after text without digits is
      the one found. */
  lemma TimePhraseFound(pre: string, m: string, sec: string, post: string)
    requires forall c :: c in pre ==> !IsDigit(c)
    requires |m| >= 1 && IsDecimal(m) && |sec| >= 1 && IsDecimal(sec)
    ensures FindTime(pre + m + " minutes " + sec + " seconds" + post, 0)
            == Some(Duration(DecimalValue(m), DecimalValue(sec)))
  {
    var s := pre + m + " minutes " + sec + " seconds" + post;
    assert forall k :: 0 <= k < |pre| ==> s[k] == pre[k] && pre[k] in pre;
    PhraseDigits(pre, m, sec, post);
    PhraseWords(pre, m, sec, post);
    TimePhraseAt(s, |pre|, |pre| + |m|, |pre| + |m| + 9 + |sec|, m, sec);
  }

  /** A transcript `exercise "NAME" for M minutes S seconds` parses to NAME
      with that duration, for any NAME a quoted name can be that holds no
      digit. */
  lemma ParseNameAndDuration(name: string, m: string, sec: string)
    requires |name| >= 1 && forall c :: c in name ==> c != '\n' && !IsQuote(c) && !IsDigit(c)
    requires |m| >= 1 && IsDecimal(m) && |sec| >= 1 && IsDecimal(sec)
    ensures ParseVoiceCommand("exercise \"" + name + "\" for " + m + " minutes " + sec + " seconds")
            == Some(VoiceCommand(name, Some(Duration(DecimalValue(m), DecimalValue(sec)))))
  {
    var s := "exercise \"" + name + "\" for " + m + " minutes " + sec + " seconds";
    CommandName(name, m, sec);
    CommandTime(name, m, sec);
    ParseCombines(s, name, Some(Duration(DecimalValue(m), DecimalValue(sec))));
  }

  lemma CommandName(name: string, m: string, sec: string)
    requires |name| >= 1 && forall c :: c in name ==> c != '\n' && !IsQuote(c)
    ensures FindExerciseName("exercise \"" + name + "\" for " + m + " minutes " + sec + " seconds", 0) == Some(name)
  {
    var s := "exercise \"" + name + "\" for " + m + " minutes " + sec + " seconds";
    assert s[0..10] == "exercise \"" && s[10..10 + |name|] == name && s[10 + |name|] == '"';
    QuotedNameAt(s, name);
  }

  lemma CommandTime(name: string, m: string, sec: string)
    requires forall c :: c in name ==> !IsDigit(c)
    requires |m| >= 1 && IsDecimal(m) && |sec| >= 1 && IsDecimal(sec)
    ensures FindTime("exercise \"" + name + "\" for " + m + " minutes " + sec + " seconds", 0)
            == Some(Duration(DecimalValue(m), DecimalValue(sec)))
  {
    var pre := "exercise \"" + name + "\" for ";
    var s := pre + m + " minutes " + sec + " seconds";
    assert s + "" == s;
    NoDigitAround(name);
    TimePhraseFound(pre, m, sec, "");
  }

  /** `exercise "NAME" for ` holds no digit when NAME holds none. */
  lemma NoDigitAround(name: string)
    requires forall c :: c in name ==> !IsDigit(c)
    ensures forall c :: c in "exercise \"" + name + "\" for " ==> !IsDigit(c)
  {
    var pre := "exercise \"" + name + "\" for ";
    forall c | c in pre
      ensures !IsDigit(c)
    {
      var k :| 0 <= k < |pre| && pre[k] == c;
      if 10 <= k < 10 + |name| {
        assert pre[k] == name[k - 10];
      }
    }
  }

  /** A transcript `exercise "NAME"` followed by text without digits parses
      to NAME with no duration. */
  lemma ParseNameOnly(name: string, rest: string)
    requires |name| >= 1 && forall c :: c in name ==> c != '\n' && !IsQuote(c) && !IsDigit(c)
    requires forall c :: c in rest ==> !IsDigit(c)
    ensures ParseVoiceCommand("exercise \"" + name + "\"" + rest) == Some(VoiceCommand(name, None))
  {
    var s := "exercise \"" + name + "\"" + rest;
    QuotedNameFound(name, rest);
    NoDigitAfter(name, rest);
    NoDigitNoTime(s);
    ParseCombines(s, name, None);
  }

  /** `exercise "NAME"` and what follows hold no digit when neither NAME nor
      the rest holds one. */
  lemma NoDigitAfter(name: string, rest: string)
    requires forall c :: c in name ==> !IsDigit(c)
    requires forall c :: c in rest ==> !IsDigit(c)
    ensures var s := "exercise \"" + name + "\"" + rest;
            forall k :: 0 <= k < |s| ==> !IsDigit(s[k])
  {
    var s := "exercise \"" + name + "\"" + rest;
    forall k | 0 <= k < |s|
      ensures !IsDigit(s[k])
    {
      if 10 <= k < 10 + |name| {
        assert s[k] == name[k - 10] && name[k - 10] in name;
      } else if 11 + |name| <= k {
        assert s[k] == rest[k - 11 - |name|] && rest[k - 11 - |name|] in rest;
      }
    }
  }

  /** `exercise "Push Up" for 2 minutes 30 seconds`. */
  lemma ParseFullCommandExample()
    ensures ParseVoiceCommand("exercise \"Push Up\" for 2 minutes 30 seconds")
            == Some(VoiceCommand("Push Up", Some(Duration(2, 30))))
  {
    PushUpPieces();
    ParseNameAndDuration("Push Up", "2", "30");
  }

  lemma PushUpPieces()
    ensures "exercise \"Push Up\" for 2 minutes 30 seconds"
            == "exercise \"" + "Push Up" + "\" for " + "2" + " minutes " + "30" + " seconds"
    ensures IsDecimal("2") && DecimalValue("2") == 2
    ensures IsDecimal("30") && DecimalValue("30") == 30
  {
    assert "30"[..1] == "3";
  }

  /** `exercise "Squats"`: a name and no duration. */
  lemma ParseNameOnlyExample()
    ensures ParseVoiceCommand("exercise \"Squats\"") == Some(VoiceCommand("Squats", None))
  {
    assert "exercise \"Squats\"" == "exercise \"" + "Squats" + "\"" + "";
    ParseNameOnly("Squats", "");
  }

  /** No quoted name: `do some exercise` does not parse. */
  lemma ParseUnquotedExample()
    ensures ParseVoiceCommand("do some exercise") == None
  {
    NoQuoteNoCommand("do some exercise");
  }
}
