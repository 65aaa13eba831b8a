/** `any_to_bool`: the web back end's lenient reading of a yes/no value. */
module TypeConversions {
  import opened Wrappers
  import opened Strings
  import opened PyValues

  const TrueWords: set<string> := {"yes", "y", "true", "t", "on", "1", "include"}
  const FalseWords: set<string> := {"no", "n", "false", "f", "off", "0", "exclude", ""}

  /** The text looked up: `str(value).strip().lower()`. */
  function BoolKey(v: Value): string
  {
    Lower(Strip(Str(v)))
  }

  /** None reads as False; otherwise the normalised text decides, and text in neither
      word set is a ValueError. */
  function AnyToBool(v: Value): (r: Result<bool>)
    ensures r == Ok(true) <==> v != PyNone && BoolKey(v) in TrueWords
    ensures r == Ok(false) <==> v == PyNone || (BoolKey(v) !in TrueWords && BoolKey(v) in FalseWords)
    ensures r.Err? ==> r.error == ValueError
  {
    if v == PyNone then Ok(false)
    else
      var key := BoolKey(v);
      if key in TrueWords then Ok(true)
      else if key in FalseWords then Ok(false)
      else Err(ValueError)
  }

  /** Python's own booleans read as themselves. */
  lemma AnyToBoolOfBool(b: bool)
    ensures AnyToBool(PyBool(b)) == Ok(b)
  {
    var text := Str(PyBool(b));
    StripUnpadded(text);
    if b {
      assert Lower(text) == "true" by {
        assert forall i :: 0 <= i < 4 ==> Lower(text)[i] == "true"[i];
      }
      assert "true" in TrueWords;
    } else {
      assert Lower(text) == "false" by {
        assert forall i :: 0 <= i < 5 ==> Lower(text)[i] == "false"[i];
      }
      assert "false" !in TrueWords && "false" in FalseWords;
    }
  }

  /** No text is in both word sets, so the order of the two lookups does not matter. */
  lemma WordSetsDisjoint()
    ensures TrueWords * FalseWords == {}
  {
  }

  /** Upper-casing a letter and lower-casing it again gives its lower case. */
  lemma LowerUpper(s: string)
    ensures Lower(Upper(s)) == Lower(s)
  {
  }

  /** Stripping does not care about case: case changes no whitespace character. */
  lemma {:induction false} StripUpper(s: string)
    ensures Strip(Upper(s)) == Upper(Strip(s))
  {
    var l := LStripChars(s, Whitespace);
    LStripUpper(s);
    RStripUpper(l);
  }

  lemma UpperCharSpace(c: char)
    ensures UpperChar(c) in Whitespace <==> c in Whitespace
  {
  }

  lemma UpperTail(s: string)
    requires s != []
    ensures Upper(s)[1..] == Upper(s[1..])
  {
  }

  lemma UpperFront(s: string)
    requires s != []
    ensures Upper(s)[..|s| - 1] == Upper(s[..|s| - 1])
  {
  }

  lemma {:induction false} LStripUpper(s: string)
    ensures LStripChars(Upper(s), Whitespace) == Upper(LStripChars(s, Whitespace))
  {
    if s != [] {
      UpperCharSpace(s[0]);
      if s[0] in Whitespace {
        LStripUpper(s[1..]);
        UpperTail(s);
      }
    }
  }

  lemma {:induction false} RStripUpper(s: string)
    ensures RStripChars(Upper(s), Whitespace) == Upper(RStripChars(s, Whitespace))
  {
    if s != [] {
      UpperCharSpace(s[|s| - 1]);
      if s[|s| - 1] in Whitespace {
        RStripUpper(s[..|s| - 1]);
        UpperFront(s);
      }
    }
  }

  /** Case does not matter: "Include", "EXCLUDE" and "Yes" read like their lower case. */
  lemma AnyToBoolIgnoresCase(s: string)
    ensures AnyToBool(PyStr(Upper(s))) == AnyToBool(PyStr(s))
  {
    StripUpper(s);
    LowerUpper(Strip(s));
  }

  /** Surrounding whitespace does not matter. */
  lemma AnyToBoolIgnoresPadding(s: string, pad: string)
    requires forall k :: 0 <= k < |pad| ==> pad[k] in Whitespace
    ensures AnyToBool(PyStr(pad + s + pad)) == AnyToBool(PyStr(Strip(s)))
  {
    StripPadded(s, pad);
    StripIdempotent(s);
    assert BoolKey(PyStr(pad + s + pad)) == BoolKey(PyStr(Strip(s))) by {
      assert Str(PyStr(pad + s + pad)) == pad + s + pad;
      assert Str(PyStr(Strip(s))) == Strip(s);
    }
    SameKeySameBool(PyStr(pad + s + pad), PyStr(Strip(s)));
  }

  /** Two values other than None that normalise alike read alike. */
  lemma SameKeySameBool(v: Value, w: Value)
    requires v != PyNone && w != PyNone && BoolKey(v) == BoolKey(w)
    ensures AnyToBool(v) == AnyToBool(w)
  {
  }

  lemma {:induction false} StripPadded(s: string, pad: string)
    requires forall k :: 0 <= k < |pad| ==> pad[k] in Whitespace
    ensures Strip(pad + s + pad) == Strip(s)
  {
    assert pad + s + pad == pad + (s + pad);
    LStripPrefix(s + pad, pad);
    LStripThenPad(s, pad);
    RStripSuffix(LStripChars(s, Whitespace), pad);
    calc {
      Strip(pad + s + pad);
      RStripChars(LStripChars(pad + (s + pad), Whitespace), Whitespace);
      RStripChars(LStripChars(s + pad, Whitespace), Whitespace);
      RStripChars(LStripChars(s, Whitespace) + pad, Whitespace);
      RStripChars(LStripChars(s, Whitespace), Whitespace);
    }
  }

  /** Leading whitespace is all dropped by a left strip. */
  lemma {:induction false} LStripPrefix(s: string, pad: string)
    requires forall k :: 0 <= k < |pad| ==> pad[k] in Whitespace
    ensures LStripChars(pad + s, Whitespace) == LStripChars(s, Whitespace)
  {
    if pad != [] {
      assert (pad + s)[0] == pad[0] && pad[0] in Whitespace;
      assert (pad + s)[1..] == pad[1..] + s;
      assert forall k :: 0 <= k < |pad[1..]| ==> pad[1..][k] == pad[k + 1];
      assert LStripChars(pad + s, Whitespace) == LStripChars((pad + s)[1..], Whitespace);
      LStripPrefix(s, pad[1..]);
    } else {
      assert pad + s == s;
    }
  }

  /** A left strip of `s + pad` is the left strip of `s` followed by `pad`, or less when
      `s` is blank. */
  lemma {:induction false} LStripThenPad(s: string, pad: string)
    requires forall k :: 0 <= k < |pad| ==> pad[k] in Whitespace
    ensures RStripChars(LStripChars(s + pad, Whitespace), Whitespace) ==
      RStripChars(LStripChars(s, Whitespace) + pad, Whitespace)
  {
    if s == [] {
      LStripPrefix([], pad);
      assert pad + [] == pad && [] + pad == pad;
      RStripSuffix([], pad);
    } else if s[0] in Whitespace {
      assert (s + pad)[1..] == s[1..] + pad;
      LStripThenPad(s[1..], pad);
    } else {
      assert LStripChars(s + pad, Whitespace) == s + pad;
    }
  }

  /** Trailing whitespace is all dropped by a right strip. */
  lemma {:induction false} RStripSuffix(s: string, pad: string)
    requires forall k :: 0 <= k < |pad| ==> pad[k] in Whitespace
    ensures RStripChars(s + pad, Whitespace) == RStripChars(s, Whitespace)
  {
    if pad != [] {
      assert (s + pad)[..|s + pad| - 1] == s + pad[..|pad| - 1];
      RStripSuffix(s, pad[..|pad| - 1]);
    } else {
      assert s + pad == s;
    }
  }
}
