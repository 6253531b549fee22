/**
  The infix assertion wrapper: `"kotlin" should start with "kot"` wraps the
  string in a `StartWrapper`, whose `with` and `endsWith` either return
  normally or throw an `AssertionError` naming the value and the expected
  prefix or suffix.
 */
module Should {

  /** A string wrapped for checking. */
  datatype StartWrapper = StartWrapper(value: string)

  /** How a check ends: normally, or with an `AssertionError` carrying `message`. */
  datatype Outcome = Pass | Fail(message: string)

  /** `String.should()`, and equally `String.should(start)`: wrap the string. */
  function ShouldOf(value: string): StartWrapper
  {
    StartWrapper(value)
  }

  /** `String.startsWith(prefix)`: the characters of `prefix` match the start of `value`, one by one. */
  function HasPrefix(value: string, prefix: string): (b: bool)
    ensures b <==> prefix <= value
  {
    if |prefix| == 0 then true
    else |value| > 0 && value[0] == prefix[0] && HasPrefix(value[1..], prefix[1..])
  }

  /** `String.endsWith(suffix)`: `value` starts with `suffix` at offset `|value| - |suffix|`,
      which is false when that offset is negative. */
  function HasSuffix(value: string, suffix: string): (b: bool)
    ensures b <==> |suffix| <= |value| && value[|value| - |suffix|..] == suffix
  {
    var offset := |value| - |suffix|;
    offset >= 0 && HasPrefix(value[offset..], suffix)
  }

  /** `with(prefix)`: fails exactly when the wrapped value does not start with `prefix`. */
  function With(w: StartWrapper, prefix: string): (r: Outcome)
    ensures r.Pass? <==> prefix <= w.value
    ensures r.Fail? ==> r.message == w.value + " does not start with " + prefix + " !"
  {
    if !HasPrefix(w.value, prefix) then Fail(w.value + " does not start with " + prefix + " !")
    else Pass
  }

  /** `endsWith(suffix)`: fails exactly when the wrapped value does not end with `suffix`. */
  function EndsWith(w: StartWrapper, suffix: string): (r: Outcome)
    ensures r.Pass? <==> |suffix| <= |w.value| && w.value[|w.value| - |suffix|..] == suffix
    ensures r.Fail? ==> r.message == w.value + " does not ends with " + suffix + " !"
  {
    if !HasSuffix(w.value, suffix) then Fail(w.value + " does not ends with " + suffix + " !")
    else Pass
  }

  /** `with(prefix)` passes exactly when the value is `prefix` followed by something. */
  lemma WithPassesIffPrefixed(value: string, prefix: string)
    ensures With(ShouldOf(value), prefix) == Pass <==> exists rest :: prefix + rest == value
  {
    if prefix <= value {
      var rest := value[|prefix|..];
      assert prefix + rest == value;
    }
  }

  /** `endsWith(suffix)` passes exactly when the value is something followed by `suffix`. */
  lemma EndsWithPassesIffSuffixed(value: string, suffix: string)
    ensures EndsWith(ShouldOf(value), suffix) == Pass <==> exists front :: front + suffix == value
  {
    if EndsWith(ShouldOf(value), suffix) == Pass {
      var front := value[..|value| - |suffix|];
      assert front + suffix == value;
    }
    if exists front :: front + suffix == value {
      var front :| front + suffix == value;
      assert value[|value| - |suffix|..] == suffix;
    }
  }

  /** Every string passes `with` its own prefixes and `endsWith` its own suffixes. */
  lemma SplitPassesBoth(front: string, back: string)
    ensures With(ShouldOf(front + back), front) == Pass
    ensures EndsWith(ShouldOf(front + back), back) == Pass
  {
  }

  /** The checks the infix test makes: two pass and the last one fails. */
  lemma KotlinChecks()
    ensures With(ShouldOf("kotlin"), "kot") == Pass
    ensures EndsWith(ShouldOf("kotlin"), "in") == Pass
    ensures EndsWith(ShouldOf("kotlin"), "kot") == Fail("kotlin does not ends with kot !")
  {
    KotlinStartsWithKot();
    KotlinEndsWithIn();
    KotlinDoesNotEndWithKot();
  }

  lemma KotlinStartsWithKot()
    ensures With(ShouldOf("kotlin"), "kot") == Pass
  {
    assert "kotlin" == "kot" + "lin";
  }

  lemma KotlinEndsWithIn()
    ensures EndsWith(ShouldOf("kotlin"), "in") == Pass
  {
    assert "kotlin"[4..] == "in";
  }

  lemma KotlinDoesNotEndWithKot()
    ensures EndsWith(ShouldOf("kotlin"), "kot") == Fail("kotlin does not ends with kot !")
  {
    assert "kotlin"[3..][0] == 'l';
    assert "kotlin" + " does not ends with " + "kot" + " !" == "kotlin does not ends with kot !";
  }
}
