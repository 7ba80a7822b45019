/** Failure-compatible results: a Kotlin `require` that throws IllegalArgumentException
    becomes `Err` carrying the exception's message. */
module Results {

  datatype Result<+T> = Ok(value: T) | Err(error: string) {
    predicate IsFailure() {
      Err?
    }

    function PropagateFailure<U>(): Result<U>
      requires Err?
    {
      Err(error)
    }

    function Extract(): T
      requires Ok?
    {
      value
    }
  }

  /** A Kotlin nullable value: `None` stands for `null`. */
  datatype Option<+T> = None | Some(value: T)
}

/** The string predicates the value objects validate with. */
module Text {

  /** Kotlin's `Char.isWhitespace()`: Java whitespace (tab to carriage return, the four
      information separators, the Unicode space, line and paragraph separators) together
      with the no-break spaces that `Character.isSpaceChar` adds. */
  predicate IsWhitespace(c: char) {
    var k := c as int;
    (0x09 <= k <= 0x0D) || (0x1C <= k <= 0x20) || k == 0xA0 || k == 0x1680
    || (0x2000 <= k <= 0x200A) || k == 0x2028 || k == 0x2029 || k == 0x202F
    || k == 0x205F || k == 0x3000
  }

  /** Kotlin's `isNotBlank()`: the string holds at least one non-whitespace character. */
  predicate IsNotBlank(s: string) {
    |s| > 0 && (!IsWhitespace(s[0]) || IsNotBlank(s[1..]))
  }

  /** The recursive definition agrees with "some character is not whitespace". */
  lemma {:induction false} NotBlankHasNonWhitespace(s: string)
    ensures IsNotBlank(s) <==> exists i | 0 <= i < |s| :: !IsWhitespace(s[i])
  {
    if |s| > 0 {
      NotBlankHasNonWhitespace(s[1..]);
      if IsNotBlank(s[1..]) {
        var i :| 0 <= i < |s[1..]| && !IsWhitespace(s[1..][i]);
        assert !IsWhitespace(s[i + 1]);
      }
      if exists i | 0 <= i < |s| :: !IsWhitespace(s[i]) {
        var i :| 0 <= i < |s| && !IsWhitespace(s[i]);
        if i > 0 {
          assert s[1..][i - 1] == s[i];
        }
      }
    }
  }
}
