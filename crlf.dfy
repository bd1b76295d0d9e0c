/**
 * The `-fix-crlf` post-process of the command: every carriage return in a
 * converted string becomes carriage return + line feed, as
 * `strings.ReplaceAll(str, "\r", "\r\n")` does.
 */
module CrLf {

  /**
   * Replaces every '\r' of `str` by "\r\n", left to right. Strings are Go byte
   * strings, one character per byte, so a line feed is inserted after every
   * carriage-return byte whatever encoding the text is in.
   */
  function FixCrLf(str: string): (r: string)
    ensures |r| == |str| + CountCr(str)
  {
    if str == [] then []
    else (if str[0] == '\r' then "\r\n" else [str[0]]) + FixCrLf(str[1..])
  }

  /** The number of carriage returns in `str`. */
  function CountCr(str: string): nat
  {
    if str == [] then 0 else (if str[0] == '\r' then 1 else 0) + CountCr(str[1..])
  }

  /** The inverse of `FixCrLf`: drops the line feed that follows each carriage return. */
  function DropLfAfterCr(str: string): string
  {
    if str == [] then []
    else if |str| >= 2 && str[0] == '\r' && str[1] == '\n' then "\r" + DropLfAfterCr(str[2..])
    else [str[0]] + DropLfAfterCr(str[1..])
  }

  /** Every carriage return of `str` is immediately followed by a line feed. */
  predicate CrThenLf(str: string)
  {
    forall i :: 0 <= i < |str| && str[i] == '\r' ==> i + 1 < |str| && str[i + 1] == '\n'
  }

  /** After the fix, every carriage return is immediately followed by a line feed. */
  lemma {:induction false} FixCrLfCrThenLf(str: string)
    ensures CrThenLf(FixCrLf(str))
  {
    if str != [] {
      FixCrLfCrThenLf(str[1..]);
      var rest := FixCrLf(str[1..]);
      var r := FixCrLf(str);
      forall i | 0 <= i < |r| && r[i] == '\r' ensures i + 1 < |r| && r[i + 1] == '\n' {
        if str[0] == '\r' {
          assert r == "\r\n" + rest;
          if i >= 2 {
            var k := i - 2;
            assert rest[k] == r[i] == '\r';
            assert k + 1 < |rest| && rest[k + 1] == '\n';
            assert r[i + 1] == rest[k + 1];
          }
        } else {
          assert r == [str[0]] + rest;
          var k := i - 1;
          assert rest[k] == r[i] == '\r';
          assert k + 1 < |rest| && rest[k + 1] == '\n';
          assert r[i + 1] == rest[k + 1];
        }
      }
    }
  }

  /** Dropping the line feed after each carriage return undoes the fix. */
  lemma {:induction false} FixCrLfRoundTrip(str: string)
    ensures DropLfAfterCr(FixCrLf(str)) == str
  {
    if str != [] {
      FixCrLfRoundTrip(str[1..]);
      var rest := FixCrLf(str[1..]);
      if str[0] == '\r' {
        assert FixCrLf(str) == "\r\n" + rest;
        assert ("\r\n" + rest)[2..] == rest;
      } else {
        assert FixCrLf(str) == [str[0]] + rest;
        assert ([str[0]] + rest)[1..] == rest;
      }
      assert str == [str[0]] + str[1..];
    }
  }

  /** The fix neither adds nor removes carriage returns. */
  lemma {:induction false} FixCrLfKeepsCrCount(str: string)
    ensures CountCr(FixCrLf(str)) == CountCr(str)
  {
    if str != [] {
      FixCrLfKeepsCrCount(str[1..]);
      var rest := FixCrLf(str[1..]);
      if str[0] == '\r' {
        var r := "\r\n" + rest;
        assert r[1..] == "\n" + rest && ("\n" + rest)[1..] == rest;
      } else {
        assert ([str[0]] + rest)[1..] == rest;
      }
    }
  }

  /** A string without carriage returns is left as it is. */
  lemma {:induction false} FixCrLfWithoutCr(str: string)
    requires CountCr(str) == 0
    ensures FixCrLf(str) == str
  {
    if str != [] {
      FixCrLfWithoutCr(str[1..]);
      assert str == [str[0]] + str[1..];
    }
  }

  /**
   * The fix is not idempotent: applying it twice gives the same as once exactly
   * when the string holds no carriage return (an existing "\r\n" becomes "\r\n\n").
   */
  lemma {:induction false} FixCrLfIdempotentIff(str: string)
    ensures FixCrLf(FixCrLf(str)) == FixCrLf(str) <==> CountCr(str) == 0
  {
    FixCrLfKeepsCrCount(str);
    if CountCr(str) == 0 {
      FixCrLfWithoutCr(str);
    }
  }

  /** The concrete case: "\r\n" becomes "\r\n\n" on a second application. */
  lemma FixCrLfTwiceOnCrLf()
    ensures FixCrLf("\r\n") == "\r\n\n"
    ensures FixCrLf(FixCrLf("\r\n")) == "\r\n\n\n"
  {
  }
}
