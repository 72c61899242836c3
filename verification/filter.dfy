/**
 The keystroke filter of the temperature field. A candidate text is stored
 only when it is empty or matches the regular expression `^-?\d*\.?\d*$`;
 any other keystroke is dropped. The language is given three times: as the
 expression reads (`Matches`), as a property of single characters
 (`WellFormed`), and as a left-to-right scan (`Scan`); the lemmas show the
 three agree.
 */
module Filter {

  predicate IsDigit(c: char) {
    '0' <= c <= '9'
  }

  predicate AllDigits(s: string) {
    forall i :: 0 <= i < |s| ==> IsDigit(s[i])
  }

  /** `s` matches `^-?\d*\.?\d*$`: an optional minus sign, then the rest
      matches `\d*\.?\d*`. */
  predicate Matches(s: string) {
    if |s| > 0 && s[0] == '-' then MatchesUnsigned(s[1..]) else MatchesUnsigned(s)
  }

  /** `s` matches `\d*\.?\d*`: digits, then either the end or a point
      followed by digits only. */
  predicate MatchesUnsigned(s: string) {
    if |s| == 0 then true
    else if IsDigit(s[0]) then MatchesUnsigned(s[1..])
    else s[0] == '.' && AllDigits(s[1..])
  }

  /** The condition the edit handler tests before storing a candidate. */
  predicate Accepts(candidate: string) {
    candidate == "" || Matches(candidate)
  }

  /** Character-level reading of the same language: every character is a
      digit, a point, or a minus sign at index 0, and no two characters are
      points. */
  predicate WellFormed(s: string) {
    && (forall i :: 0 <= i < |s| ==> IsDigit(s[i]) || s[i] == '.' || (i == 0 && s[i] == '-'))
    && (forall i, j :: 0 <= i < j < |s| && s[i] == '.' ==> s[j] != '.')
  }

  /** `WellFormed` without the sign position. */
  predicate UnsignedWellFormed(s: string) {
    && (forall i :: 0 <= i < |s| ==> IsDigit(s[i]) || s[i] == '.')
    && (forall i, j :: 0 <= i < j < |s| && s[i] == '.' ==> s[j] != '.')
  }

  lemma {:induction false} UnsignedAgree(s: string)
    ensures MatchesUnsigned(s) <==> UnsignedWellFormed(s)
    decreases |s|
  {
    if |s| == 0 {
    } else if IsDigit(s[0]) {
      UnsignedAgree(s[1..]);
      if UnsignedWellFormed(s[1..]) {
        forall i, j | 0 <= i < j < |s| && s[i] == '.'
          ensures s[j] != '.'
        {
          assert s[i] == s[1..][i - 1];
          assert s[j] == s[1..][j - 1];
        }
      }
      if UnsignedWellFormed(s) {
        forall i, j | 0 <= i < j < |s| - 1 && s[1..][i] == '.'
          ensures s[1..][j] != '.'
        {
          assert s[1..][i] == s[i + 1];
        }
      }
    } else if s[0] == '.' {
      if UnsignedWellFormed(s) {
        forall i | 0 <= i < |s| - 1
          ensures IsDigit(s[1..][i])
        {
          assert s[1..][i] == s[i + 1];
          assert s[0] == '.';
        }
      }
    } else {
      assert !IsDigit(s[0]) && s[0] != '.';
    }
  }

  /** The expression and its character-level reading describe one language. */
  lemma MatchesIffWellFormed(s: string)
    ensures Matches(s) <==> WellFormed(s)
  {
    if |s| > 0 && s[0] == '-' {
      UnsignedAgree(s[1..]);
      if UnsignedWellFormed(s[1..]) {
        forall i, j | 0 <= i < j < |s| && s[i] == '.'
          ensures s[j] != '.'
        {
          assert s[j] == s[1..][j - 1];
          if i > 0 {
            assert s[i] == s[1..][i - 1];
          }
        }
      }
      if WellFormed(s) {
        forall i | 0 <= i < |s| - 1
          ensures IsDigit(s[1..][i]) || s[1..][i] == '.'
        {
          assert s[1..][i] == s[i + 1];
        }
        forall i, j | 0 <= i < j < |s| - 1 && s[1..][i] == '.'
          ensures s[1..][j] != '.'
        {
          assert s[1..][i] == s[i + 1];
        }
      }
    } else {
      UnsignedAgree(s);
      if WellFormed(s) && |s| > 0 {
        assert s[0] != '-';
      }
    }
  }

  /** Every prefix of a matching text matches: deleting keystrokes from the
      end of a stored text never leaves the language. */
  lemma {:induction false} PrefixClosed(s: string, n: nat)
    requires Matches(s)
    requires n <= |s|
    ensures Matches(s[..n])
  {
    MatchesIffWellFormed(s);
    MatchesIffWellFormed(s[..n]);
  }

  /** The `value === ""` test in front of the expression never changes the
      outcome: the expression already accepts the empty text. */
  lemma EmptyDisjunctRedundant(candidate: string)
    ensures Accepts(candidate) <==> Matches(candidate)
  {
  }

  /** A one-pass scan equivalent to `RegExp.test` on this expression, with
      a flag for the point already seen. */
  method Scan(s: string) returns (ok: bool)
    ensures ok <==> Matches(s)
  {
    MatchesIffWellFormed(s);
    var seenPoint := false;
    var i := 0;
    while i < |s|
      invariant 0 <= i <= |s|
      invariant WellFormed(s[..i])
      invariant seenPoint <==> exists k :: 0 <= k < i && s[k] == '.'
    {
      var c := s[i];
      if IsDigit(c) || (c == '-' && i == 0) {
      } else if c == '.' && !seenPoint {
        seenPoint := true;
      } else if c == '.' {
        var k :| 0 <= k < i && s[k] == '.';
        assert !WellFormed(s) by {
          assert s[k] == '.' && s[i] == '.';
        }
        return false;
      } else {
        assert !WellFormed(s) by {
          assert !(IsDigit(s[i]) || s[i] == '.' || (i == 0 && s[i] == '-'));
        }
        return false;
      }
      assert s[..i + 1] == s[..i] + [c];
      i := i + 1;
    }
    assert s[..i] == s;
    return true;
  }

  /** The examples the field is meant to admit and to refuse. */
  lemma Examples()
    ensures Matches("") && Matches("-") && Matches(".") && Matches("-.")
    ensures Matches("3") && Matches("3.") && Matches(".5") && Matches("0.")
    ensures Matches("3.5") && Matches("-3.5")
    ensures !Matches("3.5.2") && !Matches("abc") && !Matches("3a") && !Matches("--3")
  {
    assert "3.5.2"[1..] == ".5.2" && ".5.2"[1..] == "5.2";
    assert !IsDigit("5.2"[1]);
  }
}
