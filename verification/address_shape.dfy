/**
  The loose e-mail shape check of the mail relay: the regular expression
  /^[^\s@]+@[^\s@]+\.[^\s@]+$/ used both for the sender identity and for
  every recipient.

  `MatchesPattern` is the language of the regular expression, written as a
  split of the string into its three `[^\s@]+` runs. `IsEmailShape` is the
  closed-form test the rest of the model calls; `IsEmailShapeMatchesPattern`
  proves the two agree on every string.
*/
module AddressShape {

  /** The ECMAScript WhiteSpace and LineTerminator code points: the class
      matched by `\s` and the set that `String.prototype.trim` strips. */
  predicate IsSpace(c: char) {
    || c == '\t' || c == '\n' || c == '\U{000B}' || c == '\U{000C}' || c == '\r'
    || c == ' ' || c == '\U{00A0}' || c == '\U{1680}'
    || ('\U{2000}' <= c <= '\U{200A}')
    || c == '\U{2028}' || c == '\U{2029}' || c == '\U{202F}' || c == '\U{205F}'
    || c == '\U{3000}' || c == '\U{FEFF}'
  }

  /** A character of the class `[^\s@]`. */
  predicate Plain(c: char) {
    !IsSpace(c) && c != '@'
  }

  ghost predicate AllPlain(s: string) {
    forall i :: 0 <= i < |s| ==> Plain(s[i])
  }

  /** The regular expression read as a language: `s` is a non-empty run of
      `[^\s@]`, an `@`, a non-empty run, a `.`, and a non-empty run. The
      middle run may itself contain dots (the `+` backtracks). */
  ghost predicate MatchesPattern(s: string) {
    exists at, dot :: IsSplit(s, at, dot)
  }

  /** Index of the first `@` in `s`, or `|s|` when there is none. */
  function FirstAt(s: string): (k: nat)
    ensures k <= |s|
    ensures k < |s| ==> s[k] == '@'
    ensures '@' !in s[..k]
  {
    if |s| == 0 then 0
    else if s[0] == '@' then 0
    else 1 + FirstAt(s[1..])
  }

  /** `d` has a `.` that is neither its first nor its last character. */
  predicate HasInnerDot(d: string) {
    |d| >= 3 && '.' in d[1..|d| - 1]
  }

  /** The closed form of the shape check: no whitespace, exactly one `@`,
      something before it, and a dot strictly inside the part after it. */
  predicate IsEmailShape(s: string) {
    var at := FirstAt(s);
    && (forall i | 0 <= i < |s| :: !IsSpace(s[i]))
    && 0 < at < |s|
    && '@' !in s[at + 1..]
    && HasInnerDot(s[at + 1..])
  }

  lemma ShapeImpliesPattern(s: string)
    requires IsEmailShape(s)
    ensures MatchesPattern(s)
  {
    var at := FirstAt(s);
    var d := s[at + 1..];
    var inner := d[1..|d| - 1];
    var j :| 0 <= j < |inner| && inner[j] == '.';
    var dot := at + 2 + j;
    assert s[dot] == '.' by { assert inner[j] == d[j + 1]; }
    var local, host, top := s[..at], s[at + 1..dot], s[dot + 1..];
    assert AllPlain(local) by {
      forall i | 0 <= i < |local| ensures Plain(local[i]) {
        assert local[i] == s[i];
        assert !IsSpace(s[i]);
      }
    }
    assert AllPlain(host) by {
      forall i | 0 <= i < |host| ensures Plain(host[i]) {
        assert host[i] == s[at + 1 + i] == d[i];
        assert !IsSpace(s[at + 1 + i]);
      }
    }
    assert AllPlain(top) by {
      forall i | 0 <= i < |top| ensures Plain(top[i]) {
        assert top[i] == s[dot + 1 + i] == d[dot - at + i];
        assert !IsSpace(s[dot + 1 + i]);
      }
    }
    assert IsSplit(s, at, dot);
  }

  /** The three runs, the `@` at `at` and the `.` at `dot` of a match. */
  ghost predicate IsSplit(s: string, at: int, dot: int) {
    && 0 < at && at + 1 < dot && dot + 1 < |s|
    && s[at] == '@' && s[dot] == '.'
    && AllPlain(s[..at]) && AllPlain(s[at + 1..dot]) && AllPlain(s[dot + 1..])
  }

  /** Outside the `@` and the `.` a matching string holds only `[^\s@]`. */
  lemma PlainOutsideMarks(s: string, at: int, dot: int, i: int)
    requires IsSplit(s, at, dot)
    requires 0 <= i < |s| && i != at && i != dot
    ensures Plain(s[i])
  {
    if i < at {
      assert s[..at][i] == s[i];
    } else if i < dot {
      assert s[at + 1..dot][i - at - 1] == s[i];
    } else {
      assert s[dot + 1..][i - dot - 1] == s[i];
    }
  }

  lemma SplitHasNoSpace(s: string, at: int, dot: int)
    requires IsSplit(s, at, dot)
    ensures forall i | 0 <= i < |s| :: !IsSpace(s[i])
  {
    forall i | 0 <= i < |s| ensures !IsSpace(s[i]) {
      if i != at && i != dot {
        PlainOutsideMarks(s, at, dot, i);
      }
    }
  }

  lemma SplitHasOneAt(s: string, at: int, dot: int)
    requires IsSplit(s, at, dot)
    ensures FirstAt(s) == at
    ensures '@' !in s[at + 1..]
  {
    var k := FirstAt(s);
    if k < at {
      PlainOutsideMarks(s, at, dot, k);
    }
    var d := s[at + 1..];
    forall i | 0 <= i < |d| ensures d[i] != '@' {
      assert d[i] == s[at + 1 + i];
      if at + 1 + i != dot {
        PlainOutsideMarks(s, at, dot, at + 1 + i);
      }
    }
  }

  lemma SplitHasInnerDot(s: string, at: int, dot: int)
    requires IsSplit(s, at, dot)
    ensures HasInnerDot(s[at + 1..])
  {
    var d := s[at + 1..];
    var inner := d[1..|d| - 1];
    assert inner[dot - at - 2] == d[dot - at - 1] == s[dot];
  }

  lemma PatternImpliesShape(s: string)
    requires MatchesPattern(s)
    ensures IsEmailShape(s)
  {
    var at, dot :| IsSplit(s, at, dot);
    SplitHasNoSpace(s, at, dot);
    SplitHasOneAt(s, at, dot);
    SplitHasInnerDot(s, at, dot);
  }

  /** The closed form accepts exactly the strings the regular expression
      matches. */
  lemma IsEmailShapeMatchesPattern(s: string)
    ensures IsEmailShape(s) <==> MatchesPattern(s)
  {
    if IsEmailShape(s) {
      ShapeImpliesPattern(s);
    }
    if MatchesPattern(s) {
      PatternImpliesShape(s);
    }
  }
}
