/** The address check of the contact form, the regular expression
    `^[^\s@]+@[^\s@]+\.[^\s@]+$`. `EmailShape` says what the expression
    accepts; `MatchesEmail` is a matcher that decides it; `MatchesEmailIff`
    proves that the two agree on every string. */
module Email {
  import opened Text

  /** `[^\s@]`: any character but whitespace and '@'. */
  predicate IsAtomChar(c: char)
  {
    !IsWhitespace(c) && c != '@'
  }

  /** `[^\s@]+`: a non-empty run of atom characters. */
  predicate IsAtom(s: string)
  {
    |s| > 0 && forall i | 0 <= i < |s| :: IsAtomChar(s[i])
  }

  /** `s` is `l "@" d "." t` with three atoms. Since an atom may contain '.',
      the '.' that separates `d` from `t` may be any dot after the '@'. */
  ghost predicate SplitsAs(s: string, l: string, d: string, t: string)
  {
    s == l + "@" + d + "." + t && IsAtom(l) && IsAtom(d) && IsAtom(t)
  }

  /** The language of the regular expression (anchored at both ends). */
  ghost predicate EmailShape(s: string)
  {
    exists l, d, t :: SplitsAs(s, l, d, t)
  }

  /** The first position of `c` in `s`, or `|s|` when `c` does not occur. */
  function IndexOf(s: string, c: char): (i: nat)
    ensures i <= |s|
    ensures i < |s| ==> s[i] == c
    ensures forall k | 0 <= k < i :: s[k] != c
  {
    if s == [] || s[0] == c then 0 else 1 + IndexOf(s[1..], c)
  }

  /** `r` holds a '.' that is neither its first nor its last character. */
  predicate HasInnerDot(r: string)
  {
    exists j | 1 <= j < |r| - 1 :: r[j] == '.'
  }

  /** The matcher: cut at the first '@'; the part before it must be an atom,
      and the part after it must be an atom with an inner dot. */
  predicate MatchesEmail(s: string)
  {
    var i := IndexOf(s, '@');
    i < |s| && IsAtom(s[..i]) && IsAtom(s[i + 1..]) && HasInnerDot(s[i + 1..])
  }

  lemma AtomSlice(s: string, a: int, b: int)
    requires IsAtom(s) && 0 <= a < b <= |s|
    ensures IsAtom(s[a..b])
  {
  }

  lemma AtomJoin(d: string, t: string)
    requires IsAtom(d) && IsAtom(t)
    ensures IsAtom(d + "." + t) && HasInnerDot(d + "." + t)
  {
    var r := d + "." + t;
    assert r[|d|] == '.';
    forall i | 0 <= i < |r| ensures IsAtomChar(r[i]) {
      if i < |d| {
        assert r[i] == d[i];
      } else if i > |d| {
        assert r[i] == t[i - |d| - 1];
      }
    }
  }

  /** Every string the matcher accepts has the expression's shape. */
  lemma MatchesEmailSound(s: string)
    requires MatchesEmail(s)
    ensures EmailShape(s)
  {
    var i := IndexOf(s, '@');
    var rest := s[i + 1..];
    var j :| 1 <= j < |rest| - 1 && rest[j] == '.';
    var l, d, t := s[..i], rest[..j], rest[j + 1..];
    AtomSlice(rest, 0, j);
    AtomSlice(rest, j + 1, |rest|);
    assert rest == d + "." + t;
    assert s == l + "@" + rest;
    assert SplitsAs(s, l, d, t);
  }

  /** The matcher accepts every string of the expression's shape: the first
      '@' is the one after the local part, which holds no '@'. */
  lemma MatchesEmailComplete(s: string, l: string, d: string, t: string)
    requires SplitsAs(s, l, d, t)
    ensures MatchesEmail(s)
  {
    var rest := d + "." + t;
    assert s == l + "@" + rest;
    assert s[|l|] == '@';
    assert forall k | 0 <= k < |l| :: s[k] == l[k] && IsAtomChar(l[k]);
    var i := IndexOf(s, '@');
    assert i == |l|;
    assert s[..i] == l;
    assert s[i + 1..] == rest;
    AtomJoin(d, t);
  }

  /** The matcher accepts exactly the strings of the expression's shape. */
  lemma MatchesEmailIff(s: string)
    ensures MatchesEmail(s) <==> EmailShape(s)
  {
    if MatchesEmail(s) {
      MatchesEmailSound(s);
    }
    if EmailShape(s) {
      var l, d, t :| SplitsAs(s, l, d, t);
      MatchesEmailComplete(s, l, d, t);
    }
  }

  /** An address must contain an '@'. */
  lemma AtSignRequired(s: string)
    requires forall k | 0 <= k < |s| :: s[k] != '@'
    ensures !MatchesEmail(s)
  {
  }

  /** An address must have a dot after its first '@'. */
  lemma DotRequiredAfterAt(s: string, i: nat)
    requires i < |s| && s[i] == '@' && forall k | 0 <= k < i :: s[k] != '@'
    requires forall k | i < k < |s| :: s[k] != '.'
    ensures !MatchesEmail(s)
  {
    assert IndexOf(s, '@') == i;
    var rest := s[i + 1..];
    assert forall j | 0 <= j < |rest| :: rest[j] == s[i + 1 + j];
  }

  /** The regular expression is applied to the untrimmed value, so padding a
      well-formed address with a space makes it fail. */
  lemma PaddedAddressFails(s: string)
    ensures !EmailShape(" " + s)
    ensures !EmailShape(s + " ")
  {
    forall l, d, t ensures !SplitsAs(" " + s, l, d, t) {
      if " " + s == l + "@" + d + "." + t && l != [] {
        assert l[0] == (" " + s)[0] == ' ';
      }
    }
    forall l, d, t ensures !SplitsAs(s + " ", l, d, t) {
      var whole := s + " ";
      if whole == (l + "@" + d + ".") + t && t != [] {
        assert t[|t| - 1] == whole[|whole| - 1] == ' ';
      }
    }
  }

}
