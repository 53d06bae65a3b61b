/** The e-mail rule of the registration form: `re.match` with the pattern
    `^[\w\.-]+@[\w\.-]+\.\w+$`. The pattern's language is stated as a
    predicate with the two split points as witnesses; a left-to-right scan
    decides it, and the two are proved to agree on every string. */
module EmailRule {
  import opened Wrappers
  import Text

  /** A character of the class `[\w\.-]`. */
  predicate NameChar(c: char) {
    Text.IsWordChar(c) || c == '.' || c == '-'
  }

  predicate AllName(s: string) {
    forall k :: 0 <= k < |s| ==> NameChar(s[k])
  }

  predicate AllWord(s: string) {
    forall k :: 0 <= k < |s| ==> Text.IsWordChar(s[k])
  }

  /** `t` splits as `local @ domain . suffix` with a non-empty `local`
      and `domain` over `[\w.-]` and a non-empty `suffix` over `\w`. */
  ghost predicate InPattern(t: string) {
    exists at, dot ::
      && 0 < at && at + 1 < dot && dot + 1 < |t|
      && t[at] == '@' && t[dot] == '.'
      && AllName(t[..at]) && AllName(t[at + 1..dot]) && AllWord(t[dot + 1..])
  }

  /** `$` without MULTILINE also matches just before a final newline, so the
      whole string matches, or the string without its one final `\n` does. */
  ghost predicate Matches(s: string) {
    InPattern(s) || (|s| > 0 && s[|s| - 1] == '\n' && InPattern(s[..|s| - 1]))
  }

  /** The scan: the first `@` ends the local part, the last `.` after it
      starts the suffix. */
  predicate ScanBody(t: string) {
    match FirstIndex(t, c => c == '@')
    case None => false
    case Some(at) =>
      var rest := t[at + 1..];
      var dot := Text.RFind(rest, '.');
      && 0 < at
      && AllName(t[..at])
      && AllName(rest)
      && 0 < dot && dot + 1 < |rest|
      && AllWord(rest[dot + 1..])
  }

  predicate Scan(s: string) {
    if |s| > 0 && s[|s| - 1] == '\n' then ScanBody(s[..|s| - 1]) else ScanBody(s)
  }

  lemma ScanBodyIsPatternForward(t: string)
    requires ScanBody(t)
    ensures InPattern(t)
  {
    var at := FirstIndex(t, c => c == '@').value;
    var rest := t[at + 1..];
    var dot := Text.RFind(rest, '.');
    assert t[at + 1..at + 1 + dot] == rest[..dot];
    assert t[at + 1 + dot + 1..] == rest[dot + 1..];
    assert t[at + 1 + dot] == rest[dot];
  }

  /** An `@` with only name characters before it is the first `@`. */
  lemma FirstAt(t: string, at: int)
    requires 0 <= at < |t| && t[at] == '@' && AllName(t[..at])
    ensures FirstIndex(t, c => c == '@') == Some(at)
  {
    assert forall k :: 0 <= k < at ==> t[..at][k] == t[k];
  }

  /** A `.` with only word characters after it is the last `.`. */
  lemma LastDot(rest: string, d: int)
    requires 0 <= d < |rest| && rest[d] == '.' && AllWord(rest[d + 1..])
    ensures Text.RFind(rest, '.') == d
  {
    assert forall k :: d < k < |rest| ==> rest[k] == rest[d + 1..][k - d - 1];
  }

  /** A domain, a `.` and a suffix together are name characters. */
  lemma DomainIsName(domain: string, suffix: string)
    requires AllName(domain) && AllWord(suffix)
    ensures AllName(domain + ['.'] + suffix)
  {
    var s := domain + ['.'] + suffix;
    forall k | 0 <= k < |s| ensures NameChar(s[k]) {
      if k < |domain| {
        assert s[k] == domain[k];
      } else if k > |domain| {
        assert s[k] == suffix[k - |domain| - 1];
      }
    }
  }

  lemma ScanBodyIsPatternBackward(t: string, at: int, dot: int)
    requires 0 < at && at + 1 < dot && dot + 1 < |t|
    requires t[at] == '@' && t[dot] == '.'
    requires AllName(t[..at]) && AllName(t[at + 1..dot]) && AllWord(t[dot + 1..])
    ensures ScanBody(t)
  {
    FirstAt(t, at);
    var rest := t[at + 1..];
    var d := dot - at - 1;
    assert rest == t[at + 1..dot] + ['.'] + t[dot + 1..];
    DomainIsName(t[at + 1..dot], t[dot + 1..]);
    assert rest[d + 1..] == t[dot + 1..];
    LastDot(rest, d);
  }

  lemma ScanBodyIsPattern(t: string)
    ensures ScanBody(t) <==> InPattern(t)
  {
    if ScanBody(t) {
      ScanBodyIsPatternForward(t);
    }
    if InPattern(t) {
      var at, dot :|
        && 0 < at && at + 1 < dot && dot + 1 < |t|
        && t[at] == '@' && t[dot] == '.'
        && AllName(t[..at]) && AllName(t[at + 1..dot]) && AllWord(t[dot + 1..]);
      ScanBodyIsPatternBackward(t, at, dot);
    }
  }

  /** The scan accepts exactly the strings the pattern matches. */
  lemma ScanIsMatch(s: string)
    ensures Scan(s) <==> Matches(s)
  {
    ScanBodyIsPattern(s);
    if |s| > 0 && s[|s| - 1] == '\n' {
      ScanBodyIsPattern(s[..|s| - 1]);
    }
  }
}
