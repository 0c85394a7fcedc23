/** The join form's three validators and the greeting taken from the name.
    The `...Pattern` predicates are the languages of the regular expressions the
    script tests, spelling out the splits a backtracking matcher may choose. The
    email and password validators are proved equal to their language; the name
    validator tests its language on the trimmed name and is characterised on the
    untrimmed one. */
module Validators {
  import opened Text

  // ---------------------------------------------------------------- name

  /** The language of /^[A-Za-z\s]{2,40}$/. */
  predicate NamePattern(t: JsString) {
    && 2 <= |t| <= 40
    && forall i | 0 <= i < |t| :: IsAsciiLetter(t[i]) || IsWS(t[i])
  }

  /** The trim only removes whitespace, so the trimmed name is in NamePattern
      exactly when its length fits and every code unit of the whole name is a
      letter or whitespace. */
  lemma NamePatternTrim(name: JsString)
    ensures NamePattern(Trim(name)) <==>
      && 2 <= |Trim(name)| <= 40
      && forall i | 0 <= i < |name| :: IsAsciiLetter(name[i]) || IsWS(name[i])
  {
    var t, lo := Trim(name), LeadingWS(name);
    if NamePattern(t) {
      forall i | 0 <= i < |name| ensures IsAsciiLetter(name[i]) || IsWS(name[i]) {
        if lo <= i < lo + |t| {
          assert name[i] == t[i - lo];
        }
      }
    }
    forall j | 0 <= j < |t| ensures t[j] == name[lo + j] {
    }
  }

  /** validateName: the regex /^[A-Za-z\s]{2,40}$/ tested on the trimmed name. A
      code unit other than a letter or whitespace is rejected wherever it stands,
      even among the whitespace the trim removes. */
  function ValidateName(name: JsString): (valid: bool)
    ensures valid <==>
      && 2 <= |Trim(name)| <= 40
      && forall i | 0 <= i < |name| :: IsAsciiLetter(name[i]) || IsWS(name[i])
  {
    NamePatternTrim(name);
    NamePattern(Trim(name))
  }

  /** For a name of letters only, validity is exactly the length bound 2..40. */
  lemma LettersOnlyName(name: JsString)
    requires forall i | 0 <= i < |name| :: IsAsciiLetter(name[i])
    ensures ValidateName(name) <==> 2 <= |name| <= 40
  {
    TrimUnchanged(name);
  }

  /** More than 40 non-whitespace code units never fit, whatever surrounds them. */
  lemma NameRejectsLong(name: JsString, lo: nat, hi: nat)
    requires lo <= hi <= |name| && hi - lo > 40
    requires !IsWS(name[lo]) && !IsWS(name[hi - 1])
    ensures !ValidateName(name)
  {
    var t, start := Trim(name), LeadingWS(name);
    assert start <= lo && hi - 1 < start + |t|;
  }

  // --------------------------------------------------------------- email

  /** The regex class `[^\s@]`. */
  predicate IsEmailChar(c: CodeUnit) {
    !IsWS(c) && c != AT
  }

  predicate AllEmailChars(s: JsString) {
    forall i | 0 <= i < |s| :: IsEmailChar(s[i])
  }

  /** `at` and `dot` split `email` into a non-empty local part, "@", a non-empty
      host, ".", and a tail of at least two code units, none of the three parts
      holding "@" or whitespace. The host and the tail may themselves contain dots. */
  ghost predicate EmailSplit(email: JsString, at: nat, dot: nat) {
    && 0 < at < dot - 1 && dot + 2 < |email|
    && email[at] == AT && email[dot] == DOT
    && AllEmailChars(email[..at])
    && AllEmailChars(email[at + 1..dot])
    && AllEmailChars(email[dot + 1..])
  }

  /** The language of /^[^\s@]+@[^\s@]+\.[^\s@]{2,}$/: some split a backtracking
      matcher can find. */
  ghost predicate EmailPattern(email: JsString) {
    exists at: nat, dot: nat :: EmailSplit(email, at, dot)
  }

  predicate NoWS(s: JsString) {
    forall i | 0 <= i < |s| :: !IsWS(s[i])
  }

  /** The domain has a "." with at least one code unit before it and two after it. */
  predicate HasDotSuffix(domain: JsString) {
    |domain| >= 4 && DOT in domain[1..|domain| - 2]
  }

  /** A left-to-right reading of the regular expression: no whitespace, exactly one
      "@" and it is not first, and the domain after it has a dotted suffix. */
  predicate ScanEmail(email: JsString) {
    && NoWS(email)
    && AT in email
    && var at := IndexOf(email, AT);
    && 0 < at
    && AT !in email[at + 1..]
    && HasDotSuffix(email[at + 1..])
  }

  /** A slice of `s` holds only `[^\s@]` when each code unit in its range does. */
  lemma EmailCharsSlice(s: JsString, lo: nat, hi: nat)
    requires lo <= hi <= |s|
    requires forall i | lo <= i < hi :: IsEmailChar(s[i])
    ensures AllEmailChars(s[lo..hi])
  {
    forall i | 0 <= i < hi - lo ensures IsEmailChar(s[lo..hi][i]) {
      assert s[lo..hi][i] == s[lo + i];
    }
  }

  /** Every address the scan accepts is matched by the regular expression. */
  lemma EmailSound(email: JsString)
    requires ScanEmail(email)
    ensures EmailPattern(email)
  {
    var at := IndexOf(email, AT);
    var domain := email[at + 1..];
    var middle := domain[1..|domain| - 2];
    var j := IndexOf(middle, DOT);
    var dot := at + 2 + j;
    assert email[dot] == middle[j];
    forall i | 0 <= i < |email| && i != at ensures IsEmailChar(email[i]) {
      assert !IsWS(email[i]);
      if at < i {
        assert email[i] == domain[i - at - 1];
      } else {
        assert email[i] in email[..at];
      }
    }
    EmailCharsSlice(email, 0, at);
    EmailCharsSlice(email, at + 1, dot);
    EmailCharsSlice(email, dot + 1, |email|);
    assert email[0..at] == email[..at];
    assert email[dot + 1..|email|] == email[dot + 1..];
    assert EmailSplit(email, at, dot);
  }

  /** Every address the regular expression matches is accepted by the scan. */
  lemma EmailComplete(email: JsString, at: nat, dot: nat)
    requires EmailSplit(email, at, dot)
    ensures ScanEmail(email)
  {
    forall i | 0 <= i < |email| ensures !IsWS(email[i]) && (i != at ==> email[i] != AT) {
      if i < at {
        assert email[i] == email[..at][i];
      } else if at < i < dot {
        assert email[i] == email[at + 1..dot][i - at - 1];
      } else if dot < i {
        assert email[i] == email[dot + 1..][i - dot - 1];
      }
    }
    assert email[..at] == email[..IndexOf(email, AT)];
    assert IndexOf(email, AT) == at;
    var domain := email[at + 1..];
    assert domain[1..|domain| - 2][dot - at - 2] == DOT;
  }

  /** The scan accepts exactly the strings the regular expression matches. */
  lemma EmailMatchesPattern(email: JsString)
    ensures ScanEmail(email) <==> EmailPattern(email)
  {
    if ScanEmail(email) {
      EmailSound(email);
    }
    if EmailPattern(email) {
      var at: nat, dot: nat :| EmailSplit(email, at, dot);
      EmailComplete(email, at, dot);
    }
  }

  /** validateEmail: the regex /^[^\s@]+@[^\s@]+\.[^\s@]{2,}$/ tested on the address. */
  function ValidateEmail(email: JsString): (valid: bool)
    ensures valid <==> EmailPattern(email)
  {
    EmailMatchesPattern(email);
    ScanEmail(email)
  }

  // ------------------------------------------------------------ password

  predicate NoLineTerminator(s: JsString) {
    forall i | 0 <= i < |s| :: !IsLineTerminator(s[i])
  }

  /** The language of /^(?=.*\d).{6,}$/: the lookahead finds a digit reachable from
      the start over non-line-terminators, then six or more code units, none of them
      a line terminator, run to the end. */
  ghost predicate PasswordPattern(pwd: JsString) {
    && (exists k :: 0 <= k < |pwd| && IsDigit(pwd[k]) && NoLineTerminator(pwd[..k]))
    && |pwd| >= 6
    && NoLineTerminator(pwd)
  }

  predicate HasDigit(s: JsString) {
    exists i | 0 <= i < |s| :: IsDigit(s[i])
  }

  /** The regular expression matches exactly the passwords of six or more code
      units with a digit among them and no line terminator. */
  lemma PasswordMatchesPattern(pwd: JsString)
    ensures PasswordPattern(pwd) <==> |pwd| >= 6 && HasDigit(pwd) && NoLineTerminator(pwd)
  {
    if |pwd| >= 6 && HasDigit(pwd) && NoLineTerminator(pwd) {
      var k :| 0 <= k < |pwd| && IsDigit(pwd[k]);
      assert NoLineTerminator(pwd[..k]) by {
        forall i | 0 <= i < k ensures !IsLineTerminator(pwd[..k][i]) {
          assert pwd[..k][i] == pwd[i];
        }
      }
    }
  }

  /** validatePassword: the regex /^(?=.*\d).{6,}$/ tested on the password. */
  function ValidatePassword(pwd: JsString): (valid: bool)
    ensures valid <==> PasswordPattern(pwd)
  {
    PasswordMatchesPattern(pwd);
    |pwd| >= 6 && HasDigit(pwd) && NoLineTerminator(pwd)
  }

  // ------------------------------------------------------------ examples

  /** The error text allows "letters and spaces only": "Al1ce" holds a digit and is
      rejected. */
  lemma NameExampleDigit()
    ensures !ValidateName(Lit("Al1ce"))
  {
    var n := Lit("Al1ce");
    assert !IsAsciiLetter(n[2]) && !IsWS(n[2]);
  }

  /** Two words of letters joined by one space pass when the whole fits in 40. */
  lemma TwoWordName(first: JsString, last: JsString)
    requires first != [] && last != [] && |first| + 1 + |last| <= 40
    requires forall i | 0 <= i < |first| :: IsAsciiLetter(first[i])
    requires forall i | 0 <= i < |last| :: IsAsciiLetter(last[i])
    ensures ValidateName(first + [SPACE] + last)
  {
    var n := first + [SPACE] + last;
    assert n[0] == first[0] && n[|n| - 1] == last[|last| - 1];
    TrimUnchanged(n);
    forall i | 0 <= i < |n| ensures IsAsciiLetter(n[i]) || IsWS(n[i]) {
      if i < |first| {
        assert n[i] == first[i];
      } else if i > |first| {
        assert n[i] == last[i - |first| - 1];
      }
    }
  }

  /** "Alice Wonderland" is accepted. */
  lemma NameExampleTwoWords()
    ensures ValidateName(Lit("Alice Wonderland"))
  {
    var first, last := Lit("Alice"), Lit("Wonderland");
    var n := first + [SPACE] + last;
    assert Lit("Alice Wonderland") == n;
    assert forall i | 0 <= i < |first| :: IsAsciiLetter(first[i]);
    assert forall i | 0 <= i < |last| :: IsAsciiLetter(last[i]);
    TwoWordName(first, last);
  }

  /** A name of 41 letters is rejected. */
  lemma NameExampleTooLong()
    ensures !ValidateName(Lit("Abcdefghijklmnopqrstuvwxyzabcdefghijklmno"))
  {
    var n := Lit("Abcdefghijklmnopqrstuvwxyzabcdefghijklmno");
    assert |n| == 41;
    NameRejectsLong(n, 0, 41);
  }

  /** "a@b.co" is in the language, split at its "@" and its ".". */
  lemma EmailExampleValid()
    ensures ValidateEmail(Lit("a@b.co"))
  {
    var e := Lit("a@b.co");
    assert e == [0x61, AT, 0x62, DOT, 0x63, 0x6F];
    assert e[..1] == [0x61] && e[2..3] == [0x62] && e[4..] == [0x63, 0x6F];
    assert EmailSplit(e, 1, 3);
  }

  /** An address without a dotted domain gets "Please enter a valid email address." */
  lemma EmailExampleNoDot()
    ensures !ValidateEmail(Lit("a@b"))
  {
    assert !ScanEmail(Lit("a@b"));
  }

  /** So does an address holding a space. */
  lemma EmailExampleSpace()
    ensures !ValidateEmail(Lit("a b@c.com"))
  {
    var f := Lit("a b@c.com");
    assert IsWS(f[1]);
    assert !ScanEmail(f);
  }

  /** The error text asks for "at least 6 chars and include a number": "abc123"
      has both, "abcdef" lacks the digit and "a1" the length. */
  lemma PasswordExamples()
    ensures ValidatePassword(Lit("abc123"))
    ensures !ValidatePassword(Lit("abcdef"))
    ensures !ValidatePassword(Lit("a1"))
  {
    var p := Lit("abc123");
    assert IsDigit(p[3]);
  }

  // ------------------------------------------------------------ greeting

  /** `t.split(' ')[0]`: the longest prefix of `t` without U+0020. */
  function FirstToken(t: JsString): (r: JsString)
    ensures |r| <= |t| && r == t[..|r|]
    ensures SPACE !in r
    ensures |r| < |t| ==> t[|r|] == SPACE
  {
    if t == [] || t[0] == SPACE then [] else [t[0]] + FirstToken(t[1..])
  }

  const FRIEND: JsString := Lit("Friend")

  /** `(nameInput && nameInput.value.trim().split(' ')[0]) || 'Friend'`, with `None`
      for a form without a name input. */
  function Username(name: Option<JsString>): (r: JsString)
    ensures r != []
    ensures name.Some? && FirstToken(Trim(name.value)) != [] ==> r == FirstToken(Trim(name.value))
    ensures name.None? || FirstToken(Trim(name.value)) == [] ==> r == FRIEND
  {
    match name
    case None => FRIEND
    case Some(v) =>
      var token := FirstToken(Trim(v));
      if token == [] then FRIEND else token
  }

  /** For a name that passes validateName the greeting is the first token itself:
      it is non-empty, starts with a letter and holds only letters and whitespace
      other than U+0020. So the 'Friend' fallback is never used for a valid name,
      and the greeting cannot carry "<" into the message's HTML. */
  lemma ValidNameGreeting(name: JsString)
    requires ValidateName(name)
    ensures Username(Some(name)) == FirstToken(Trim(name))
    ensures var g := Username(Some(name));
      && IsAsciiLetter(g[0])
      && (forall i | 0 <= i < |g| :: IsAsciiLetter(g[i]) || (IsWS(g[i]) && g[i] != SPACE))
      && LESS_THAN !in g
  {
    var t := Trim(name);
    var token := FirstToken(t);
    assert t[0] != SPACE;
    assert token != [] && token[0] == t[0];
    forall i | 0 <= i < |token| ensures IsAsciiLetter(token[i]) || (IsWS(token[i]) && token[i] != SPACE) {
      assert token[i] == t[i];
      assert token[i] in token;
    }
  }
}
