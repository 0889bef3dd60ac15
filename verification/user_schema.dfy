/** The field rules of the user schema. Each string field except `password` is
    trimmed when assigned, and its rules are checked on the trimmed value. */
module UserSchema {
  import opened Wrappers
  import opened Text
  import opened Users

  /** `^[a-zA-Z\s]+$` with length bounds 3..50, on an already trimmed value. */
  predicate NameRule(v: string) {
    && 3 <= |v| <= 50
    && forall i | 0 <= i < |v| :: IsAsciiLetter(v[i]) || IsSpace(v[i])
  }

  predicate IsUsernameChar(c: char) {
    IsAsciiLetter(c) || IsAsciiDigit(c) || c == '_'
  }

  /** `^[a-zA-Z0-9_]+$` with length bounds 3..30, on an already trimmed value. */
  predicate UsernameRule(v: string) {
    && 3 <= |v| <= 30
    && forall i | 0 <= i < |v| :: IsUsernameChar(v[i])
  }

  /** Required, at least 6 characters; `password` is not trimmed. */
  predicate PasswordRule(v: string) {
    |v| >= 6
  }

  predicate NoSpaceOrAt(s: string) {
    forall i | 0 <= i < |s| :: !IsSpace(s[i]) && s[i] != '@'
  }

  /** The email pattern `^[^\s@]+@[^\s@]+\.[^\s@]+$` read literally: three
      non-empty runs free of white space and '@', joined by '@' and '.'. */
  ghost predicate EmailPattern(v: string) {
    exists a, d | 0 < a && a + 1 < d && d + 1 < |v| ::
      && v[a] == '@' && v[d] == '.'
      && NoSpaceOrAt(v[..a]) && NoSpaceOrAt(v[a + 1..d]) && NoSpaceOrAt(v[d + 1..])
  }

  function CountOf(s: string, c: char): nat {
    if |s| == 0 then 0 else CountOf(s[..|s| - 1], c) + (if s[|s| - 1] == c then 1 else 0)
  }

  lemma {:induction false} CountOfAppend(s: string, t: string, c: char)
    ensures CountOf(s + t, c) == CountOf(s, c) + CountOf(t, c)
    decreases |t|
  {
    if |t| > 0 {
      assert (s + t)[..|s + t| - 1] == s + t[..|t| - 1];
      CountOfAppend(s, t[..|t| - 1], c);
    } else {
      assert s + t == s;
    }
  }

  lemma {:induction false} CountOfZero(s: string, c: char)
    ensures CountOf(s, c) == 0 <==> forall i | 0 <= i < |s| :: s[i] != c
    decreases |s|
  {
    if |s| > 0 {
      CountOfZero(s[..|s| - 1], c);
      assert forall i | 0 <= i < |s| - 1 :: s[..|s| - 1][i] == s[i];
    }
  }

  /** Position of the first `c` in `s`, or `|s|` when there is none. */
  function IndexOf(s: string, c: char): (k: nat)
    ensures k <= |s|
    ensures k < |s| ==> s[k] == c
    ensures forall i | 0 <= i < k :: s[i] != c
  {
    if |s| == 0 then 0
    else if s[0] == c then 0
    else 1 + IndexOf(s[1..], c)
  }

  /** The email rule stated field by field: no white space, exactly one '@', a
      non-empty local part, and a '.' in the domain that is neither its first
      nor its last character. */
  predicate EmailRule(v: string) {
    && (forall i | 0 <= i < |v| :: !IsSpace(v[i]))
    && CountOf(v, '@') == 1
    && var a := IndexOf(v, '@');
    && 0 < a < |v|
    && exists d | a + 1 < d < |v| - 1 :: v[d] == '.'
  }

  /** With an '@' at position `a`, there is exactly one '@' precisely when no
      other position holds one. */
  lemma {:induction false} SingleAt(v: string, a: int)
    requires 0 <= a < |v| && v[a] == '@'
    ensures CountOf(v, '@') == 1 <==> forall i | 0 <= i < |v| && i != a :: v[i] != '@'
  {
    var left, right := v[..a], v[a + 1..];
    assert v == left + [v[a]] + right;
    CountOfAppend(left + [v[a]], right, '@');
    CountOfAppend(left, [v[a]], '@');
    assert CountOf([v[a]], '@') == 1;
    CountOfZero(left, '@');
    CountOfZero(right, '@');
    assert forall i | 0 <= i < a :: v[i] == left[i];
    assert forall i | a < i < |v| :: v[i] == right[i - a - 1];
  }

  lemma {:induction false} EmailRuleGivesPattern(v: string)
    requires EmailRule(v)
    ensures EmailPattern(v)
  {
    var a := IndexOf(v, '@');
    var d :| a + 1 < d < |v| - 1 && v[d] == '.';
    SingleAt(v, a);
    assert forall i | 0 <= i < a :: v[..a][i] == v[i];
    var domain, top := v[a + 1..d], v[d + 1..];
    assert forall i | 0 <= i < |domain| :: domain[i] == v[a + 1 + i];
    assert forall i | 0 <= i < |top| :: top[i] == v[d + 1 + i];
    assert NoSpaceOrAt(v[..a]);
    assert NoSpaceOrAt(v[a + 1..d]);
    assert NoSpaceOrAt(v[d + 1..]);
  }

  /** The characters of a string split as the pattern splits it: no white
      space anywhere, and no '@' outside position `a`. */
  lemma PatternCharacters(v: string, a: int, d: int)
    requires 0 < a && a + 1 < d && d + 1 < |v| && v[a] == '@' && v[d] == '.'
    requires NoSpaceOrAt(v[..a]) && NoSpaceOrAt(v[a + 1..d]) && NoSpaceOrAt(v[d + 1..])
    ensures forall i | 0 <= i < |v| && i != a :: v[i] != '@'
    ensures forall i | 0 <= i < |v| :: !IsSpace(v[i])
  {
    var local, domain, top := v[..a], v[a + 1..d], v[d + 1..];
    assert forall i | 0 <= i < a :: v[i] == local[i];
    assert forall i | a + 1 <= i < d :: v[i] == domain[i - a - 1];
    assert forall i | d + 1 <= i < |v| :: v[i] == top[i - d - 1];
  }

  lemma {:induction false} EmailPatternGivesRule(v: string)
    requires EmailPattern(v)
    ensures EmailRule(v)
  {
    var a, d :| && 0 < a && a + 1 < d && d + 1 < |v|
                && v[a] == '@' && v[d] == '.'
                && NoSpaceOrAt(v[..a]) && NoSpaceOrAt(v[a + 1..d]) && NoSpaceOrAt(v[d + 1..]);
    PatternCharacters(v, a, d);
    SingleAt(v, a);
    assert IndexOf(v, '@') == a;
  }

  /** The field-by-field email rule and the literal reading of the pattern accept
      the same strings. */
  lemma EmailRuleMatchesPattern(v: string)
    ensures EmailRule(v) <==> EmailPattern(v)
  {
    if EmailRule(v) {
      EmailRuleGivesPattern(v);
    }
    if EmailPattern(v) {
      EmailPatternGivesRule(v);
    }
  }

  /** Raw-value validators: the value is trimmed, then the rule is applied. */
  predicate ValidName(raw: string) { NameRule(Trim(raw)) }
  predicate ValidUsername(raw: string) { UsernameRule(Trim(raw)) }
  predicate ValidEmail(raw: string) { EmailRule(Trim(raw)) }

  /** The default for an absent last name. */
  const DefaultLastName := "undefined"

  /** The optional last name: absent means the schema default. */
  predicate ValidLastName(raw: Option<string>) {
    match raw
    case None => NameRule(DefaultLastName)
    case Some(v) => NameRule(Trim(v))
  }

  lemma DefaultLastNameIsValid()
    ensures NameRule(DefaultLastName)
    ensures Trim(DefaultLastName) == DefaultLastName
    ensures ValidLastName(None)
  {
    var v := DefaultLastName;
    assert |v| == 9 && v[0] == 'u' && v[8] == 'd';
    assert forall i | 0 <= i < |v| :: 'a' <= v[i] <= 'z';
    TrimTrimmed(v);
  }

  /** The last name follows the first name's rule, and leaving it out is always
      allowed because the default passes that rule. */
  lemma LastNameFollowsNameRule(raw: Option<string>)
    ensures ValidLastName(raw) <==> raw.None? || ValidName(raw.value)
  {
    DefaultLastNameIsValid();
  }

  /** A stored name is the trimmed value, and the name pattern allows only
      letters and white space, so a valid stored name begins and ends with a
      letter. */
  lemma {:induction false} StoredNameEndsWithLetters(raw: string)
    requires ValidName(raw)
    ensures IsAsciiLetter(Trim(raw)[0]) && IsAsciiLetter(Trim(raw)[|Trim(raw)| - 1])
  {
    var v := Trim(raw);
    assert !IsSpace(v[0]) && !IsSpace(v[|v| - 1]);
  }

  /** The username pattern admits no white space, so the `trim: true` setter
      leaves a valid username as it is. */
  lemma UsernameRuleIsTrimStable(v: string)
    requires UsernameRule(v)
    ensures Trim(v) == v
  {
    assert !IsSpace(v[0]) && !IsSpace(v[|v| - 1]) by {
      assert IsUsernameChar(v[0]) && IsUsernameChar(v[|v| - 1]);
    }
    TrimTrimmed(v);
  }

  /** The email pattern admits no white space, so the `trim: true` setter leaves
      a valid email as it is. */
  lemma EmailRuleIsTrimStable(v: string)
    requires EmailRule(v)
    ensures Trim(v) == v
  {
    assert !IsSpace(v[0]) && !IsSpace(v[|v| - 1]);
    TrimTrimmed(v);
  }

  /** The role enumeration with its default: absent means `DEFAULT`, any other
      string than the two role names is rejected. */
  function CastRole(raw: Option<string>): (r: Option<Role>)
    ensures raw.None? ==> r == Some(Default)
    ensures raw.Some? ==> (r.Some? <==> raw.value == "DEFAULT" || raw.value == "ADMIN")
    ensures r.Some? && raw.Some? ==> RoleName(r.value) == raw.value
  {
    match raw
    case None => Some(Default)
    case Some(v) =>
      if v == RoleName(Default) then Some(Default)
      else if v == RoleName(Admin) then Some(Admin)
      else None
  }

  /** A stored user satisfies every rule of the schema. */
  predicate ValidStored(u: User) {
    && NameRule(u.name)
    && NameRule(u.lastName)
    && UsernameRule(u.username)
    && PasswordRule(u.password)
    && EmailRule(u.email)
  }

  /** No string passes both the username rule and the email rule: usernames
      exclude '@' and emails need one. */
  lemma UsernameIsNeverEmail(v: string)
    ensures !(UsernameRule(v) && EmailRule(v))
  {
    if EmailRule(v) {
      var a := IndexOf(v, '@');
      assert !IsUsernameChar(v[a]);
    }
  }

  /** The same for raw values, which are trimmed before either rule applies. */
  lemma RawUsernameIsNeverEmail(raw: string)
    ensures !(ValidUsername(raw) && ValidEmail(raw))
  {
    UsernameIsNeverEmail(Trim(raw));
  }
}
