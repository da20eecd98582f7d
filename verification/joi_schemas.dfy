/**
 * The registration schema: four required string fields, each with its own rule.
 * A string field rejects a missing value first, then the empty string, then its rules
 * in the order they are declared; fields are checked in declaration order and the
 * first failure is the one reported.
 */
module Schemas {
  import opened Wrappers

  predicate IsAsciiLetter(c: char) { 'a' <= c <= 'z' || 'A' <= c <= 'Z' }
  predicate IsAsciiDigit(c: char) { '0' <= c <= '9' }
  predicate IsAlphanumeric(c: char) { IsAsciiLetter(c) || IsAsciiDigit(c) }
  predicate IsNameChar(c: char) { IsAlphanumeric(c) || c == ' ' }

  /** A character outside the Basic Multilingual Plane, which UTF-16 stores as a surrogate pair. */
  predicate IsAstral(c: char) { c >= '\U{10000}' }

  /**
   * A string's JavaScript `length`, which is what Joi's `min` compares: one UTF-16 code
   * unit for each character of the Basic Multilingual Plane, two for each one above it.
   */
  function Utf16Length(s: string): (n: nat)
    ensures |s| <= n <= 2 * |s|
    ensures n == |s| <==> forall i :: 0 <= i < |s| ==> !IsAstral(s[i])
  {
    if s == [] then 0
    else
      assert forall i :: 0 < i < |s| ==> s[i] == s[1..][i - 1];
      (if IsAstral(s[0]) then 2 else 1) + Utf16Length(s[1..])
  }

  /** The pattern `^[cls]+$`, matched one character at a time. */
  function MatchesOneOrMore(s: string, cls: char -> bool): (b: bool)
    ensures b <==> |s| > 0 && forall i :: 0 <= i < |s| ==> cls(s[i])
  {
    if |s| == 0 then false
    else
      assert forall i :: 0 < i < |s| ==> s[i] == s[1..][i - 1];
      cls(s[0]) && (|s| == 1 || MatchesOneOrMore(s[1..], cls))
  }

  /** The pieces of `s` between occurrences of `sep`; there is always at least one. */
  function Split(s: string, sep: char): (parts: seq<string>)
    ensures |parts| >= 1
    ensures forall i :: 0 <= i < |parts| ==> sep !in parts[i]
  {
    if s == [] then [[]]
    else
      var rest := Split(s[1..], sep);
      if s[0] == sep then
        [[]] + rest
      else
        var parts := [[s[0]] + rest[0]] + rest[1..];
        assert forall i :: 1 <= i < |parts| ==> parts[i] == rest[i];
        parts
  }

  /** Joining the pieces of a split with the separator gives back the string. */
  lemma {:induction false} JoinSplit(s: string, sep: char)
    ensures Join(Split(s, sep), sep) == s
  {
    if s != [] {
      JoinSplit(s[1..], sep);
      var rest := Split(s[1..], sep);
      assert s == [s[0]] + s[1..];
      if s[0] == sep {
        assert ([[]] + rest)[1..] == rest;
      } else {
        var parts := [[s[0]] + rest[0]] + rest[1..];
        assert parts[1..] == rest[1..];
        if |rest| > 1 {
          assert Join(rest, sep) == rest[0] + [sep] + Join(rest[1..], sep);
        }
      }
    }
  }

  /** The pieces glued back together with `sep` between neighbours. */
  function Join(parts: seq<string>, sep: char): string
    requires |parts| >= 1
  {
    if |parts| == 1 then parts[0] else parts[0] + [sep] + Join(parts[1..], sep)
  }

  /** Splitting a string of pieces joined by a separator none of them contains gives back the pieces. */
  lemma {:induction false} SplitJoin(parts: seq<string>, sep: char)
    requires |parts| >= 1
    requires forall i :: 0 <= i < |parts| ==> sep !in parts[i]
    ensures Split(Join(parts, sep), sep) == parts
  {
    if |parts| == 1 {
      SplitWithoutSeparator(parts[0], sep);
    } else {
      SplitJoin(parts[1..], sep);
      SplitConcat(parts[0], Join(parts[1..], sep), sep);
      SplitWithoutSeparator(parts[0], sep);
      assert parts == [parts[0]] + parts[1..];
    }
  }

  lemma {:induction false} SplitWithoutSeparator(s: string, sep: char)
    requires sep !in s
    ensures Split(s, sep) == [s]
  {
    if s != [] {
      SplitWithoutSeparator(s[1..], sep);
      assert s == [s[0]] + s[1..];
    }
  }

  /** A join of two or more pieces ends with the separator and the last piece. */
  lemma {:induction false} JoinEndsWithLast(parts: seq<string>, sep: char)
    requires |parts| >= 2
    ensures Join(parts, sep) == Join(parts[..|parts| - 1], sep) + [sep] + parts[|parts| - 1]
  {
    if |parts| > 2 {
      JoinEndsWithLast(parts[1..], sep);
      assert parts[1..][..|parts[1..]| - 1] == parts[..|parts| - 1][1..];
    }
  }

  /** The top-level domains the email rule allows. */
  const AllowedTlds: set<string> := {"com", "net", "de"}

  /** At least two non-empty dot-separated segments, the last an allowed top-level domain. */
  predicate ValidDomain(domain: string) {
    var labels := Split(domain, '.');
    |labels| >= 2 && (forall i :: 0 <= i < |labels| ==> labels[i] != []) &&
    labels[|labels| - 1] in AllowedTlds
  }

  /** A non-empty local part, exactly one '@', and a valid domain. */
  predicate ValidEmail(s: string) {
    var parts := Split(s, '@');
    |parts| == 2 && parts[0] != [] && ValidDomain(parts[1])
  }

  /** An accepted email is local@host.tld with one '@' and an allowed top-level domain. */
  lemma ValidEmailShape(s: string)
    requires ValidEmail(s)
    ensures exists local, host, tld :: local != [] && '@' !in local && host != [] && '@' !in host &&
                                       tld in AllowedTlds &&
                                       s == local + "@" + host + "." + tld
  {
    var parts := Split(s, '@');
    var labels := Split(parts[1], '.');
    JoinSplit(s, '@');
    JoinSplit(parts[1], '.');
    JoinEndsWithLast(labels, '.');
    var host := Join(labels[..|labels| - 1], '.');
    assert host != [] by {
      assert labels[0] != [];
      if |labels| > 2 {
        assert host == labels[0] + "." + Join(labels[1..|labels| - 1], '.');
      }
    }
    assert Join(parts[1..], '@') == parts[1];
    assert s == parts[0] + "@" + parts[1];
    assert parts[1] == host + "." + labels[|labels| - 1];
    var local, tld := parts[0], labels[|labels| - 1];
    assert '@' !in local && tld in AllowedTlds;
    assert '@' !in parts[1];
    assert forall c :: c in host ==> c in parts[1];
    assert s == local + "@" + host + "." + tld;
  }

  datatype Field = NameField | EmailField | UsernameField | PasswordField {
    function Label(): string {
      match this
      case NameField => "name"
      case EmailField => "email"
      case UsernameField => "username"
      case PasswordField => "password"
    }
  }

  /** The request body as the schema receives it: each field present or missing. */
  datatype UserInput = UserInput(name: Option<string>, email: Option<string>, username: Option<string>, password: Option<string>)

  /** The validated value. */
  datatype ValidUser = ValidUser(name: string, email: string, username: string, password: string)

  /** The first rule a field breaks. */
  datatype Violation =
    | Required(field: Field)
    | Empty(field: Field)
    | PatternMismatch(value: string)
    | NotAnEmail
    | NotAlphanumeric
    | TooShort(field: Field)
    | TooLong

  /** What each field's rule accepts, stated without regard to the order the checks run in. */
  predicate Accepts(field: Field, s: string) {
    match field
    case NameField => |s| > 0 && forall i :: 0 <= i < |s| ==> IsNameChar(s[i])
    case EmailField => ValidEmail(s)
    case UsernameField => 3 <= |s| <= 30 && forall i :: 0 <= i < |s| ==> IsAlphanumeric(s[i])
    case PasswordField => Utf16Length(s) >= 5
  }

  /** The rules of a non-empty field, in declaration order. */
  function RuleViolation(field: Field, s: string): Option<Violation> {
    match field
    case NameField => if MatchesOneOrMore(s, IsNameChar) then None else Some(PatternMismatch(s))
    case EmailField => if ValidEmail(s) then None else Some(NotAnEmail)
    case UsernameField =>
      if !MatchesOneOrMore(s, IsAlphanumeric) then Some(NotAlphanumeric)
      else if |s| < 3 then Some(TooShort(UsernameField))
      else if |s| > 30 then Some(TooLong)
      else None
    case PasswordField => if Utf16Length(s) < 5 then Some(TooShort(PasswordField)) else None
  }

  /** One required string field: missing, then empty, then its rules. */
  function CheckField(field: Field, v: Option<string>): (r: Option<Violation>)
    ensures r.None? <==> v.Some? && Accepts(field, v.value)
    ensures v.None? ==> r == Some(Required(field))
    ensures v == Some([]) ==> r == Some(Empty(field))
  {
    match v
    case None => Some(Required(field))
    case Some(s) =>
      if s == [] then
        assert !ValidEmail(s);
        Some(Empty(field))
      else RuleViolation(field, s)
  }

  /** userSchema.validate: the validated value, or the first violation in field order. */
  function Validate(input: UserInput): (r: Result<ValidUser, Violation>)
    ensures r.Ok? <==> && input.name.Some? && Accepts(NameField, input.name.value)
                       && input.email.Some? && Accepts(EmailField, input.email.value)
                       && input.username.Some? && Accepts(UsernameField, input.username.value)
                       && input.password.Some? && Accepts(PasswordField, input.password.value)
    ensures r.Ok? ==> r.value == ValidUser(input.name.value, input.email.value, input.username.value, input.password.value)
    ensures CheckField(NameField, input.name).Some? ==> r == Err(CheckField(NameField, input.name).value)
    ensures CheckField(NameField, input.name).None? && CheckField(EmailField, input.email).Some? ==>
              r == Err(CheckField(EmailField, input.email).value)
    ensures CheckField(NameField, input.name).None? && CheckField(EmailField, input.email).None? &&
            CheckField(UsernameField, input.username).Some? ==>
              r == Err(CheckField(UsernameField, input.username).value)
    ensures CheckField(NameField, input.name).None? && CheckField(EmailField, input.email).None? &&
            CheckField(UsernameField, input.username).None? && CheckField(PasswordField, input.password).Some? ==>
              r == Err(CheckField(PasswordField, input.password).value)
  {
    var name := CheckField(NameField, input.name);
    var email := CheckField(EmailField, input.email);
    var username := CheckField(UsernameField, input.username);
    var password := CheckField(PasswordField, input.password);
    if name.Some? then Err(name.value)
    else if email.Some? then Err(email.value)
    else if username.Some? then Err(username.value)
    else if password.Some? then Err(password.value)
    else Ok(ValidUser(input.name.value, input.email.value, input.username.value, input.password.value))
  }

  /** A missing field, or an empty string in any field, is rejected. */
  lemma MissingOrEmptyFieldRejected(input: UserInput, field: Field)
    requires var v := match field
                      case NameField => input.name
                      case EmailField => input.email
                      case UsernameField => input.username
                      case PasswordField => input.password;
             v == None || v == Some([])
    ensures Validate(input).Err?
  {
  }

  /** A password of three characters outside the Basic Multilingual Plane is six code units long, so the length rule accepts it. */
  lemma AstralPasswordMeetsMinimum()
    ensures var p := "\U{1F600}\U{1F600}\U{1F600}"; |p| == 3 && Utf16Length(p) == 6 && Accepts(PasswordField, p)
  {
  }

  /** Splitting at one separator splits the two sides independently. */
  lemma {:induction false} SplitConcat(a: string, b: string, sep: char)
    ensures Split(a + [sep] + b, sep) == Split(a, sep) + Split(b, sep)
  {
    var s := a + [sep] + b;
    if a == [] {
      assert s[0] == sep && s[1..] == b;
      SplitFirst(s, sep);
    } else {
      var t := a[1..] + [sep] + b;
      assert s[0] == a[0] && s[1..] == t;
      var ra, rb := Split(a[1..], sep), Split(b, sep);
      if a[0] == sep {
        calc {
          Split(s, sep);
        == { SplitFirst(s, sep); }
          [[]] + Split(t, sep);
        == { SplitConcat(a[1..], b, sep); }
          [[]] + (ra + rb);
        == { SplitFirst(a, sep); }
          Split(a, sep) + rb;
        }
      } else {
        calc {
          Split(s, sep);
        == { SplitFirst(s, sep); }
          [[a[0]] + Split(t, sep)[0]] + Split(t, sep)[1..];
        == { SplitConcat(a[1..], b, sep); }
          [[a[0]] + (ra + rb)[0]] + (ra + rb)[1..];
        == { assert (ra + rb)[0] == ra[0] && (ra + rb)[1..] == ra[1..] + rb; }
          [[a[0]] + ra[0]] + (ra[1..] + rb);
        == { SplitFirst(a, sep); }
          Split(a, sep) + rb;
        }
      }
    }
  }

  /** One step of Split: the first character either closes an empty first piece or joins the first piece. */
  lemma SplitFirst(s: string, sep: char)
    requires s != []
    ensures var rest := Split(s[1..], sep);
            Split(s, sep) == if s[0] == sep then [[]] + rest else [[s[0]] + rest[0]] + rest[1..]
  {
  }

  /**
   * For an address local@host.tld whose local part holds no '@' and whose host is made of
   * non-empty dot-separated segments, the email rule accepts it exactly when tld is allowed.
   */
  lemma EmailAcceptedIffAllowedTld(local: string, host: string, tld: string)
    requires local != [] && '@' !in local && '@' !in host && '@' !in tld && '.' !in tld
    requires forall i :: 0 <= i < |Split(host, '.')| ==> Split(host, '.')[i] != []
    requires tld != []
    ensures ValidEmail(local + "@" + host + "." + tld) <==> tld in AllowedTlds
  {
    var s := local + "@" + host + "." + tld;
    var domain := host + "." + tld;
    assert '@' !in domain;
    assert s == local + ['@'] + domain;
    assert Split(s, '@') == [local, domain] by {
      SplitConcat(local, domain, '@');
      SplitWithoutSeparator(local, '@');
      SplitWithoutSeparator(domain, '@');
    }
    var hosts := Split(host, '.');
    var labels := Split(domain, '.');
    assert labels == hosts + [tld] by {
      assert domain == host + ['.'] + tld;
      SplitConcat(host, tld, '.');
      SplitWithoutSeparator(tld, '.');
    }
    assert forall i :: 0 <= i < |labels| ==> labels[i] != [] by {
      forall i | 0 <= i < |labels| ensures labels[i] != [] {
        if i < |hosts| { assert labels[i] == hosts[i]; }
      }
    }
    assert |labels| >= 2 && labels[|labels| - 1] == tld;
    assert ValidDomain(domain) <==> tld in AllowedTlds;
    assert ValidEmail(s) <==> ValidDomain(domain);
  }

  /** The message the schema reports for a violation. */
  function Message(v: Violation): (m: string)
    ensures m != []
  {
    match v
    case Required(f) => "\"" + f.Label() + "\" is required"
    case Empty(f) => "\"" + f.Label() + "\" is not allowed to be empty"
    case PatternMismatch(s) => "\"name\" with value \"" + s + "\" fails to match the required pattern: /^[a-zA-Z0-9 ]+$/"
    case NotAnEmail => "\"email\" must be a valid email"
    case NotAlphanumeric => "\"username\" must only contain alpha-numeric characters"
    case TooShort(f) =>
      if f == PasswordField then "\"password\" length must be at least 5 characters long"
      else "\"" + f.Label() + "\" length must be at least 3 characters long"
    case TooLong => "\"username\" length must be less than or equal to 30 characters long"
  }
}
