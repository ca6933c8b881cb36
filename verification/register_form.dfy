/** The client-side check of the registration form, `validateForm` in
    `frontend/src/pages/RegisterPage.js`.  It returns the message of the
    first failing check, or nothing when the form may be submitted.
    Lengths are JavaScript `length`s (UTF-16 code units) and whitespace is
    ECMAScript whitespace.
 */
module RegisterForm {
  import opened Basics
  import opened Text

  // Messages the form shows, word for word.
  const ShortPassword: string := "Password must be at least 6 characters long"
  const ShortStudentId: string := "Student ID must be at least 4 characters long"
  const BadEmail: string := "Please enter a valid email address"
  const PasswordMismatch: string := "Passwords do not match"

  datatype Form = Form(
    studentId: string, name: string, email: string, password: string,
    confirmPassword: string, course: string, year: string)

  /** The required fields in the order they are checked, by form name. */
  function Required(f: Form): (r: seq<(string, string)>)
    ensures |r| == 6
  {
    [("student_id", f.studentId), ("name", f.name), ("email", f.email),
     ("password", f.password), ("course", f.course), ("year", f.year)]
  }

  /** A field `trim()` empties: every character is whitespace (see
      `BlankIsTrimmedEmpty`). */
  predicate Blank(value: string) {
    forall k :: 0 <= k < |value| ==> JsSpace(value[k])
  }

  /** `!value.trim()`: the field is blank exactly when trimming leaves nothing. */
  lemma BlankIsTrimmedEmpty(value: string)
    ensures Blank(value) <==> Trim(value, JsSpace) == ""
  {
    TrimEmptyIff(value, JsSpace);
  }

  /** The message for a blank field: its name with the first `_` turned
      into a space. */
  function RequiredMessage(field: string): string {
    ReplaceFirst(field, '_', ' ') + " is required"
  }

  /** The position of the first blank field among `fields[from..]`, if any. */
  function FirstBlank(fields: seq<(string, string)>, from: nat): (r: Option<nat>)
    requires from <= |fields|
    ensures r.None? <==> forall k :: from <= k < |fields| ==> !Blank(fields[k].1)
    ensures r.Some? ==>
      from <= r.value < |fields| && Blank(fields[r.value].1) &&
      forall k :: from <= k < r.value ==> !Blank(fields[k].1)
    decreases |fields| - from
  {
    if from == |fields| then None
    else if Blank(fields[from].1) then Some(from)
    else FirstBlank(fields, from + 1)
  }

  // ------------------------------------------------------------------ email

  /** A piece of an address in `/^[^\s@]+@[^\s@]+\.[^\s@]+$/`: non-empty,
      with no whitespace and no `@`. */
  predicate Part(x: string) {
    x != [] && forall k :: 0 <= k < |x| ==> !JsSpace(x[k]) && x[k] != '@'
  }

  /** The email pattern itself: `a@b.c` with three such pieces. */
  ghost predicate EmailPattern(s: string) {
    exists a: string, b: string, c: string :: s == a + "@" + b + "." + c && Part(a) && Part(b) && Part(c)
  }

  predicate NoSpace(s: string) {
    forall k :: 0 <= k < |s| ==> !JsSpace(s[k])
  }

  /** The pattern as a direct scan: no whitespace, one `@` with something
      before it, and after it a dot that is neither the first nor the last
      character. */
  predicate EmailOk(s: string) {
    && NoSpace(s)
    && '@' in s
    && var i := IndexOf(s, '@');
       var domain := s[i + 1..];
       && i >= 1
       && '@' !in domain
       && |domain| >= 3
       && '.' in domain[1..|domain| - 1]
  }

  /** A slice with no whitespace and no `@` is a piece. */
  lemma SliceIsPart(s: string, lo: nat, hi: nat)
    requires lo < hi <= |s|
    requires forall k :: lo <= k < hi ==> !JsSpace(s[k]) && s[k] != '@'
    ensures Part(s[lo..hi])
  {
    assert forall k :: 0 <= k < hi - lo ==> s[lo..hi][k] == s[lo + k];
  }

  lemma Decompose(s: string, i: nat, j: nat)
    requires i < j < |s| && s[i] == '@' && s[j] == '.'
    ensures s == s[..i] + "@" + s[i + 1..j] + "." + s[j + 1..]
  {
    assert s[i..i + 1] == "@" && s[j..j + 1] == ".";
    assert s == s[..i] + s[i..i + 1] + s[i + 1..j] + s[j..j + 1] + s[j + 1..];
  }

  lemma Witness(s: string, a: string, b: string, c: string)
    requires s == a + "@" + b + "." + c && Part(a) && Part(b) && Part(c)
    ensures EmailPattern(s)
  {
  }

  lemma EmailOkMatches(s: string)
    requires EmailOk(s)
    ensures EmailPattern(s)
  {
    var i := IndexOf(s, '@');
    var domain := s[i + 1..];
    var mid := domain[1..|domain| - 1];
    var k' :| 0 <= k' < |mid| && mid[k'] == '.';
    var j := i + 2 + k';
    assert s[j] == mid[k'];
    assert forall x :: 0 <= x < i ==> s[x] == s[..i][x];
    assert forall x :: i < x < |s| ==> s[x] == domain[x - i - 1];
    SliceIsPart(s, 0, i);
    SliceIsPart(s, i + 1, j);
    SliceIsPart(s, j + 1, |s|);
    Decompose(s, i, j);
    assert s[..i] == s[0..i] && s[j + 1..] == s[j + 1..|s|];
    Witness(s, s[0..i], s[i + 1..j], s[j + 1..|s|]);
  }

  /** The first `@` of `a + "@" + rest`, when `a` has none, ends `a`. */
  lemma FirstAt(s: string, a: string, rest: string)
    requires s == a + "@" + rest && '@' !in a
    ensures '@' in s && IndexOf(s, '@') == |a| && s[|a| + 1..] == rest
  {
    assert s[|a|] == '@';
    assert s[..|a|] == a;
  }

  lemma NoSpaceJoin(x: string, y: string)
    requires NoSpace(x) && NoSpace(y)
    ensures NoSpace(x + y)
  {
    forall k | 0 <= k < |x + y| ensures !JsSpace((x + y)[k]) {
      if k >= |x| { assert (x + y)[k] == y[k - |x|]; }
    }
  }

  /** What follows the `@` in a matching address: no `@`, and an inner dot. */
  lemma DomainOk(b: string, c: string)
    requires Part(b) && Part(c)
    ensures var domain := b + "." + c;
      '@' !in domain && |domain| >= 3 && '.' in domain[1..|domain| - 1]
  {
    var domain := b + "." + c;
    forall x | 0 <= x < |domain| ensures domain[x] != '@' {
      if x < |b| { assert domain[x] == b[x]; }
      else if x > |b| { assert domain[x] == c[x - |b| - 1]; }
    }
    assert domain[1..|domain| - 1][|b| - 1] == '.';
  }

  lemma PartsHaveNoSpace(a: string, b: string, c: string)
    requires Part(a) && Part(b) && Part(c)
    ensures NoSpace(a + "@" + b + "." + c)
  {
    assert NoSpace(a) && NoSpace(b) && NoSpace(c);
    assert NoSpace("@") && NoSpace(".");
    NoSpaceJoin(a, "@");
    NoSpaceJoin(a + "@", b);
    NoSpaceJoin(a + "@" + b, ".");
    NoSpaceJoin(a + "@" + b + ".", c);
  }

  lemma PatternIsOk(s: string, a: string, b: string, c: string)
    requires s == a + "@" + b + "." + c && Part(a) && Part(b) && Part(c)
    ensures EmailOk(s)
  {
    var domain := b + "." + c;
    assert s == a + "@" + domain;
    assert '@' !in a by {
      assert forall k :: 0 <= k < |a| ==> a[k] != '@';
    }
    FirstAt(s, a, domain);
    PartsHaveNoSpace(a, b, c);
    DomainOk(b, c);
  }

  /** The scan accepts exactly the addresses the regular expression accepts. */
  lemma EmailOkIff(s: string)
    ensures EmailOk(s) <==> EmailPattern(s)
  {
    if EmailOk(s) {
      EmailOkMatches(s);
    }
    if EmailPattern(s) {
      var a: string, b: string, c: string :| s == a + "@" + b + "." + c && Part(a) && Part(b) && Part(c);
      PatternIsOk(s, a, b, c);
    }
  }

  // --------------------------------------------------------- validateForm

  /** `validateForm`: blank required fields first (in order), then the
      email pattern, the password length, the confirmation, and the student
      id length. */
  function ValidateForm(f: Form): (r: Option<string>)
    ensures r.None? <==>
      && (forall k :: 0 <= k < 6 ==> !Blank(Required(f)[k].1))
      && EmailPattern(f.email)
      && Utf16Length(f.password) >= 6
      && f.password == f.confirmPassword
      && Utf16Length(f.studentId) >= 4
    ensures FirstBlank(Required(f), 0).Some? ==>
      r == Some(RequiredMessage(Required(f)[FirstBlank(Required(f), 0).value].0))
    ensures FirstBlank(Required(f), 0).None? && !EmailPattern(f.email) ==>
      r == Some(BadEmail)
    ensures FirstBlank(Required(f), 0).None? && EmailPattern(f.email) && Utf16Length(f.password) < 6 ==>
      r == Some(ShortPassword)
    ensures FirstBlank(Required(f), 0).None? && EmailPattern(f.email) && Utf16Length(f.password) >= 6 &&
            f.password != f.confirmPassword ==>
      r == Some(PasswordMismatch)
    ensures FirstBlank(Required(f), 0).None? && EmailPattern(f.email) && Utf16Length(f.password) >= 6 &&
            f.password == f.confirmPassword && Utf16Length(f.studentId) < 4 ==>
      r == Some(ShortStudentId)
  {
    EmailOkIff(f.email);
    var fields := Required(f);
    match FirstBlank(fields, 0)
    case Some(k) => Some(RequiredMessage(fields[k].0))
    case None =>
      if !EmailOk(f.email) then Some(BadEmail)
      else if Utf16Length(f.password) < 6 then Some(ShortPassword)
      else if f.password != f.confirmPassword then Some(PasswordMismatch)
      else if Utf16Length(f.studentId) < 4 then Some(ShortStudentId)
      else None
  }

  /** The label of the first field: `student_id` with its underscore replaced. */
  lemma StudentIdLabel()
    ensures RequiredMessage("student_id") == "student id is required"
  {
    var name := "student_id";
    assert name[7] == '_';
    assert '_' !in name[..7];
    assert IndexOf(name, '_') == 7;
    assert ReplaceFirst(name, '_', ' ') == "student id";
  }

  /** A blank student id is reported first, as "student id is required". */
  lemma BlankStudentIdFirst(f: Form)
    requires Blank(f.studentId)
    ensures ValidateForm(f) == Some("student id is required")
  {
    assert Required(f)[0] == ("student_id", f.studentId);
    assert FirstBlank(Required(f), 0) == Some(0);
    StudentIdLabel();
  }

  lemma {:induction false} Utf16AtMostUtf8(s: string)
    ensures Utf16Length(s) <= Utf8Length(s)
  {
    if s != [] {
      Utf16AtMostUtf8(s[1..]);
    }
  }

  /** The form's password rule is at least as strict as the server's: a
      password the form accepts (6 or more UTF-16 units) always has 6 or
      more UTF-8 bytes, so registration never fails on length after the form
      let it through. */
  lemma FormPasswordPassesServer(f: Form)
    requires ValidateForm(f).None?
    ensures Utf8Length(f.password) >= 6
  {
    Utf16AtMostUtf8(f.password);
  }
}
