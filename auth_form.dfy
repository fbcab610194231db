/** The login / signup form: an email pattern, a password-strength rule (which
    the submit handler never applies), and the order of checks that decides
    whether a request is sent at all. */
module AuthForm {
  import opened Optional
  import opened JsString

  // ---------------------------------------------------------------------
  // The email pattern /^[a-zA-Z0-9._%+-]+@[a-zA-Z0-9.-]+\.[a-zA-Z]{2,}$/

  predicate IsLetter(c: char) { 'a' <= c <= 'z' || 'A' <= c <= 'Z' }
  predicate IsDigit(c: char) { '0' <= c <= '9' }
  predicate IsLocalChar(c: char) {
    IsLetter(c) || IsDigit(c) || c == '.' || c == '_' || c == '%' || c == '+' || c == '-'
  }
  predicate IsDomainChar(c: char) { IsLetter(c) || IsDigit(c) || c == '.' || c == '-' }

  predicate AllLocal(s: string) { forall i :: 0 <= i < |s| ==> IsLocalChar(s[i]) }
  predicate AllDomain(s: string) { forall i :: 0 <= i < |s| ==> IsDomainChar(s[i]) }
  predicate AllLetters(s: string) { forall i :: 0 <= i < |s| ==> IsLetter(s[i]) }

  /** `s` is `local@domain.tld` with the '@' at `at` and the final '.' at
      `dot`: a non-empty local part, a non-empty domain, and a top-level
      domain of two or more letters, nothing before or after. */
  predicate EmailSplit(s: string, at: int, dot: int) {
    0 < at && at + 1 < dot && dot + 3 <= |s| &&
    s[at] == '@' && s[dot] == '.' &&
    AllLocal(s[..at]) && AllDomain(s[at + 1..dot]) && AllLetters(s[dot + 1..])
  }

  /** The language of the pattern: some way of cutting `s` fits it. */
  ghost predicate MatchesEmailPattern(s: string) {
    exists at, dot :: EmailSplit(s, at, dot)
  }

  /** The position of the first `c` in `s`, or -1. */
  function IndexOf(s: string, c: char): (r: int)
    ensures -1 <= r < |s|
    ensures r == -1 ==> forall i :: 0 <= i < |s| ==> s[i] != c
    ensures 0 <= r ==> s[r] == c && forall i :: 0 <= i < r ==> s[i] != c
  {
    if s == [] then -1
    else if s[0] == c then 0
    else
      var k := IndexOf(s[1..], c);
      if k == -1 then -1 else k + 1
  }

  /** The position of the last `c` in `s`, or -1. */
  function LastIndexOf(s: string, c: char): (r: int)
    ensures -1 <= r < |s|
    ensures r == -1 ==> forall i :: 0 <= i < |s| ==> s[i] != c
    ensures 0 <= r ==> s[r] == c && forall i :: r < i < |s| ==> s[i] != c
  {
    if s == [] then -1
    else if s[|s| - 1] == c then |s| - 1
    else LastIndexOf(s[..|s| - 1], c)
  }

  /** `validateEmail`: since neither part may hold an '@' and the top-level
      domain holds no '.', the only possible cut is at the first '@' and the
      last '.'. */
  predicate ValidateEmail(s: string) {
    EmailSplit(s, IndexOf(s, '@'), LastIndexOf(s, '.'))
  }

  /** `validateEmail` accepts exactly the strings of the pattern's language. */
  lemma ValidateEmailMatchesPattern(s: string)
    ensures ValidateEmail(s) <==> MatchesEmailPattern(s)
  {
    if MatchesEmailPattern(s) {
      var at, dot :| EmailSplit(s, at, dot);
      forall i | 0 <= i < at
        ensures s[i] != '@'
      {
        assert IsLocalChar(s[..at][i]);
      }
      forall i | dot < i < |s|
        ensures s[i] != '.'
      {
        assert IsLetter(s[dot + 1..][i - dot - 1]);
      }
      assert IndexOf(s, '@') == at;
      assert LastIndexOf(s, '.') == dot;
    }
  }

  /** Two concrete answers of the pattern. */
  lemma EmailExamples()
    ensures ValidateEmail("a@b.co")
    ensures !ValidateEmail("a@b.c")
  {
    var s := "a@b.co";
    assert s[..1] == "a" && s[2..3] == "b" && s[4..] == "co";
    assert EmailSplit(s, 1, 3);
    ValidateEmailMatchesPattern(s);
  }

  // ---------------------------------------------------------------------
  // The password rule

  predicate IsUpper(c: char) { 'A' <= c <= 'Z' }
  predicate IsLower(c: char) { 'a' <= c <= 'z' }
  /** `\W`: anything but a letter, a digit or an underscore. */
  predicate IsNonWord(c: char) { !(IsLetter(c) || IsDigit(c) || c == '_') }

  /** `validatePassword`: at least eight characters, and an uppercase letter,
      a lowercase letter, a digit and a non-word character somewhere. */
  predicate ValidatePassword(p: string) {
    |p| >= 8 &&
    (exists i :: 0 <= i < |p| && IsUpper(p[i])) &&
    (exists i :: 0 <= i < |p| && IsLower(p[i])) &&
    (exists i :: 0 <= i < |p| && IsDigit(p[i])) &&
    (exists i :: 0 <= i < |p| && IsNonWord(p[i]))
  }

  /** The five kinds of character the rule tells apart. */
  datatype CharClass = Upper | Lower | Digit | Underscore | Other

  function ClassOf(c: char): CharClass {
    if IsUpper(c) then Upper
    else if IsLower(c) then Lower
    else if IsDigit(c) then Digit
    else if c == '_' then Underscore
    else Other
  }

  /** The kinds of character a string contains. */
  function ClassesOf(p: string): (r: set<CharClass>)
    ensures forall i :: 0 <= i < |p| ==> ClassOf(p[i]) in r
    ensures forall k :: k in r ==> exists i :: 0 <= i < |p| && ClassOf(p[i]) == k
  {
    if p == [] then {} else ClassesOf(p[..|p| - 1]) + {ClassOf(p[|p| - 1])}
  }

  /** A password is strong exactly when it is eight characters long and uses
      every kind of character except, possibly, the underscore. */
  lemma StrongPasswordByClasses(p: string)
    ensures ValidatePassword(p) <==> |p| >= 8 && {Upper, Lower, Digit, Other} <= ClassesOf(p)
  {
    var cs := ClassesOf(p);
    if {Upper, Lower, Digit, Other} <= cs {
      assert Upper in cs && Lower in cs && Digit in cs && Other in cs;
    }
  }

  /** The underscore is a word character, so it does not count as special;
      a short password fails whatever it holds. */
  lemma UnderscoreIsNotSpecial()
    ensures !ValidatePassword("Abcdefg1_")
    ensures !ValidatePassword("Ab1!")
    ensures ValidatePassword("Abcdefg1!")
  {
    assert IsUpper("Abcdefg1!"[0]) && IsLower("Abcdefg1!"[1]);
    assert IsDigit("Abcdefg1!"[7]) && IsNonWord("Abcdefg1!"[8]);
  }

  // ---------------------------------------------------------------------
  // Submitting

  datatype Endpoint = Login | Signup

  /** The request body `{ email, password, name }`, sent to `endpoint`. */
  datatype Request = Request(endpoint: Endpoint, email: string, password: string, name: string)

  /** What comes back: a success body with a token, an error body (whose
      `error` may be missing or empty), or a thrown error with its message. */
  datatype Reply = Accepted(accessToken: string) | Rejected(error: Option<string>) | Thrown(message: string)

  datatype Outcome = InvalidEmail | NameRequired | SignedIn(token: string) | Failed(message: string)

  const AuthBase: string := "http://localhost:8000/api/auth/"

  /** The address the request is posted to: the auth base followed by the
      endpoint's name. */
  function Url(e: Endpoint): (u: string)
    ensures |AuthBase| < |u| && u[..|AuthBase|] == AuthBase
    ensures u[|AuthBase|..] == "login" <==> e == Login
    ensures u[|AuthBase|..] == "signup" <==> e == Signup
  {
    AuthBase + (if e == Login then "login" else "signup")
  }

  /** The checks of `handleSubmit`, in their order: email first, then (for
      signup only) the name; the password is not consulted. */
  function Decide(isLogin: bool, email: string, name: string): (r: Option<Endpoint>)
    ensures r.Some? <==> ValidateEmail(email) && (isLogin || !IsBlank(name))
    ensures r.Some? ==> (r.value == Login <==> isLogin)
  {
    if !ValidateEmail(email) then None
    else if !isLogin && IsBlank(name) then None
    else Some(if isLogin then Login else Signup)
  }

  /** The toast text of a failed request: the error body's message, or the
      default when it is missing or empty (`data.error || '...'`). */
  function FailureMessage(r: Reply): (m: string)
    requires !r.Accepted?
    ensures r.Rejected? ==> m != ""
    ensures r.Rejected? && r.error.Some? && r.error.value != "" ==> m == r.error.value
    ensures r.Thrown? ==> m == r.message
  {
    match r
    case Rejected(e) => if e.Some? && e.value != "" then e.value else "An error occurred"
    case Thrown(m) => m
  }

  class Form {
    var isLogin: bool
    var email: string
    var password: string
    var name: string
    var isLoading: bool

    constructor ()
      ensures isLogin && email == "" && password == "" && name == "" && !isLoading
    {
      isLogin := true;
      email := "";
      password := "";
      name := "";
      isLoading := false;
    }

    /** The "Sign up" / "Login" link. */
    method SwitchMode()
      modifies this
      ensures isLogin == !old(isLogin)
      ensures email == old(email) && password == old(password) && name == old(name)
      ensures isLoading == old(isLoading)
    {
      isLogin := !isLogin;
    }

    /** `handleSubmit`: at most one request, only when the checks pass, and
      the form is never left loading. The reply is consulted only when the
      request is sent. */
    method Submit(reply: Reply) returns (sent: Option<Request>, outcome: Outcome)
      modifies this
      ensures !isLoading
      ensures isLogin == old(isLogin) && email == old(email) && password == old(password) && name == old(name)
      ensures !ValidateEmail(email) ==> sent.None? && outcome == InvalidEmail
      ensures ValidateEmail(email) && !isLogin && IsBlank(name) ==> sent.None? && outcome == NameRequired
      ensures sent.Some? <==> Decide(isLogin, email, name).Some?
      ensures sent.Some? ==> sent.value == Request(Decide(isLogin, email, name).value, email, password, name)
      ensures sent.Some? ==> outcome == (if reply.Accepted? then SignedIn(reply.accessToken)
                                         else Failed(FailureMessage(reply)))
    {
      isLoading := true;
      if !ValidateEmail(email) {
        isLoading := false;
        return None, InvalidEmail;
      }
      if !isLogin && IsBlank(name) {
        isLoading := false;
        return None, NameRequired;
      }
      var endpoint := if isLogin then Login else Signup;
      sent := Some(Request(endpoint, email, password, name));
      if reply.Accepted? {
        outcome := SignedIn(reply.accessToken);
      } else {
        outcome := Failed(FailureMessage(reply));
      }
      isLoading := false;
    }
  }

  // ---------------------------------------------------------------------
  // Properties of the checks

  /** Login ignores the name; signup needs one with a visible character. */
  lemma LoginIgnoresName(email: string, name1: string, name2: string)
    ensures Decide(true, email, name1) == Decide(true, email, name2)
  {
  }

  lemma {:induction false} SignupNeedsVisibleName(email: string, name: string)
    requires ValidateEmail(email)
    ensures Decide(false, email, name).Some? <==> exists i :: 0 <= i < |name| && !IsWhiteSpace(name[i])
  {
    BlankIffAllWhiteSpace(name);
  }

  /** A weak password never stops a request: only the email and the name do. */
  lemma WeakPasswordStillSent(email: string, name: string)
    requires ValidateEmail(email) && !IsBlank(name)
    ensures Decide(false, email, name) == Some(Signup)
    ensures Decide(true, email, name) == Some(Login)
  {
  }
}
