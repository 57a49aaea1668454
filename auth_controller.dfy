/** The auth controller: signup validation and account creation, login
    outcomes, onboarding's missing-field report and profile update, and the
    lifetime of the session cookie. */
module AuthController {
  import opened Store
  import opened Http

  /** A field of a request body: absent, or a string. */
  type Field = Option<string>

  /** JavaScript truthiness of a body field: an absent field and "" are falsy. */
  predicate Falsy(f: Field)
  {
    f.None? || f.value == ""
  }

  // ---------------------------------------------------------------------
  // The e-mail pattern /^[^\s@]+@[^\s@]+\.[^\s@]+$/
  // ---------------------------------------------------------------------

  /** A character of the class `\s` of JavaScript regular expressions. */
  predicate IsJsWhitespace(c: char)
  {
    var n := c as int;
    || (0x09 <= n <= 0x0D) || n == 0x20 || n == 0xA0 || n == 0x1680
    || (0x2000 <= n <= 0x200A) || n == 0x2028 || n == 0x2029 || n == 0x202F
    || n == 0x205F || n == 0x3000 || n == 0xFEFF
  }

  /** A character of the class `[^\s@]`. */
  predicate IsAtomChar(c: char)
  {
    !IsJsWhitespace(c) && c != '@'
  }

  predicate AllAtomChars(s: string)
  {
    forall i | 0 <= i < |s| :: IsAtomChar(s[i])
  }

  /** The pattern matches `s` with its `@` at `at` and its `\.` at `dot`. */
  predicate MatchesAt(s: string, at: int, dot: int)
  {
    && 0 < at && at + 1 < dot && dot + 1 < |s|
    && s[at] == '@' && s[dot] == '.'
    && AllAtomChars(s[..at]) && AllAtomChars(s[at + 1..dot]) && AllAtomChars(s[dot + 1..])
  }

  /** `emailRegex.test(s)`: some choice of the `@` and the `\.` makes all three runs non-empty atoms. */
  predicate EmailRegexTest(s: string): (b: bool)
    ensures b ==> 5 <= |s| && '@' in s && '.' in s
    ensures b ==> IsAtomChar(s[0]) && IsAtomChar(s[|s| - 1])
  {
    exists at, dot | 0 <= at < |s| && 0 <= dot < |s| :: MatchesAt(s, at, dot)
  }

  function Occurrences(s: string, c: char): nat
    decreases |s|
  {
    if s == [] then 0 else (if s[0] == c then 1 else 0) + Occurrences(s[1..], c)
  }

  lemma {:induction false} OccurrencesAppend(a: string, b: string, c: char)
    ensures Occurrences(a + b, c) == Occurrences(a, c) + Occurrences(b, c)
    decreases |a|
  {
    if a != [] {
      assert (a + b)[1..] == a[1..] + b;
      OccurrencesAppend(a[1..], b, c);
    } else {
      assert a + b == b;
    }
  }

  lemma {:induction false} NoOccurrences(s: string, c: char)
    ensures Occurrences(s, c) == 0 <==> c !in s
    decreases |s|
  {
    if s != [] {
      NoOccurrences(s[1..], c);
      assert s == [s[0]] + s[1..];
    }
  }

  /** Position of the first `c` in `s`, or `|s|` when there is none. */
  function IndexOf(s: string, c: char): (i: nat)
    ensures i <= |s| && (i < |s| ==> s[i] == c)
    ensures forall j | 0 <= j < i :: s[j] != c
    ensures i == |s| <==> c !in s
  {
    match FirstWhere(s, (x: char) => x == c)
    case None => |s|
    case Some(k) => k
  }

  predicate NoWhitespace(s: string)
  {
    forall i | 0 <= i < |s| :: !IsJsWhitespace(s[i])
  }

  /** The domain has a `.` that is neither its first nor its last character. */
  predicate HasInnerDot(domain: string)
  {
    exists j | 0 < j < |domain| - 1 :: domain[j] == '.'
  }

  /** What the pattern demands, in words: no whitespace, exactly one `@`, a non-empty
      local part, and a domain with a `.` that is neither its first nor its last character. */
  predicate WellFormedEmail(s: string)
  {
    && NoWhitespace(s)
    && Occurrences(s, '@') == 1
    && var at := IndexOf(s, '@');
       0 < at < |s| && HasInnerDot(s[at + 1..])
  }

  lemma {:induction false} EmailRegexMeaning(s: string)
    ensures EmailRegexTest(s) <==> WellFormedEmail(s)
  {
    if EmailRegexTest(s) {
      var at, dot :| 0 <= at < |s| && 0 <= dot < |s| && MatchesAt(s, at, dot);
      RegexMatchIsWellFormed(s, at, dot);
    }
    if WellFormedEmail(s) {
      var at := IndexOf(s, '@');
      var domain := s[at + 1..];
      var j :| 0 < j < |domain| - 1 && domain[j] == '.';
      WellFormedMatchesAt(s, at, at + 1 + j);
    }
  }

  lemma RegexMatchIsWellFormed(s: string, at: int, dot: int)
    requires MatchesAt(s, at, dot)
    ensures WellFormedEmail(s)
  {
    var local, host, tld := s[..at], s[at + 1..dot], s[dot + 1..];
    assert s == local + ([s[at]] + (host + ([s[dot]] + tld)));
    forall part | part in {local, host, tld} ensures Occurrences(part, '@') == 0 {
      NoOccurrences(part, '@');
    }
    OccurrencesAppend([s[dot]], tld, '@');
    OccurrencesAppend(host, [s[dot]] + tld, '@');
    OccurrencesAppend([s[at]], host + ([s[dot]] + tld), '@');
    OccurrencesAppend(local, [s[at]] + (host + ([s[dot]] + tld)), '@');
    assert Occurrences([s[at]], '@') == 1;
    assert Occurrences([s[dot]], '@') == 0;
    forall i | 0 <= i < |s| ensures !IsJsWhitespace(s[i]) {
      if i < at {
        assert s[i] == local[i];
      } else if at < i < dot {
        assert s[i] == host[i - at - 1];
      } else if dot < i {
        assert s[i] == tld[i - dot - 1];
      }
    }
    assert IndexOf(s, '@') == at;
    assert s[at + 1..][dot - at - 1] == '.';
  }

  lemma WellFormedMatchesAt(s: string, at: int, dot: int)
    requires WellFormedEmail(s)
    requires at == IndexOf(s, '@') && at + 1 < dot < |s| - 1 && s[dot] == '.'
    ensures MatchesAt(s, at, dot)
  {
    assert s == s[..at] + ([s[at]] + s[at + 1..]);
    NoOccurrences(s[..at], '@');
    OccurrencesAppend([s[at]], s[at + 1..], '@');
    OccurrencesAppend(s[..at], [s[at]] + s[at + 1..], '@');
    NoOccurrences(s[at + 1..], '@');
    forall i | at + 1 <= i < |s| ensures s[i] != '@' {
      assert s[i] == s[at + 1..][i - at - 1];
    }
  }

  // ---------------------------------------------------------------------
  // signup
  // ---------------------------------------------------------------------

  const MinPasswordLength := 6

  datatype SignupRefusal = FieldsRequired | PasswordTooShort | InvalidEmailFormat | EmailAlreadyExists
  {
    function Message(): string
    {
      match this
      case FieldsRequired => "All fields are required"
      case PasswordTooShort => "Password must be at least 6 characters long"
      case InvalidEmailFormat => "Invalid email format"
      case EmailAlreadyExists => "Email already exists, please use a different email"
    }
  }

  predicate EmailInUse(users: seq<User>, email: string)
  {
    exists i | 0 <= i < |users| :: users[i].email == email
  }

  predicate SignupFieldsPresent(email: Field, password: Field, fullName: Field)
  {
    !Falsy(email) && !Falsy(password) && !Falsy(fullName)
  }

  /** The checks of `signup`, in order; `None` means the account may be created. */
  function SignupCheck(users: seq<User>, email: Field, password: Field, fullName: Field): (r: Option<SignupRefusal>)
    ensures r == Some(FieldsRequired) <==> !SignupFieldsPresent(email, password, fullName)
    ensures r == Some(PasswordTooShort) <==>
      SignupFieldsPresent(email, password, fullName) && |password.value| < MinPasswordLength
    ensures r == Some(InvalidEmailFormat) <==>
      && SignupFieldsPresent(email, password, fullName) && |password.value| >= MinPasswordLength
      && !WellFormedEmail(email.value)
    ensures r == Some(EmailAlreadyExists) <==>
      && SignupFieldsPresent(email, password, fullName) && |password.value| >= MinPasswordLength
      && WellFormedEmail(email.value) && EmailInUse(users, email.value)
    ensures r == None <==>
      && SignupFieldsPresent(email, password, fullName) && |password.value| >= MinPasswordLength
      && WellFormedEmail(email.value) && !EmailInUse(users, email.value)
  {
    if Falsy(email) || Falsy(password) || Falsy(fullName) then Some(FieldsRequired)
    else if |password.value| < MinPasswordLength then Some(PasswordTooShort)
    else
      EmailRegexMeaning(email.value);
      if !EmailRegexTest(email.value) then Some(InvalidEmailFormat)
      else if FindByEmail(users, email.value).Some? then Some(EmailAlreadyExists)
      else None
  }

  /** The document `User.create` stores for a new account. */
  function NewUser(id: UserId, email: string, password: string, fullName: string, profilePic: string): (u: User)
    ensures u.id == id && u.email == email && u.password == password
    ensures u.fullName == fullName && u.profilePic == profilePic
    ensures u.bio == "" && u.nativeLanguage == "" && u.learningLanguage == "" && u.location == ""
    ensures !u.isOnboarded && u.friends == []
  {
    User(id, email, password, fullName, profilePic, "", "", "", "", false, [])
  }

  /** Adding a fresh user with a new e-mail and no friends keeps the store consistent. */
  lemma SignupPreservesConsistency(users: seq<User>, requests: seq<FriendRequest>,
                                   nextUserId: UserId, nextRequestId: RequestId, u: User)
    requires Consistent(users, requests, nextUserId, nextRequestId)
    requires u.id == nextUserId && u.friends == [] && !EmailInUse(users, u.email)
    ensures Consistent(users + [u], requests, nextUserId + 1, nextRequestId)
  {
    var users1 := users + [u];
    forall x: UserId | IsUser(users, x) ensures IsUser(users1, x) && x < nextUserId {
      var i :| 0 <= i < |users| && users[i].id == x;
      assert users1[i] == users[i];
    }
    forall k, i | 0 <= k < |requests| && 0 <= i < |users1| && requests[k].status == Accepted
      ensures users1[i].id == requests[k].sender ==> requests[k].recipient in users1[i].friends
      ensures users1[i].id == requests[k].recipient ==> requests[k].sender in users1[i].friends
    {
      if i < |users| {
        assert users1[i] == users[i];
      }
    }
    forall i, f | 0 <= i < |users1| && f in users1[i].friends
      ensures AcceptedBetween(requests, users1[i].id, f)
    {
      assert i < |users| && users1[i] == users[i];
    }
  }

  method Signup(db: Database, email: Field, password: Field, fullName: Field, avatar: string)
    returns (reply: Reply<UserId>)
    requires db.Valid()
    modifies db
    ensures db.Valid()
    ensures db.requests == old(db.requests) && db.nextRequestId == old(db.nextRequestId)
    ensures match SignupCheck(old(db.users), email, password, fullName)
      case Some(refusal) =>
        && reply == Refused(400, refusal.Message(), [])
        && db.users == old(db.users) && db.nextUserId == old(db.nextUserId)
      case None =>
        var u := NewUser(old(db.nextUserId), email.value, password.value, fullName.value, avatar);
        && reply == Ok(201, u.id)
        && db.users == old(db.users) + [u]
        && db.nextUserId == old(db.nextUserId) + 1
  {
    var check := SignupCheck(db.users, email, password, fullName);
    if check.Some? {
      reply := Refused(400, check.value.Message(), []);
      return;
    }
    var u := NewUser(db.nextUserId, email.value, password.value, fullName.value, avatar);
    SignupPreservesConsistency(db.users, db.requests, db.nextUserId, db.nextRequestId, u);
    db.users := db.users + [u];
    db.nextUserId := db.nextUserId + 1;
    reply := Ok(201, u.id);
  }

  // ---------------------------------------------------------------------
  // login
  // ---------------------------------------------------------------------

  /** `user.matchPassword(candidate)` is a parameter: `matches(stored, candidate)`. */
  function Login(users: seq<User>, email: Field, password: Field, matches: (string, string) -> bool)
    : (r: Reply<UserId>)
    ensures Falsy(email) || Falsy(password) ==> r == Refused(400, "All fields are required", [])
    ensures !Falsy(email) && !Falsy(password) && !EmailInUse(users, email.value) ==>
      r == Refused(401, "Invalid email", [])
    ensures r.Refused? ==> r.status in {400, 401}
    ensures r.Ok? ==>
      && r.status == 200 && !Falsy(email) && !Falsy(password)
      && exists i | 0 <= i < |users| ::
           users[i].id == r.body && users[i].email == email.value && matches(users[i].password, password.value)
  {
    if Falsy(email) || Falsy(password) then Refused(400, "All fields are required", [])
    else match FindByEmail(users, email.value)
      case None => Refused(401, "Invalid email", [])
      case Some(i) =>
        if !matches(users[i].password, password.value) then Refused(401, "Invalid password", [])
        else Ok(200, users[i].id)
  }

  /** With unique e-mails, login succeeds exactly for the account holding the e-mail when the
      password matches, and otherwise fails with 401 "Invalid password". */
  lemma LoginOutcomeOfAccount(users: seq<User>, nextUserId: UserId, i: nat, password: string,
                              matches: (string, string) -> bool)
    requires UsersWellFormed(users, nextUserId)
    requires i < |users| && password != ""
    ensures var r := Login(users, Some(users[i].email), Some(password), matches);
      if users[i].email == "" then r == Refused(400, "All fields are required", [])
      else if matches(users[i].password, password) then r == Ok(200, users[i].id)
      else r == Refused(401, "Invalid password", [])
  {
    var j := FindByEmail(users, users[i].email).value;
    assert users[j].email == users[i].email;
  }

  // ---------------------------------------------------------------------
  // onboard
  // ---------------------------------------------------------------------

  datatype OnboardForm = OnboardForm(
    fullName: Field, bio: Field, nativeLanguage: Field, learningLanguage: Field, location: Field)

  const OnboardFieldNames: seq<string> := ["fullName", "bio", "nativeLanguage", "learningLanguage", "location"]

  function FormValues(form: OnboardForm): (vs: seq<Field>)
    ensures |vs| == |OnboardFieldNames|
  {
    [form.fullName, form.bio, form.nativeLanguage, form.learningLanguage, form.location]
  }

  /** The names whose value is falsy, in the order of `names`. */
  function FalsyNames(names: seq<string>, values: seq<Field>): (r: seq<string>)
    requires |names| == |values| && NoDuplicates(names)
    ensures IsSubsequence(r, names) && NoDuplicates(r)
    ensures forall n | n in r :: exists i | 0 <= i < |names| :: names[i] == n && Falsy(values[i])
    ensures forall i | 0 <= i < |names| && Falsy(values[i]) :: names[i] in r
    ensures r == [] <==> forall i | 0 <= i < |values| :: !Falsy(values[i])
    decreases |names|
  {
    if names == [] then []
    else
      var rest := FalsyNames(names[1..], values[1..]);
      assert forall i | 1 <= i < |names| :: names[i] == names[1..][i - 1] && values[i] == values[1..][i - 1];
      if Falsy(values[0]) then
        assert ([names[0]] + rest)[1..] == rest;
        assert names[0] !in rest by {
          assert forall i | 1 <= i < |names| :: names[i] != names[0];
        }
        [names[0]] + rest
      else
        rest
  }

  /** `missingFields`: exactly the falsy fields, in the order fullName, bio, nativeLanguage,
      learningLanguage, location. */
  function MissingFields(form: OnboardForm): (r: seq<string>)
    ensures IsSubsequence(r, OnboardFieldNames)
    ensures forall i | 0 <= i < |OnboardFieldNames| :: OnboardFieldNames[i] in r <==> Falsy(FormValues(form)[i])
    ensures r == [] <==> forall i | 0 <= i < |OnboardFieldNames| :: !Falsy(FormValues(form)[i])
  {
    var names, values := OnboardFieldNames, FormValues(form);
    assert forall i, j | 0 <= i < j < |names| :: names[i] != names[j] by {
      assert names[0][0] == 'f' && names[1][0] == 'b' && names[2][0] == 'n' && names[3][0] == 'l';
      assert names[4][0] == 'l' && |names[3]| != |names[4]|;
    }
    FalsyNames(names, values)
  }

  /** The profile update `onboard` applies to the caller's document. */
  function OnboardedUser(u: User, form: OnboardForm): User
    requires MissingFields(form) == []
  {
    u.(fullName := form.fullName.value, bio := form.bio.value, nativeLanguage := form.nativeLanguage.value,
       learningLanguage := form.learningLanguage.value, location := form.location.value, isOnboarded := true)
  }

  /** `User.findByIdAndUpdate(me, {...})`: only the caller's document changes. */
  function ApplyOnboarding(users: seq<User>, me: UserId, form: OnboardForm): (r: seq<User>)
    requires MissingFields(form) == []
    ensures |r| == |users|
    ensures forall i | 0 <= i < |users| && users[i].id != me :: r[i] == users[i]
    ensures forall i | 0 <= i < |users| && users[i].id == me ::
      && r[i].isOnboarded
      && [r[i].fullName, r[i].bio, r[i].nativeLanguage, r[i].learningLanguage, r[i].location]
         == [form.fullName.value, form.bio.value, form.nativeLanguage.value, form.learningLanguage.value,
             form.location.value]
      && r[i].id == users[i].id && r[i].email == users[i].email && r[i].password == users[i].password
      && r[i].profilePic == users[i].profilePic && r[i].friends == users[i].friends
  {
    seq(|users|, i requires 0 <= i < |users| => if users[i].id == me then OnboardedUser(users[i], form) else users[i])
  }

  method Onboard(db: Database, me: UserId, form: OnboardForm) returns (reply: Reply<UserId>)
    requires db.Valid()
    modifies db
    ensures db.Valid()
    ensures db.requests == old(db.requests)
    ensures db.nextUserId == old(db.nextUserId) && db.nextRequestId == old(db.nextRequestId)
    ensures
      if MissingFields(form) != [] then
        reply == Refused(400, "All fields are required", MissingFields(form)) && db.users == old(db.users)
      else if !IsUser(old(db.users), me) then
        reply == Refused(404, "User not found", []) && db.users == old(db.users)
      else
        reply == Ok(200, me) && db.users == ApplyOnboarding(old(db.users), me, form)
  {
    var missing := MissingFields(form);
    if missing != [] {
      reply := Refused(400, "All fields are required", missing);
      return;
    }
    if FindUser(db.users, me).None? {
      reply := Refused(404, "User not found", []);
      return;
    }
    var users1 := ApplyOnboarding(db.users, me, form);
    ProfileEditPreservesConsistency(db.users, users1, db.requests, db.nextUserId, db.nextRequestId);
    db.users := users1;
    reply := Ok(200, me);
  }

  // ---------------------------------------------------------------------
  // session lifetime
  // ---------------------------------------------------------------------

  /** The token is signed with `expiresIn: '7d'`. */
  const TokenLifetimeDays := 7
  const MillisecondsPerDay := 24 * 60 * 60 * 1000

  /** The cookie's `maxAge`, `7 * 24 * 60 * 60 * 1000`, is the token's lifetime in milliseconds. */
  function CookieMaxAge(): (ms: nat)
    ensures ms == 604_800_000
    ensures ms == TokenLifetimeDays * MillisecondsPerDay
  {
    7 * 24 * 60 * 60 * 1000
  }
}
