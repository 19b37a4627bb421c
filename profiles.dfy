/** The users router of backend/users/index.js: `validateInput`, the
    validate-then-update handler `POST /users/:id` and the admin guard of
    `GET /users`. Each validator is the anchored regular expression of the
    source, written as a `Regex.Regex` value, together with a closed-form
    check proved to accept exactly the strings that expression matches. */
module Profiles {
  import opened Wrappers
  import opened Strings
  import opened Regex
  import opened Json
  import opened Store
  import opened Gate

  // ------------------------------------------------------------ the patterns

  /** `[a-zA-Z0-9\-]` */
  const HandleChar: CharClass := Among([('a', 'z'), ('A', 'Z'), ('0', '9'), ('-', '-')])

  /** `^[a-zA-Z0-9\-]{1,30}$`: the username pattern, and the handle alternative of the website pattern. */
  const HandleRe: Regex := Rep(Char(HandleChar), 1, 30)

  /** `(www\.)?linkedin\.com\/.*`: what follows `https?:\/\/`. */
  const LinkedInHostRe: Regex :=
    Cat(Opt(Text("www.")), Cat(Text("linkedin.com/"), Star(Char(AnyExceptLineTerminator))))

  /** `https?:\/\/(www\.)?linkedin\.com\/.*` */
  const LinkedInUrlRe: Regex := Cat(Text("http"), Cat(Opt(Text("s")), Cat(Text("://"), LinkedInHostRe)))

  /** `^(https?:\/\/(www\.)?linkedin\.com\/.*|[a-zA-Z0-9\-]{1,30})$` */
  const WebsiteRe: Regex := Alt(LinkedInUrlRe, HandleRe)

  /** `[^\s@]` */
  const NotSpaceOrAt: CharClass := NoneOf(WhitespaceRanges + [('@', '@')])

  /** `[^\s@]+\.[^\s@]+`: the part after the `@`. */
  const DomainRe: Regex := Cat(Plus(Char(NotSpaceOrAt)), Cat(Text("."), Plus(Char(NotSpaceOrAt))))

  /** `^[^\s@]+@[^\s@]+\.[^\s@]+$` */
  const EmailRe: Regex := Cat(Plus(Char(NotSpaceOrAt)), Cat(Text("@"), DomainRe))

  /** `[0-9]` */
  const Digit: CharClass := Among([('0', '9')])

  /** `^\+?[0-9]{10,15}$` */
  const PhoneRe: Regex := Cat(Opt(Text("+")), Rep(Char(Digit), 10, 15))

  // ------------------------------------------------------------ closed-form checks

  /** `usernameRegex.test(s)`: 1 to 30 letters, digits or hyphens. */
  function IsHandle(s: string): (r: bool)
    ensures r <==> Matches(HandleRe, s)
  {
    RepClassMeaning(HandleChar, 1, 30, s);
    1 <= |s| <= 30 && AllIn(s, HandleChar)
  }

  /** After the scheme: `linkedin.com/`, optionally preceded by `www.`, then
      any text without a line terminator. */
  predicate IsLinkedInHostPath(t: string) {
    || (HasPrefix(t, "www.linkedin.com/") && AllIn(t[17..], AnyExceptLineTerminator))
    || (HasPrefix(t, "linkedin.com/") && AllIn(t[13..], AnyExceptLineTerminator))
  }

  lemma LinkedInHostMeaning(t: string)
    ensures Matches(LinkedInHostRe, t) <==> IsLinkedInHostPath(t)
  {
    var rest := Star(Char(AnyExceptLineTerminator));
    var host := Cat(Text("linkedin.com/"), rest);
    CatOpt(Text("www."), host, t);
    CatText("www.", host, t);
    CatText("linkedin.com/", rest, t);
    if |t| >= 13 {
      StarClassMeaning(AnyExceptLineTerminator, t[13..]);
    }
    if |t| >= 4 {
      CatText("linkedin.com/", rest, t[4..]);
      HasPrefixConcat(t, "www.", "linkedin.com/");
      assert "www." + "linkedin.com/" == "www.linkedin.com/";
      if |t| >= 17 {
        assert t[4..][13..] == t[17..];
        StarClassMeaning(AnyExceptLineTerminator, t[17..]);
      }
    }
  }

  /** The URL alternative of the website pattern. */
  predicate IsLinkedInUrl(s: string) {
    || (HasPrefix(s, "http://") && IsLinkedInHostPath(s[7..]))
    || (HasPrefix(s, "https://") && IsLinkedInHostPath(s[8..]))
  }

  lemma LinkedInUrlMeaning(s: string)
    ensures Matches(LinkedInUrlRe, s) <==> IsLinkedInUrl(s)
  {
    var after := Cat(Text("://"), LinkedInHostRe);
    CatText("http", Cat(Opt(Text("s")), after), s);
    if |s| >= 4 {
      var u := s[4..];
      CatOpt(Text("s"), after, u);
      CatText("s", after, u);
      CatText("://", LinkedInHostRe, u);
      HasPrefixConcat(s, "http", "://");
      HasPrefixConcat(s, "http", "s://");
      assert "http" + "://" == "http://" && "http" + "s://" == "https://";
      if |u| >= 1 {
        CatText("://", LinkedInHostRe, u[1..]);
        HasPrefixConcat(u, "s", "://");
        assert "s" + "://" == "s://";
      }
      if |s| >= 7 {
        assert u[3..] == s[7..];
        LinkedInHostMeaning(s[7..]);
      }
      if |s| >= 8 {
        assert u[1..][3..] == s[8..];
        LinkedInHostMeaning(s[8..]);
      }
    }
  }

  /** `linkedinRegex.test(s)`: a LinkedIn URL or a handle. */
  function IsWebsite(s: string): (r: bool)
    ensures r <==> Matches(WebsiteRe, s)
  {
    LinkedInUrlMeaning(s);
    IsLinkedInUrl(s) || IsHandle(s)
  }

  lemma DotIsNotSpaceOrAt()
    ensures InClass('.', NotSpaceOrAt)
  {
    var rs := WhitespaceRanges + [('@', '@')];
    forall k | 0 <= k < |rs|
      ensures !(rs[k].0 <= '.' <= rs[k].1)
    {
    }
  }

  /** The domain: characters other than whitespace and `@`, with a `.` that
      is neither the first nor the last of them. */
  predicate IsDomain(d: string) {
    AllIn(d, NotSpaceOrAt) && exists j | 1 <= j < |d| - 1 :: d[j] == '.'
  }

  lemma DomainMeaning(d: string)
    ensures Matches(DomainRe, d) <==> IsDomain(d)
  {
    var cl := NotSpaceOrAt;
    CatPlusThenChar(cl, '.', Plus(Char(cl)), d);
    assert DomainRe == Cat(Plus(Char(cl)), Cat(Text(['.']), Plus(Char(cl))));
    DotIsNotSpaceOrAt();
    forall k | 2 <= k <= |d|
      ensures Matches(Plus(Char(cl)), d[k..]) <==> k < |d| && AllIn(d[k..], cl)
    {
      PlusClassMeaning(cl, d[k..]);
    }
    if IsDomain(d) {
      var j :| 1 <= j < |d| - 1 && d[j] == '.';
      assert AllIn(d[..j], cl);
      assert AllIn(d[j + 1..], cl);
    }
    if Matches(DomainRe, d) {
      var j :| 1 <= j < |d| && AllIn(d[..j], cl) && d[j] == '.' && Matches(Plus(Char(cl)), d[j + 1..]);
      forall k | 0 <= k < |d|
        ensures InClass(d[k], cl)
      {
        if k < j {
          assert d[k] == d[..j][k];
        } else if k > j {
          assert d[k] == d[j + 1..][k - j - 1];
        }
      }
    }
  }

  /** `emailRegex.test(s)`: a non-empty local part, an `@`, a domain; no
      whitespace and no other `@` anywhere. */
  function IsEmail(s: string): (r: bool)
    ensures r <==> Matches(EmailRe, s)
  {
    var r := exists i | 1 <= i < |s| :: s[i] == '@' && AllIn(s[..i], NotSpaceOrAt) && IsDomain(s[i + 1..]);
    EmailMeaning(s);
    r
  }

  lemma EmailMeaning(s: string)
    ensures Matches(EmailRe, s) <==>
            exists i | 1 <= i < |s| :: s[i] == '@' && AllIn(s[..i], NotSpaceOrAt) && IsDomain(s[i + 1..])
  {
    CatPlusThenChar(NotSpaceOrAt, '@', DomainRe, s);
    assert EmailRe == Cat(Plus(Char(NotSpaceOrAt)), Cat(Text(['@']), DomainRe));
    forall k | 2 <= k <= |s| {
      DomainMeaning(s[k..]);
    }
  }

  /** `phoneRegex.test(s)`: 10 to 15 digits, optionally after one `+`. */
  function IsPhone(s: string): (r: bool)
    ensures r <==> Matches(PhoneRe, s)
  {
    PhoneMeaning(s);
    (10 <= |s| <= 15 && AllIn(s, Digit)) || (HasPrefix(s, "+") && 10 <= |s| - 1 <= 15 && AllIn(s[1..], Digit))
  }

  lemma PhoneMeaning(s: string)
    ensures Matches(PhoneRe, s) <==>
            (10 <= |s| <= 15 && AllIn(s, Digit)) || (HasPrefix(s, "+") && 10 <= |s| - 1 <= 15 && AllIn(s[1..], Digit))
  {
    var digits := Rep(Char(Digit), 10, 15);
    CatOpt(Text("+"), digits, s);
    CatText("+", digits, s);
    RepClassMeaning(Digit, 10, 15, s);
    if |s| >= 1 {
      RepClassMeaning(Digit, 10, 15, s[1..]);
    }
  }

  // ------------------------------------------------------------ validateInput

  /** The request body fields the validator reads; `None` is an absent field. */
  datatype ProfileInput = ProfileInput(
    username: Option<string>,
    website: Option<string>,
    firstName: Option<string>,
    lastName: Option<string>,
    email: Option<string>,
    phone: Option<string>,
    bio: Option<string>)

  /** The keys of the `errors` object. */
  datatype Field = Username | Website | FirstName | LastName | Email | Phone | Bio

  /** The longest first or last name accepted, and the longest bio. */
  const MaxNameLength := 100
  const MaxBioLength := 500

  /** Field `f` of `d` breaks its rule: the username and website must be
      present and match their patterns, the names must be present and at
      most 100 characters long, the email must be present and match its
      pattern; a present phone must match its pattern and a present bio be at
      most 500 characters long. */
  ghost predicate Invalid(d: ProfileInput, f: Field) {
    match f
    case Username => !TruthyText(d.username) || !Matches(HandleRe, d.username.value)
    case Website => !TruthyText(d.website) || !Matches(WebsiteRe, d.website.value)
    case FirstName => !TruthyText(d.firstName) || |d.firstName.value| > MaxNameLength
    case LastName => !TruthyText(d.lastName) || |d.lastName.value| > MaxNameLength
    case Email => !TruthyText(d.email) || !Matches(EmailRe, d.email.value)
    case Phone => TruthyText(d.phone) && !Matches(PhoneRe, d.phone.value)
    case Bio => TruthyText(d.bio) && |d.bio.value| > MaxBioLength
  }

  /** The check `validateInput` makes for field `f`: true when it adds `f` to `errors`. */
  predicate Rejects(d: ProfileInput, f: Field) {
    match f
    case Username => !TruthyText(d.username) || !IsHandle(d.username.value)
    case Website => !TruthyText(d.website) || !IsWebsite(d.website.value)
    case FirstName => !TruthyText(d.firstName) || |d.firstName.value| < 1 || |d.firstName.value| > MaxNameLength
    case LastName => !TruthyText(d.lastName) || |d.lastName.value| < 1 || |d.lastName.value| > MaxNameLength
    case Email => !TruthyText(d.email) || !IsEmail(d.email.value)
    case Phone => TruthyText(d.phone) && !IsPhone(d.phone.value)
    case Bio => TruthyText(d.bio) && |d.bio.value| > MaxBioLength
  }

  lemma RejectsMeaning(d: ProfileInput, f: Field)
    ensures Rejects(d, f) <==> Invalid(d, f)
  {
  }

  const Fields: set<Field> := {Username, Website, FirstName, LastName, Email, Phone, Bio}

  lemma FieldsComplete(f: Field)
    ensures f in Fields
  {
  }

  /** `validateInput(data)`: the keys of the returned `errors` object. */
  function ValidateInput(d: ProfileInput): (r: set<Field>)
    ensures forall f: Field :: f in r <==> Invalid(d, f)
  {
    forall f: Field ensures f in Fields && (Rejects(d, f) <==> Invalid(d, f)) {
      FieldsComplete(f);
      RejectsMeaning(d, f);
    }
    set f | f in Fields && Rejects(d, f)
  }

  // ------------------------------------------------------------ POST /users/:id

  datatype ProfileReply =
    | ValidationFailed(errors: set<Field>)  // 400 `{ errors }`
    | ProfileUpdated                        // 200
    | ProfileUpdateFailed                   // 500
  {
    function Status(): int {
      match this
      case ValidationFailed(_) => 400
      case ProfileUpdated => 200
      case ProfileUpdateFailed => 500
    }
  }

  /** The `profiles` row the second UPDATE writes. */
  function ProfileRow(d: ProfileInput): Profile {
    Profile(d.bio, d.firstName, d.lastName, d.email, d.phone, d.website)
  }

  /** `POST /users/:id` as the first of its two handlers answers it.
      `userId` is `parseInt(req.params.id)`, `None` for `NaN`; PostgreSQL
      refuses `NaN` and any number outside its `integer` range as the id
      parameter, so both end in 500. */
  function UpdateProfileSpec(db: Db, userId: Option<int>, d: ProfileInput): (r: (Db, ProfileReply))
    requires Consistent(db)
    ensures Consistent(r.0)
    ensures r.1.ValidationFailed? <==> ValidateInput(d) != {}
    ensures r.1 != ProfileUpdated ==> r.0 == db
    ensures r.1 == ProfileUpdated ==> userId.Some? && IsInt4(userId.value)
    ensures r.0 == db.(users := r.0.users, profiles := r.0.profiles)
    ensures r.0.users.Keys == db.users.Keys && r.0.profiles.Keys == db.profiles.Keys
    ensures forall id | id in db.users && Some(id) != userId :: r.0.users[id] == db.users[id]
    ensures forall id | id in db.profiles && Some(id) != userId :: r.0.profiles[id] == db.profiles[id]
  {
    var errors := ValidateInput(d);
    if errors != {} then (db, ValidationFailed(errors))
    else if userId.None? || !IsInt4(userId.value) then (db, ProfileUpdateFailed)
    else
      assert Username !in errors;
      var id, name := userId.value, d.username.value;
      var holder := FindUser(db.users, name);
      if id in db.users && holder.Some? && holder.value != id then (db, ProfileUpdateFailed)
      else
        var users := if id in db.users then db.users[id := db.users[id].(username := name)] else db.users;
        var profiles := if id in db.profiles then db.profiles[id := ProfileRow(d)] else db.profiles;
        (db.(users := users, profiles := profiles), ProfileUpdated)
  }

  /** The handler: validate, then `UPDATE users` and `UPDATE profiles` for that id. */
  method UpdateProfile(store: Database, userId: Option<int>, d: ProfileInput) returns (reply: ProfileReply)
    requires store.Valid()
    modifies store
    ensures store.Valid()
    ensures store.Tables() == UpdateProfileSpec(old(store.Tables()), userId, d).0
    ensures reply == UpdateProfileSpec(old(store.Tables()), userId, d).1
  {
    var errors := ValidateInput(d);
    if errors != {} {
      return ValidationFailed(errors);
    }
    if userId.None? || !IsInt4(userId.value) {
      return ProfileUpdateFailed;
    }
    assert Username !in errors;
    var id, name := userId.value, d.username.value;
    var holder := FindUser(store.users, name);
    if id in store.users {
      if holder.Some? && holder.value != id {
        return ProfileUpdateFailed;
      }
      store.users := store.users[id := store.users[id].(username := name)];
    }
    if id in store.profiles {
      store.profiles := store.profiles[id := ProfileRow(d)];
    }
    reply := ProfileUpdated;
  }

  // ------------------------------------------------------------ GET /users

  datatype ListReply =
    | ListUnauthorized  // 401
    | UserListing       // 200, the joined rows
  {
    function Status(): int {
      if this == ListUnauthorized then 401 else 200
    }
  }

  /** The guard of `GET /users`: `req.session?.role !== 'admin'` answers 401. */
  function ListUsersGuard(session: Option<RequestSession>): (r: ListReply)
    ensures r == UserListing <==> session.Some? && session.value.role == Some("admin")
  {
    if session.Some? && session.value.role == Some("admin") then UserListing else ListUnauthorized
  }
}
