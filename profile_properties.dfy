/** What the validators of backend/users/index.js accept, and what
    `POST /users/:id` does to the store, stated over `Profiles`. */
module ProfileProperties {
  import opened Wrappers
  import opened Strings
  import opened Regex
  import opened Json
  import opened Store
  import opened Profiles

  /** A letter, digit or hyphen of ASCII. */
  predicate IsAsciiAlnumOrHyphen(c: char) {
    ('a' <= c <= 'z') || ('A' <= c <= 'Z') || ('0' <= c <= '9') || c == '-'
  }

  /** The username pattern accepts exactly 1 to 30 ASCII letters, digits and hyphens. */
  lemma UsernamePattern(s: string)
    ensures Matches(HandleRe, s) <==> 1 <= |s| <= 30 && forall i | 0 <= i < |s| :: IsAsciiAlnumOrHyphen(s[i])
  {
    RepClassMeaning(HandleChar, 1, 30, s);
    forall i | 0 <= i < |s|
      ensures InClass(s[i], HandleChar) <==> IsAsciiAlnumOrHyphen(s[i])
    {
      var c := s[i];
      if IsAsciiAlnumOrHyphen(c) {
        var ranges := [('a', 'z'), ('A', 'Z'), ('0', '9'), ('-', '-')];
        var k := if 'a' <= c <= 'z' then 0 else if 'A' <= c <= 'Z' then 1 else if '0' <= c <= '9' then 2 else 3;
        assert ranges[k].0 <= c <= ranges[k].1;
      }
    }
  }

  /** Every valid username is also a valid website (the handle alternative). */
  lemma UsernameIsWebsite(s: string)
    requires Matches(HandleRe, s)
    ensures Matches(WebsiteRe, s)
  {
  }

  /** The username that passes validation, and that the second `POST /:id`
      handler pastes into its SQL text, holds no quote, no semicolon and no
      whitespace: only ASCII letters, digits and hyphens. */
  lemma ValidatedUsernameIsPlain(d: ProfileInput)
    requires ValidateInput(d) == {}
    ensures d.username.Some?
    ensures forall i | 0 <= i < |d.username.value| :: IsAsciiAlnumOrHyphen(d.username.value[i])
    ensures '\'' !in d.username.value && ';' !in d.username.value && ' ' !in d.username.value
  {
    assert Username !in ValidateInput(d);
    UsernamePattern(d.username.value);
  }

  /** A valid website with a `/` in it is a LinkedIn URL, not a handle: it
      starts with `http://` or `https://`, an optional `www.`, then exactly
      `linkedin.com/`, so look-alike hosts (`linkedin.com.evil.io`) and other
      hosts with a `linkedin.com/` path are refused. */
  lemma WebsiteWithSlashIsUrl(s: string)
    requires Matches(WebsiteRe, s) && '/' in s
    ensures IsLinkedInUrl(s)
  {
    LinkedInUrlMeaning(s);
    if Matches(HandleRe, s) {
      UsernamePattern(s);
    }
  }

  /** `[^\s@]` holds every character but `@` and whitespace. */
  lemma NotSpaceOrAtMeaning(c: char)
    ensures InClass(c, NotSpaceOrAt) <==> c != '@' && !InRanges(c, WhitespaceRanges)
  {
    var rs := WhitespaceRanges + [('@', '@')];
    if InRanges(c, WhitespaceRanges) {
      var m :| 0 <= m < |WhitespaceRanges| && WhitespaceRanges[m].0 <= c <= WhitespaceRanges[m].1;
      assert rs[m] == WhitespaceRanges[m];
    }
    if c == '@' {
      assert rs[|rs| - 1] == ('@', '@');
    }
    if InRanges(c, rs) {
      var m :| 0 <= m < |rs| && rs[m].0 <= c <= rs[m].1;
      if m < |WhitespaceRanges| {
        assert rs[m] == WhitespaceRanges[m];
      }
    }
  }

  /** An `@` between a run of `[^\s@]` and a domain is the only `@`, and
      there is no whitespace around it. */
  lemma AtSplitShape(s: string, i: int)
    requires 1 <= i < |s| && s[i] == '@' && AllIn(s[..i], NotSpaceOrAt) && IsDomain(s[i + 1..])
    ensures SoleAt(s, i)
    ensures forall k | 0 <= k < |s| :: !InRanges(s[k], WhitespaceRanges)
  {
    forall k | 0 <= k < |s|
      ensures s[k] == '@' <==> k == i
      ensures !InRanges(s[k], WhitespaceRanges)
    {
      NotSpaceOrAtMeaning(s[k]);
      if k < i {
        assert s[k] == s[..i][k];
      } else if k > i {
        assert s[k] == s[i + 1..][k - i - 1];
      } else {
        assert !InRanges('@', WhitespaceRanges) by {
          NotSpaceOrAtMeaning('.');
          DotIsNotSpaceOrAt();
          forall m | 0 <= m < |WhitespaceRanges|
            ensures !(WhitespaceRanges[m].0 <= '@' <= WhitespaceRanges[m].1)
          {
          }
        }
      }
    }
  }

  /** The only `@` in `s` is at index `i`. */
  predicate SoleAt(s: string, i: int) {
    forall k | 0 <= k < |s| :: s[k] == '@' <==> k == i
  }

  /** A valid email holds exactly one `@`, after at least one character, and
      no whitespace at all. */
  lemma EmailShape(s: string)
    requires Matches(EmailRe, s)
    ensures exists i | 1 <= i < |s| :: SoleAt(s, i)
    ensures forall k | 0 <= k < |s| :: !InRanges(s[k], WhitespaceRanges)
  {
    EmailMeaning(s);
    var i :| 1 <= i < |s| && s[i] == '@' && AllIn(s[..i], NotSpaceOrAt) && IsDomain(s[i + 1..]);
    AtSplitShape(s, i);
  }

  /** Names are limited to 100 characters, not to the 50 the error message
      announces: a present name is rejected exactly when it is longer than 100. */
  lemma NameLimitIsHundred(d: ProfileInput)
    requires TruthyText(d.firstName) && TruthyText(d.lastName)
    ensures FirstName in ValidateInput(d) <==> |d.firstName.value| > 100
    ensures LastName in ValidateInput(d) <==> |d.lastName.value| > 100
  {
  }

  /** An absent or empty phone or bio never fails validation. */
  lemma PhoneAndBioOptional(d: ProfileInput)
    requires !TruthyText(d.phone) && !TruthyText(d.bio)
    ensures Phone !in ValidateInput(d) && Bio !in ValidateInput(d)
  {
  }

  /** A missing username, website, first name, last name or email always fails. */
  lemma RequiredFieldsMissing(d: ProfileInput)
    ensures !TruthyText(d.username) ==> Username in ValidateInput(d)
    ensures !TruthyText(d.website) ==> Website in ValidateInput(d)
    ensures !TruthyText(d.firstName) ==> FirstName in ValidateInput(d)
    ensures !TruthyText(d.lastName) ==> LastName in ValidateInput(d)
    ensures !TruthyText(d.email) ==> Email in ValidateInput(d)
  {
  }

  // ------------------------------------------------------------ POST /users/:id

  /** Any validation error is answered 400 with exactly those keys, and nothing changes. */
  lemma InvalidInputChangesNothing(db: Db, userId: Option<int>, d: ProfileInput)
    requires Consistent(db) && ValidateInput(d) != {}
    ensures UpdateProfileSpec(db, userId, d) == (db, ValidationFailed(ValidateInput(d)))
    ensures UpdateProfileSpec(db, userId, d).1.Status() == 400
  {
  }

  /** Valid input for an existing user whose new username no other user
      holds: that user's username and profile row are rewritten, the
      password and lock fields stay, and the reply is 200. */
  lemma ValidUpdateRewritesThatUser(db: Db, id: int, name: string, d: ProfileInput)
    requires Consistent(db) && ValidateInput(d) == {} && id in db.users && d.username == Some(name)
    requires IsInt4(id)
    requires forall j | j in db.users && j != id :: db.users[j].username != name
    ensures var (db', reply) := UpdateProfileSpec(db, Some(id), d);
            && reply == ProfileUpdated
            && db'.users[id] == db.users[id].(username := name)
            && (id in db.profiles ==> db'.profiles[id] == ProfileRow(d))
  {
  }

  /** An id that is `NaN` or outside PostgreSQL's `integer` range makes the
      first UPDATE fail, even for valid input: 500, and nothing changes. */
  lemma UnusableIdFails(db: Db, userId: Option<int>, d: ProfileInput)
    requires Consistent(db) && ValidateInput(d) == {}
    requires userId.None? || !IsInt4(userId.value)
    ensures UpdateProfileSpec(db, userId, d) == (db, ProfileUpdateFailed)
  {
  }

  /** A new username another user already holds violates the unique
      constraint: 500, and nothing changes. */
  lemma TakenUsernameRefused(db: Db, id: int, other: int, d: ProfileInput)
    requires Consistent(db) && ValidateInput(d) == {} && id in db.users
    requires other in db.users && other != id && Some(db.users[other].username) == d.username
    ensures UpdateProfileSpec(db, Some(id), d) == (db, ProfileUpdateFailed)
  {
  }

  /** Sending the same update twice leaves the store as sending it once. */
  lemma UpdateIdempotent(db: Db, userId: Option<int>, d: ProfileInput)
    requires Consistent(db)
    ensures var once := UpdateProfileSpec(db, userId, d).0;
            UpdateProfileSpec(once, userId, d).0 == once
  {
  }
}
