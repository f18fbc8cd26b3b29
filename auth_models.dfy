/**
  The user model of auth_app/models.py: a user is identified by an email
  address or a phone number (at least one), the manager creates users and
  superusers and finds a user by either identifier, and phone numbers follow
  the pattern `^\+?1?\d{9,15}$` with at most 17 characters.

  A Python value "is given" when it is neither `None` nor empty: `Given`.
 */
module AuthModels {
  import opened Wrappers

  predicate Given(s: Option<string>) {
    s.Some? && s.value != ""
  }

  datatype AuthError =
    | IdentifierRequired    // neither email nor phone number (create_user, clean)
    | StaffRequired         // a superuser with is_staff other than True
    | SuperuserRequired     // a superuser with is_superuser other than True
    | IntegrityError        // the email or phone number is already stored (unique columns)

  /**
    The stored fields of a user that the core reads. `id` is `None` until the
    user is saved; `password` is the password the stored hash is made from
    (`None` is an unusable password).
   */
  datatype User = User(
    id: Option<nat>, email: Option<string>, phoneNumber: Option<string>,
    password: Option<string>, isStaff: bool, isSuperuser: bool, isActive: bool)
  {
    /** `get_username`: the email when given, otherwise the phone number as stored. */
    function GetUsername(): (r: Option<string>)
      ensures Given(email) ==> r == email
      ensures !Given(email) ==> r == phoneNumber
    {
      if Given(email) then email else phoneNumber
    }

    /** `__str__`: the email, else the phone number, else `User <id>`. */
    function Display(): (r: string)
      ensures r != ""
      ensures Given(email) ==> r == email.value
      ensures !Given(email) && Given(phoneNumber) ==> r == phoneNumber.value
      ensures !Given(email) && !Given(phoneNumber) ==> r == "User " + IdText(id)
    {
      if Given(email) then email.value
      else if Given(phoneNumber) then phoneNumber.value
      else "User " + IdText(id)
    }

    /** `clean`: a validation error exactly when neither identifier is given. */
    function Clean(): (r: Option<AuthError>)
      ensures r.Some? <==> !Given(email) && !Given(phoneNumber)
      ensures r.Some? ==> r.value == IdentifierRequired
    {
      if !Given(email) && !Given(phoneNumber) then Some(IdentifierRequired) else None
    }
  }

  /** A user that passes `clean` is shown by its username, and that username is given. */
  lemma CleanUserDisplay(u: User)
    requires u.Clean().None?
    ensures Given(u.GetUsername()) && u.Display() == u.GetUsername().value
  {
  }

  /** Python's rendering of an optional id in an f-string. */
  function IdText(id: Option<nat>): (r: string)
    ensures r != ""
  {
    match id
    case None => "None"
    case Some(n) => DecimalText(n)
  }

  /** The decimal digits of `n`, without leading zeros. */
  function DecimalText(n: nat): (r: string)
    ensures |r| > 0 && forall i :: 0 <= i < |r| ==> '0' <= r[i] <= '9'
    ensures r[0] == '0' ==> n == 0
  {
    if n < 10 then [DigitChar(n)] else DecimalText(n / 10) + [DigitChar(n % 10)]
  }

  function DigitChar(d: nat): (c: char)
    requires d < 10
    ensures '0' <= c <= '9' && c as int - '0' as int == d
  {
    (d + '0' as int) as char
  }

  /** The number a string of decimal digits denotes. */
  function DecimalValue(s: string): nat
    requires forall i :: 0 <= i < |s| ==> '0' <= s[i] <= '9'
  {
    if s == [] then 0
    else 10 * DecimalValue(s[..|s| - 1]) + (s[|s| - 1] as int - '0' as int)
  }

  /** `User <id>` names the id it was made from: the decimal text reads back as `n`. */
  lemma {:induction false} DecimalRoundTrip(n: nat)
    ensures DecimalValue(DecimalText(n)) == n
  {
    if n >= 10 {
      DecimalRoundTrip(n / 10);
      var s := DecimalText(n);
      assert s[..|s| - 1] == DecimalText(n / 10);
    }
  }

  // ---------------------------------------------------------------------------
  // Phone numbers

  const PhoneMaxLength: nat := 17

  predicate IsDigit(c: char) {
    '0' <= c <= '9'
  }

  /** `\d{9,15}`: nine to fifteen digits. */
  predicate DigitRun(s: string) {
    9 <= |s| <= 15 && forall i :: 0 <= i < |s| ==> IsDigit(s[i])
  }

  /** `\+?1?\d{9,15}` over the whole of `s`; a `+` can only be taken as the optional sign. */
  predicate MatchesPhoneBody(s: string) {
    var rest := if |s| > 0 && s[0] == '+' then s[1..] else s;
    DigitRun(rest) || (|rest| > 0 && rest[0] == '1' && DigitRun(rest[1..]))
  }

  /**
    `phone_regex`: the validator searches for `^\+?1?\d{9,15}$`, and Python's
    `$` matches at the end of the string or just before a final newline.
   */
  predicate MatchesPhoneRegex(s: string) {
    MatchesPhoneBody(s) || (|s| > 0 && s[|s| - 1] == '\n' && MatchesPhoneBody(s[..|s| - 1]))
  }

  /**
    A phone number the field's validators accept: the regex and
    `max_length=17`. A blank or missing phone number (`blank=True,
    null=True`) skips the validators altogether.
   */
  predicate ValidPhoneNumber(s: string) {
    MatchesPhoneRegex(s) && |s| <= PhoneMaxLength
  }

  /** The optional prefixes `\+?1?` can match. */
  predicate PhonePrefix(p: string) {
    p == "" || p == "+" || p == "1" || p == "+1"
  }

  /** The regex as a grammar: some prefix of at most two characters, then a digit run. */
  ghost predicate PhoneGrammar(s: string) {
    exists k :: 0 <= k <= 2 && k <= |s| && PhonePrefix(s[..k]) && DigitRun(s[k..])
  }

  /** The matcher accepts exactly the strings of the grammar. */
  lemma PhoneBodyIsGrammar(s: string)
    ensures MatchesPhoneBody(s) <==> PhoneGrammar(s)
  {
    if MatchesPhoneBody(s) {
      var rest := if |s| > 0 && s[0] == '+' then s[1..] else s;
      var k := (if |s| > 0 && s[0] == '+' then 1 else 0) + (if DigitRun(rest) then 0 else 1);
      assert s[k..] == if DigitRun(rest) then rest else rest[1..];
      assert PhonePrefix(s[..k]);
    }
    if PhoneGrammar(s) {
      var k :| 0 <= k <= 2 && k <= |s| && PhonePrefix(s[..k]) && DigitRun(s[k..]);
      if k == 0 {
        assert s == s[k..];
      } else if k == 1 {
        assert s[1..] == s[k..];
      } else {
        assert s[2..] == s[k..] && s[1..][1..] == s[2..];
      }
    }
  }

  /** A matched phone body has 9 to 17 characters, so the length limit only bites on a trailing newline. */
  lemma PhoneBodyLength(s: string)
    ensures MatchesPhoneBody(s) ==> 9 <= |s| <= PhoneMaxLength
  {
  }

  /**
    A valid phone number is a matched body, or a matched body of at most 16
    characters followed by a newline.
   */
  lemma ValidPhoneNumberCases(s: string)
    ensures ValidPhoneNumber(s) <==>
              MatchesPhoneBody(s) ||
              (|s| > 0 && s[|s| - 1] == '\n' && |s| <= PhoneMaxLength && MatchesPhoneBody(s[..|s| - 1]))
  {
    PhoneBodyLength(s);
  }

  /** Examples: a North American number, a number followed by a newline, and a too short one. */
  lemma PhoneExamples()
    ensures ValidPhoneNumber("+15551234567")
    ensures ValidPhoneNumber("+123456789\n")
    ensures !MatchesPhoneRegex("12345678")
  {
    assert MatchesPhoneBody("+15551234567") by {
      assert "+15551234567"[1..] == "15551234567";
    }
    assert "+123456789\n"[..10] == "+123456789";
    assert MatchesPhoneBody("+123456789") by {
      assert "+123456789"[1..] == "123456789";
    }
  }

  // ---------------------------------------------------------------------------
  // The manager

  /** The outcome of `get_by_natural_key`, a `get` that must match exactly one user. */
  datatype NaturalKeyResult = Found(user: User) | DoesNotExist | MultipleObjectsReturned

  /** `Q(email=username) | Q(phone_number=username)` holds of `u`. */
  predicate HoldsKey(u: User, username: string) {
    u.email == Some(username) || u.phoneNumber == Some(username)
  }

  /** The users whose email or phone number equals `username`. */
  function Matching(users: seq<User>, username: string): (r: seq<User>)
    ensures forall u :: u in r ==> u in users && HoldsKey(u, username)
    ensures forall u :: u in users && HoldsKey(u, username) ==> u in r
    ensures |r| <= |users|
    ensures r == [] <==> forall u :: u in users ==> !HoldsKey(u, username)
  {
    if users == [] then []
    else
      var u := users[0];
      (if HoldsKey(u, username) then [u] else []) + Matching(users[1..], username)
  }

  /** The number of stored positions whose user holds the key. */
  function Holders(users: seq<User>, username: string): nat {
    if users == [] then 0
    else (if HoldsKey(users[0], username) then 1 else 0) + Holders(users[1..], username)
  }

  /** `Matching` keeps one user per stored position that holds the key. */
  lemma {:induction false} MatchingLength(users: seq<User>, username: string)
    ensures |Matching(users, username)| == Holders(users, username)
  {
    if users != [] {
      MatchingLength(users[1..], username);
    }
  }

  /** A stored position holding the key is counted. */
  lemma {:induction false} HolderCounted(users: seq<User>, username: string, j: nat)
    requires j < |users| && HoldsKey(users[j], username)
    ensures Holders(users, username) >= 1
  {
    if !HoldsKey(users[0], username) {
      assert users[1..][j - 1] == users[j];
      HolderCounted(users[1..], username, j - 1);
    }
  }

  /** Two stored positions holding the key are both counted. */
  lemma {:induction false} TwoHoldersCounted(users: seq<User>, username: string, i: nat, j: nat)
    requires i < j < |users| && HoldsKey(users[i], username) && HoldsKey(users[j], username)
    ensures Holders(users, username) >= 2
  {
    var tail := users[1..];
    assert tail[j - 1] == users[j];
    if i > 0 {
      assert tail[i - 1] == users[i];
      TwoHoldersCounted(tail, username, i - 1, j - 1);
    } else {
      HolderCounted(tail, username, j - 1);
    }
  }

  /** A positive count has a stored position holding the key. */
  lemma {:induction false} CountedHolder(users: seq<User>, username: string) returns (j: nat)
    requires Holders(users, username) >= 1
    ensures j < |users| && HoldsKey(users[j], username)
  {
    j := 0;
    if !HoldsKey(users[0], username) {
      var j' := CountedHolder(users[1..], username);
      assert users[1..][j'] == users[j' + 1];
      j := j' + 1;
    }
  }

  /** A count of two has two stored positions holding the key. */
  lemma {:induction false} CountedTwoHolders(users: seq<User>, username: string) returns (i: nat, j: nat)
    requires Holders(users, username) >= 2
    ensures i < j < |users| && HoldsKey(users[i], username) && HoldsKey(users[j], username)
  {
    var tail := users[1..];
    if HoldsKey(users[0], username) {
      var k := CountedHolder(tail, username);
      assert tail[k] == users[k + 1];
      i, j := 0, k + 1;
    } else {
      var i', j' := CountedTwoHolders(tail, username);
      assert tail[i'] == users[i' + 1] && tail[j'] == users[j' + 1];
      i, j := i' + 1, j' + 1;
    }
  }

  /** At least two users match exactly when two stored positions hold the key. */
  lemma MatchingTwo(users: seq<User>, username: string)
    ensures |Matching(users, username)| >= 2 <==>
              exists i, j :: 0 <= i < j < |users| && HoldsKey(users[i], username) && HoldsKey(users[j], username)
  {
    MatchingLength(users, username);
    if Holders(users, username) >= 2 {
      var i, j := CountedTwoHolders(users, username);
    }
    if exists i, j :: 0 <= i < j < |users| && HoldsKey(users[i], username) && HoldsKey(users[j], username) {
      var i, j :| 0 <= i < j < |users| && HoldsKey(users[i], username) && HoldsKey(users[j], username);
      TwoHoldersCounted(users, username, i, j);
    }
  }

  /**
    `get_by_natural_key`: the one user whose email or phone number is
    `username`; `get` fails when there is none, or when two stored users hold it.
   */
  function GetByNaturalKey(users: seq<User>, username: string): (r: NaturalKeyResult)
    ensures r.Found? ==> r.user in users && HoldsKey(r.user, username)
    ensures r.Found? ==> forall u :: u in users && HoldsKey(u, username) ==> u == r.user
    ensures r == DoesNotExist <==> forall u :: u in users ==> !HoldsKey(u, username)
    ensures r == MultipleObjectsReturned <==>
              exists i, j :: 0 <= i < j < |users| && HoldsKey(users[i], username) && HoldsKey(users[j], username)
  {
    MatchingTwo(users, username);
    var m := Matching(users, username);
    if |m| == 0 then DoesNotExist
    else if |m| == 1 then
      assert forall u :: u in m ==> u == m[0];
      Found(m[0])
    else MultipleObjectsReturned
  }

  /** The flag `extra_fields` names, with the default a user gets when the flag is absent. */
  function Flag(flags: map<string, bool>, name: string, default: bool): bool {
    if name in flags then flags[name] else default
  }

  /** Email and phone number are unique columns: a stored value is held by at most one user. */
  ghost predicate UniqueIdentifiers(users: seq<User>) {
    forall i, j :: 0 <= i < j < |users| ==>
      (users[i].email.Some? ==> users[i].email != users[j].email) &&
      (users[i].phoneNumber.Some? ==> users[i].phoneNumber != users[j].phoneNumber) &&
      users[i].id != users[j].id
  }

  /** An email or phone number some stored user already holds. */
  predicate Taken(users: seq<User>, email: Option<string>, phoneNumber: Option<string>) {
    exists u :: u in users && ((email.Some? && u.email == email) || (phoneNumber.Some? && u.phoneNumber == phoneNumber))
  }

  /** The user table and `CustomUserManager`. */
  class UserManager {
    var users: seq<User>
    var nextId: nat

    ghost predicate Valid()
      reads this
    {
      UniqueIdentifiers(users) &&
      forall u :: u in users ==> u.id.Some? && u.id.value < nextId
    }

    constructor ()
      ensures Valid() && users == []
    {
      users := [];
      nextId := 1;
    }

    /**
      `create_user`: fails when neither identifier is given; otherwise the
      email, when given, is normalised (`normalize` stands for the framework's
      `normalize_email`), the phone number is kept as supplied, the flags of
      `extra_fields` are set, and the user is saved. Saving fails when a
      stored user already holds the email or phone number.
     */
    method CreateUser(email: Option<string>, phoneNumber: Option<string>, password: Option<string>,
                      flags: map<string, bool>, normalize: string -> string)
      returns (r: Result<User, AuthError>)
      requires Valid()
      modifies this
      ensures Valid()
      ensures r == Err(IdentifierRequired) <==> !Given(email) && !Given(phoneNumber)
      ensures r.Err? ==> users == old(users)
      ensures var stored := if Given(email) then Some(normalize(email.value)) else email;
              r.Ok? <==> (Given(email) || Given(phoneNumber)) && !Taken(old(users), stored, phoneNumber)
      ensures var stored := if Given(email) then Some(normalize(email.value)) else email;
              r == Err(IntegrityError) <==> (Given(email) || Given(phoneNumber)) && Taken(old(users), stored, phoneNumber)
      ensures r.Ok? ==>
                r.value == User(Some(old(nextId)), if Given(email) then Some(normalize(email.value)) else email,
                                phoneNumber, password, Flag(flags, "is_staff", false),
                                Flag(flags, "is_superuser", false), Flag(flags, "is_active", true)) &&
                users == old(users) + [r.value]
    {
      if !Given(email) && !Given(phoneNumber) {
        return Err(IdentifierRequired);
      }
      var e := email;
      if Given(email) {
        e := Some(normalize(email.value));
      }
      var user := User(None, e, phoneNumber, None, Flag(flags, "is_staff", false),
                       Flag(flags, "is_superuser", false), Flag(flags, "is_active", true));
      user := user.(password := password);
      if Taken(users, e, phoneNumber) {
        return Err(IntegrityError);
      }
      user := user.(id := Some(nextId));
      users := users + [user];
      nextId := nextId + 1;
      r := Ok(user);
    }

    /**
      `create_superuser`: `is_staff`, `is_superuser` and `is_active` default to
      true; a caller's `is_staff` or `is_superuser` of false is refused before
      anything is stored; then the user is created by email alone.
     */
    method CreateSuperuser(email: Option<string>, password: Option<string>,
                           flags: map<string, bool>, normalize: string -> string)
      returns (r: Result<User, AuthError>)
      requires Valid()
      modifies this
      ensures Valid()
      ensures Flag(flags, "is_staff", true) == false ==> r == Err(StaffRequired) && users == old(users)
      ensures Flag(flags, "is_staff", true) && !Flag(flags, "is_superuser", true) ==>
                r == Err(SuperuserRequired) && users == old(users)
      ensures r.Ok? ==> r.value.isStaff && r.value.isSuperuser &&
                        r.value.isActive == Flag(flags, "is_active", true) &&
                        r.value.phoneNumber == None && Given(email) && users == old(users) + [r.value]
      ensures Flag(flags, "is_staff", true) && Flag(flags, "is_superuser", true) && !Given(email) ==>
                r == Err(IdentifierRequired)
      ensures Flag(flags, "is_staff", true) && Flag(flags, "is_superuser", true) && Given(email) ==>
                (r.Ok? <==> !Taken(old(users), Some(normalize(email.value)), None)) &&
                (r.Err? <==> r == Err(IntegrityError))
      ensures r.Ok? ==> Given(email) && r.value.email == Some(normalize(email.value)) &&
                        r.value.password == password && r.value.id == Some(old(nextId))
      ensures r.Err? ==> users == old(users)
    {
      var extra := flags;
      if "is_staff" !in extra {
        extra := extra["is_staff" := true];
      }
      if "is_superuser" !in extra {
        extra := extra["is_superuser" := true];
      }
      if "is_active" !in extra {
        extra := extra["is_active" := true];
      }
      if extra["is_staff"] != true {
        return Err(StaffRequired);
      }
      if extra["is_superuser"] != true {
        return Err(SuperuserRequired);
      }
      r := CreateUser(email, None, password, extra, normalize);
    }
  }

  /** Every user `create_user` stores passes `clean` when normalising keeps a given email non-empty. */
  lemma CreatedUserIsClean(email: Option<string>, phoneNumber: Option<string>, u: User, normalize: string -> string)
    requires Given(email) || Given(phoneNumber)
    requires u.email == (if Given(email) then Some(normalize(email.value)) else email) && u.phoneNumber == phoneNumber
    requires Given(email) ==> normalize(email.value) != ""
    ensures u.Clean().None?
  {
  }

  /**
    When no stored email equals a stored phone number, a natural key never
    matches two users: the lookup finds the one holder of the identifier.
   */
  lemma {:induction false} NaturalKeyUnique(users: seq<User>, username: string)
    requires UniqueIdentifiers(users)
    requires forall u, v :: u in users && v in users && u.email.Some? ==> u.email != v.phoneNumber
    ensures GetByNaturalKey(users, username) != MultipleObjectsReturned
  {
    var m := Matching(users, username);
    if |m| >= 2 {
      MatchingAtMostOne(users, username);
    }
  }

  lemma {:induction false} MatchingAtMostOne(users: seq<User>, username: string)
    requires UniqueIdentifiers(users)
    requires forall u, v :: u in users && v in users && u.email.Some? ==> u.email != v.phoneNumber
    ensures |Matching(users, username)| <= 1
  {
    if users != [] {
      var tail := users[1..];
      assert UniqueIdentifiers(tail) by {
        forall i, j | 0 <= i < j < |tail|
          ensures (tail[i].email.Some? ==> tail[i].email != tail[j].email) &&
                  (tail[i].phoneNumber.Some? ==> tail[i].phoneNumber != tail[j].phoneNumber) &&
                  tail[i].id != tail[j].id
        {
          assert tail[i] == users[i + 1] && tail[j] == users[j + 1];
        }
      }
      MatchingAtMostOne(tail, username);
      var u := users[0];
      if u.email == Some(username) || u.phoneNumber == Some(username) {
        forall v | v in tail ensures v.email != Some(username) && v.phoneNumber != Some(username) {
          var j :| 0 <= j < |tail| && tail[j] == v;
          assert users[j + 1] == v;
        }
      }
    }
  }
}
