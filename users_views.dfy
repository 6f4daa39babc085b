/** The registration endpoint of users/views.py: the required-field check,
    the four uniqueness checks in their order, and the creation of an
    account with an unverified profile. */
module Registration {
  import opened Common
  import opened Users
  import opened Storage

  /** The fields the endpoint reads from the request body; any other key
      of the body is ignored. */
  datatype Field =
    | Username | Email | Password | FirstName | LastName | Phone
    | Address | City | State | ZipCode | LicenseNumber | DateOfBirth

  /** The request body: the submitted text of each field present. */
  type Form = map<Field, string>

  /** Every field is required, in this order. */
  const RequiredFields: seq<Field> := [
    Username, Email, Password, FirstName, LastName, Phone,
    Address, City, State, ZipCode, LicenseNumber, DateOfBirth]

  lemma EveryFieldRequired(f: Field)
    ensures f in RequiredFields
  {
    match f
    case Username => assert RequiredFields[0] == f;
    case Email => assert RequiredFields[1] == f;
    case Password => assert RequiredFields[2] == f;
    case FirstName => assert RequiredFields[3] == f;
    case LastName => assert RequiredFields[4] == f;
    case Phone => assert RequiredFields[5] == f;
    case Address => assert RequiredFields[6] == f;
    case City => assert RequiredFields[7] == f;
    case State => assert RequiredFields[8] == f;
    case ZipCode => assert RequiredFields[9] == f;
    case LicenseNumber => assert RequiredFields[10] == f;
    case DateOfBirth => assert RequiredFields[11] == f;
  }

  /** A field counts as missing when it is absent or empty. */
  predicate Absent(data: Form, f: Field) {
    f !in data || data[f] == ""
  }

  /** `a` is `b` with some elements left out, the rest in their order. */
  predicate IsSubsequence(a: seq<Field>, b: seq<Field>)
    decreases |b|
  {
    if a == [] then true
    else if b == [] then false
    else (a[0] == b[0] && IsSubsequence(a[1..], b[1..])) || IsSubsequence(a, b[1..])
  }

  /** The missing fields among `fields`, in the order of `fields`. */
  function MissingAmong(data: Form, fields: seq<Field>): (missing: seq<Field>)
    ensures forall f :: f in missing <==> f in fields && Absent(data, f)
    ensures IsSubsequence(missing, fields)
    decreases |fields|
  {
    if fields == [] then []
    else
      var rest := MissingAmong(data, fields[1..]);
      if Absent(data, fields[0]) then [fields[0]] + rest else rest
  }

  /** The missing required fields, in the order of `RequiredFields`. */
  function Missing(data: Form): (missing: seq<Field>)
    ensures forall f :: f in missing <==> Absent(data, f)
    ensures IsSubsequence(missing, RequiredFields)
  {
    var m := MissingAmong(data, RequiredFields);
    forall f: Field ensures f in m <==> Absent(data, f) {
      EveryFieldRequired(f);
    }
    m
  }

  /** Every field present and non-empty. */
  predicate Complete(data: Form) {
    forall f :: f in data && data[f] != ""
  }

  lemma NothingMissing(data: Form)
    ensures Missing(data) == [] <==> Complete(data)
  {
    var m := Missing(data);
    if m != [] {
      assert m[0] in m;
    } else {
      forall f ensures f in data && data[f] != "" {
        assert f !in m;
      }
    }
  }

  /** The report for a sequence of fields is the report for its first part
      followed by the report for the rest. */
  lemma {:induction false} MissingAmongAppend(data: Form, a: seq<Field>, b: seq<Field>)
    ensures MissingAmong(data, a + b) == MissingAmong(data, a) + MissingAmong(data, b)
    decreases |a|
  {
    if a == [] {
      assert a + b == b;
    } else {
      assert (a + b)[1..] == a[1..] + b;
      MissingAmongAppend(data, a[1..], b);
    }
  }

  datatype RegisterError =
    | MissingFields(fields: seq<Field>)
    | UsernameTaken
    | EmailTaken
    | PhoneTaken
    | LicenseTaken

  predicate UsernameInUse(users: map<Id, Account>, username: string) {
    exists id :: id in users && users[id].username == username
  }

  predicate EmailInUse(users: map<Id, Account>, email: string) {
    exists id :: id in users && users[id].email == email
  }

  predicate PhoneInUse(profiles: map<Id, UserProfile>, phone: string) {
    exists id :: id in profiles && profiles[id].phone == phone
  }

  predicate LicenseInUse(profiles: map<Id, UserProfile>, license: string) {
    exists id :: id in profiles && profiles[id].licenseNumber == license
  }

  /** The checks before anything is written: missing fields first, then
      username, email, phone and license number, the first failure wins. */
  function RegistrationCheck(users: map<Id, Account>, profiles: map<Id, UserProfile>, data: Form)
    : (res: Outcome<RegisterError>)
    ensures !Complete(data) ==> res == Fail(MissingFields(Missing(data)))
    ensures res.Pass? <==>
      && Complete(data)
      && !UsernameInUse(users, data[Username]) && !EmailInUse(users, data[Email])
      && !PhoneInUse(profiles, data[Phone]) && !LicenseInUse(profiles, data[LicenseNumber])
    ensures res.Fail? && res.error.MissingFields? <==> !Complete(data)
    ensures res == Fail(UsernameTaken) <==> Complete(data) && UsernameInUse(users, data[Username])
    ensures res == Fail(EmailTaken) <==>
      Complete(data) && !UsernameInUse(users, data[Username]) && EmailInUse(users, data[Email])
    ensures res == Fail(PhoneTaken) <==>
      && Complete(data) && !UsernameInUse(users, data[Username]) && !EmailInUse(users, data[Email])
      && PhoneInUse(profiles, data[Phone])
    ensures res == Fail(LicenseTaken) <==>
      && Complete(data) && !UsernameInUse(users, data[Username]) && !EmailInUse(users, data[Email])
      && !PhoneInUse(profiles, data[Phone]) && LicenseInUse(profiles, data[LicenseNumber])
  {
    if !Complete(data) then Fail(MissingFields(Missing(data)))
    else if UsernameInUse(users, data[Username]) then Fail(UsernameTaken)
    else if EmailInUse(users, data[Email]) then Fail(EmailTaken)
    else if PhoneInUse(profiles, data[Phone]) then Fail(PhoneTaken)
    else if LicenseInUse(profiles, data[LicenseNumber]) then Fail(LicenseTaken)
    else Pass
  }

  // ---------------------------------------------------------------------
  // What create_user does to the submitted username and email.

  /** The characters Python's str.strip() removes. */
  predicate IsSpace(c: char) {
    var n := c as int;
    || (9 <= n <= 13) || (28 <= n <= 32) || n == 0x85 || n == 0xA0 || n == 0x1680
    || (0x2000 <= n <= 0x200A) || n == 0x2028 || n == 0x2029 || n == 0x202F || n == 0x205F || n == 0x3000
  }

  /** No whitespace at either end. */
  predicate Stripped(s: string) {
    s == [] || (!IsSpace(s[0]) && !IsSpace(s[|s| - 1]))
  }

  /** No '@' among the positions lo..hi-1 of s. */
  predicate NoAtBetween(s: string, lo: int, hi: int) {
    forall k :: lo <= k < hi && 0 <= k < |s| ==> s[k] != '@'
  }

  /** The first position from `i` on that is not whitespace. */
  function SkipSpaces(s: string, i: nat): (j: nat)
    requires i <= |s|
    ensures i <= j <= |s| && (j < |s| ==> !IsSpace(s[j]))
    ensures forall k :: i <= k < j ==> IsSpace(s[k])
    decreases |s| - i
  {
    if i < |s| && IsSpace(s[i]) then SkipSpaces(s, i + 1) else i
  }

  /** Where `s[lo..hi]` ends once its trailing whitespace is dropped. */
  function TrimEnd(s: string, lo: nat, hi: nat): (j: nat)
    requires lo <= hi <= |s|
    ensures lo <= j <= hi && (lo < j ==> !IsSpace(s[j - 1]))
    ensures forall k :: j <= k < hi ==> IsSpace(s[k])
    decreases hi
  {
    if lo < hi && IsSpace(s[hi - 1]) then TrimEnd(s, lo, hi - 1) else hi
  }

  /** str.strip(): the whitespace at both ends removed, and nothing else. */
  function Strip(s: string): (r: string)
    ensures Stripped(r) && |r| <= |s|
    ensures exists i, j :: (0 <= i <= j <= |s| && r == s[i..j] &&
                            (forall k :: 0 <= k < i ==> IsSpace(s[k])) && (forall k :: j <= k < |s| ==> IsSpace(s[k])))
    ensures NoAtBetween(s, 0, |s|) ==> NoAtBetween(r, 0, |r|)
  {
    var i := SkipSpaces(s, 0);
    s[i..TrimEnd(s, i, |s|)]
  }

  lemma StripKeepsStripped(s: string)
    requires Stripped(s)
    ensures Strip(s) == s
  {
    assert SkipSpaces(s, 0) == 0;
    assert TrimEnd(s, 0, |s|) == |s|;
  }

  /** The position of the last '@' before n, where str.rsplit('@', 1)
      splits when n is the length. */
  function LastAt(s: string, n: nat): (i: Option<nat>)
    requires n <= |s|
    ensures i.Some? ==> i.value < n && s[i.value] == '@' && NoAtBetween(s, i.value + 1, n)
    ensures i.None? ==> NoAtBetween(s, 0, n)
    decreases n
  {
    if n == 0 then None else if s[n - 1] == '@' then Some(n - 1) else LastAt(s, n - 1)
  }

  lemma LastAtIsTheLast(s: string, i: nat)
    requires i < |s| && s[i] == '@' && NoAtBetween(s, i + 1, |s|)
    ensures LastAt(s, |s|) == Some(i)
  {
    assert s[i] == '@';
  }

  function LowerChar(c: char): char {
    if 'A' <= c <= 'Z' then (c as int + 32) as char else c
  }

  /** str.lower() on the ASCII letters; every other character is kept. */
  function LowerAscii(s: string): (r: string)
    ensures |r| == |s|
    ensures forall k :: 0 <= k < |r| ==> !('A' <= r[k] <= 'Z')
    ensures forall k :: 0 <= k < |s| && !('A' <= s[k] <= 'Z') ==> r[k] == s[k]
    ensures forall k :: 0 <= k < |s| && 'A' <= s[k] <= 'Z' ==> r[k] as int == s[k] as int + 32
  {
    seq(|s|, k requires 0 <= k < |s| => LowerChar(s[k]))
  }

  /** normalize_email: the address stripped and split at its last '@', the
      domain lowercased; an address without '@' is kept as it was sent. */
  function NormalizeEmail(e: string): (r: string)
    ensures NoAtBetween(e, 0, |e|) ==> r == e
  {
    var t := Strip(e);
    match LastAt(t, |t|)
    case None => e
    case Some(i) => t[..i] + "@" + LowerAscii(t[i + 1..])
  }

  /** A stripped address is split at its last '@' and its domain lowercased. */
  lemma NormalizeAtLastAt(e: string, i: nat)
    requires Stripped(e) && i < |e| && e[i] == '@' && NoAtBetween(e, i + 1, |e|)
    ensures NormalizeEmail(e) == e[..i] + "@" + LowerAscii(e[i + 1..])
  {
    StripKeepsStripped(e);
    LastAtIsTheLast(e, i);
  }

  /** An address with a local part and a domain, no whitespace around it:
      the local part is kept and the domain after the last '@' lowercased. */
  lemma NormalizeEmailLowersDomain(local: string, domain: string)
    requires NoAtBetween(domain, 0, |domain|) && Stripped(local + "@" + domain)
    ensures NormalizeEmail(local + "@" + domain) == local + "@" + LowerAscii(domain)
  {
    var e := local + "@" + domain;
    assert e[|local| + 1..] == domain && e[..|local|] == local;
    assert NoAtBetween(e, |local| + 1, |e|) by {
      forall k | |local| + 1 <= k < |e| ensures e[k] != '@' {
        assert e[k] == domain[k - |local| - 1];
      }
    }
    NormalizeAtLastAt(e, |local|);
  }

  lemma LowerAsciiIdempotent(s: string)
    ensures LowerAscii(LowerAscii(s)) == LowerAscii(s)
  {
  }

  /** Lowercasing neither adds nor removes an '@' or whitespace. */
  lemma LowerAsciiKeepsMarks(s: string)
    ensures NoAtBetween(s, 0, |s|) ==> NoAtBetween(LowerAscii(s), 0, |s|)
    ensures s != [] ==> (IsSpace(LowerAscii(s)[|s| - 1]) <==> IsSpace(s[|s| - 1]))
  {
  }

  /** Splitting a stripped address at an '@' and lowercasing what follows
      leaves no whitespace at either end. */
  lemma SplitAddressStripped(t: string, i: nat)
    requires Stripped(t) && i < |t| && t[i] == '@'
    ensures Stripped(t[..i] + "@" + LowerAscii(t[i + 1..]))
  {
    var d := t[i + 1..];
    LowerAsciiKeepsMarks(d);
    if d != [] {
      assert d[|d| - 1] == t[|t| - 1];
    }
  }

  /** Splitting a stripped address at its last '@' and lowercasing the
      domain gives an address that normalizes to itself. */
  lemma SplitAddressNormal(t: string, i: nat)
    requires Stripped(t) && i < |t| && t[i] == '@' && NoAtBetween(t, i + 1, |t|)
    ensures var r := t[..i] + "@" + LowerAscii(t[i + 1..]); NormalizeEmail(r) == r
  {
    var d := t[i + 1..];
    assert NoAtBetween(d, 0, |d|) by {
      forall k | 0 <= k < |d| ensures d[k] != '@' {
        assert d[k] == t[i + 1 + k];
      }
    }
    SplitAddressStripped(t, i);
    LowerAsciiKeepsMarks(d);
    NormalizeEmailLowersDomain(t[..i], LowerAscii(d));
    LowerAsciiIdempotent(d);
  }

  /** A normalized address normalizes to itself. */
  lemma NormalizeEmailIdempotent(e: string)
    ensures NormalizeEmail(NormalizeEmail(e)) == NormalizeEmail(e)
  {
    var t := Strip(e);
    var i := LastAt(t, |t|);
    if i.Some? {
      SplitAddressNormal(t, i.value);
    } else {
      assert NormalizeEmail(e) == e;
    }
  }

  // ---------------------------------------------------------------------
  // Creating the account and the profile.

  /** The account create_user builds: the username in the normal form
      `nfkc` gives it (Unicode NFKC), the email normalized, the submitted
      names, active and not staff. */
  function NewAccount(data: Form, nfkc: string -> string): (a: Account)
    requires Complete(data)
    ensures a.isActive && !a.isStaff
    ensures a.firstName == data[FirstName] && a.lastName == data[LastName]
    ensures a.username == nfkc(data[Username]) && a.email == NormalizeEmail(data[Email])
    ensures NormalizeEmail(a.email) == a.email
  {
    NormalizeEmailIdempotent(data[Email]);
    Account(nfkc(data[Username]), NormalizeEmail(data[Email]), data[FirstName], data[LastName], true, false)
  }

  /** The profile created: the submitted details as sent, unverified and
      active. */
  function NewProfile(data: Form): (p: UserProfile)
    requires Complete(data)
    ensures !p.isVerified && p.isActive
    ensures p.phone == data[Phone] && p.licenseNumber == data[LicenseNumber]
  {
    UserProfile(data[Phone], data[Address], data[City], data[State], data[ZipCode],
                data[LicenseNumber], data[DateOfBirth], false, true)
  }

  /** A newly registered customer cannot book until verified. */
  lemma FreshRegistrantCannotReserve(data: Form)
    requires Complete(data)
    ensures !CanMakeReservations(NewProfile(data))
  {
  }

  /** What the endpoint ends with: 201, a 400 naming the failed check, or
      the IntegrityError (a 500) of saving a username that is taken once
      normalized. */
  datatype RegisterResult = Created | Rejected(error: RegisterError) | UsernameClash

  /** The checks on the raw values, then the save of the normalized account,
      which the unique username column refuses when the normal form is taken. */
  function RegistrationOutcome(users: map<Id, Account>, profiles: map<Id, UserProfile>, data: Form,
                               nfkc: string -> string): (res: RegisterResult)
    ensures res.Rejected? <==> RegistrationCheck(users, profiles, data).Fail?
    ensures res.Rejected? ==> res.error == RegistrationCheck(users, profiles, data).error
    ensures res == UsernameClash <==>
      RegistrationCheck(users, profiles, data).Pass? && UsernameInUse(users, nfkc(data[Username]))
  {
    match RegistrationCheck(users, profiles, data)
    case Fail(e) => Rejected(e)
    case Pass => if UsernameInUse(users, NewAccount(data, nfkc).username) then UsernameClash else Created
  }

  /** The clash can only happen when normalizing changes the username: an
      unchanged username was already found by the raw check. */
  lemma ClashOnlyWhenNormalizationChanges(users: map<Id, Account>, profiles: map<Id, UserProfile>, data: Form,
                                          nfkc: string -> string)
    requires RegistrationOutcome(users, profiles, data, nfkc) == UsernameClash
    ensures nfkc(data[Username]) != data[Username]
  {
  }

  /** Accounts hold distinct usernames (the unique username column), and
      profiles distinct phones and license numbers (unique columns too).
      Emails are not among them: nothing in the schema makes them unique. */
  predicate UniqueCredentials(users: map<Id, Account>, profiles: map<Id, UserProfile>) {
    && (forall a, b :: a in users && b in users && a != b ==> users[a].username != users[b].username)
    && (forall a, b :: a in profiles && b in profiles && a != b ==> profiles[a].phone != profiles[b].phone)
    && (forall a, b :: a in profiles && b in profiles && a != b ==>
          profiles[a].licenseNumber != profiles[b].licenseNumber)
  }

  /** Adding an account whose username nobody holds keeps usernames unique. */
  lemma AddAccountKeepsUnique(users: map<Id, Account>, id: Id, acct: Account)
    requires forall a, b :: a in users && b in users && a != b ==> users[a].username != users[b].username
    requires id !in users && !UsernameInUse(users, acct.username)
    ensures var users' := users[id := acct];
      forall a, b :: a in users' && b in users' && a != b ==> users'[a].username != users'[b].username
  {
    var users' := users[id := acct];
    forall a, b | a in users' && b in users' && a != b
      ensures users'[a].username != users'[b].username
    {
      if a == id {
        assert b in users && users'[b] == users[b];
      } else if b == id {
        assert a in users && users'[a] == users[a];
      }
    }
  }

  /** Adding a profile whose phone and license number nobody holds keeps
      both unique. */
  lemma AddProfileKeepsUnique(profiles: map<Id, UserProfile>, id: Id, p: UserProfile)
    requires forall a, b :: a in profiles && b in profiles && a != b ==> profiles[a].phone != profiles[b].phone
    requires forall a, b :: a in profiles && b in profiles && a != b ==>
      profiles[a].licenseNumber != profiles[b].licenseNumber
    requires id !in profiles && !PhoneInUse(profiles, p.phone) && !LicenseInUse(profiles, p.licenseNumber)
    ensures var profiles' := profiles[id := p];
      && (forall a, b :: a in profiles' && b in profiles' && a != b ==> profiles'[a].phone != profiles'[b].phone)
      && (forall a, b :: a in profiles' && b in profiles' && a != b ==>
            profiles'[a].licenseNumber != profiles'[b].licenseNumber)
  {
    var profiles' := profiles[id := p];
    forall a, b | a in profiles' && b in profiles' && a != b
      ensures profiles'[a].phone != profiles'[b].phone && profiles'[a].licenseNumber != profiles'[b].licenseNumber
    {
      if a == id {
        assert b in profiles && profiles'[b] == profiles[b];
      } else if b == id {
        assert a in profiles && profiles'[a] == profiles[a];
      }
    }
  }

  /** A registration that creates its rows under a fresh key keeps the
      unique columns unique. */
  lemma RegistrationKeepsCredentialsUnique(users: map<Id, Account>, profiles: map<Id, UserProfile>,
                                           data: Form, nfkc: string -> string, id: Id)
    requires UniqueCredentials(users, profiles) && id !in users && id !in profiles
    requires RegistrationOutcome(users, profiles, data, nfkc) == Created
    ensures UniqueCredentials(users[id := NewAccount(data, nfkc)], profiles[id := NewProfile(data)])
  {
    CreatedMeansFree(users, profiles, data, nfkc);
    FreeKeepsUnique(users, profiles, id, NewAccount(data, nfkc), NewProfile(data));
  }

  /** Adding an account and profile whose credentials nobody holds keeps them unique. */
  lemma FreeKeepsUnique(users: map<Id, Account>, profiles: map<Id, UserProfile>, id: Id,
                        acct: Account, p: UserProfile)
    requires UniqueCredentials(users, profiles) && id !in users && id !in profiles
    requires !UsernameInUse(users, acct.username)
    requires !PhoneInUse(profiles, p.phone) && !LicenseInUse(profiles, p.licenseNumber)
    ensures UniqueCredentials(users[id := acct], profiles[id := p])
  {
    AddAccountKeepsUnique(users, id, acct);
    AddProfileKeepsUnique(profiles, id, p);
  }

  /** A created account's username, phone and licence number were held by nobody. */
  lemma CreatedMeansFree(users: map<Id, Account>, profiles: map<Id, UserProfile>,
                         data: Form, nfkc: string -> string)
    requires RegistrationOutcome(users, profiles, data, nfkc) == Created
    ensures !UsernameInUse(users, NewAccount(data, nfkc).username)
    ensures !PhoneInUse(profiles, NewProfile(data).phone)
    ensures !LicenseInUse(profiles, NewProfile(data).licenseNumber)
  {
    assert RegistrationCheck(users, profiles, data).Pass?;
  }

  /** A username normal form that changes nothing, as NFKC does on ASCII. */
  function Unchanged(s: string): string {
    s
  }

  const ExistingAccounts: map<Id, Account> := map[1 := Account("ann", "a@x", "Ann", "Lee", true, false)]

  const ExistingProfiles: map<Id, UserProfile> :=
    map[1 := UserProfile("1", "Main St", "Town", "ST", "00001", "L1", "1990-01-01", true, true)]

  /** A registration by a new customer whose email differs from the stored
      "a@x" only in the case of its domain. */
  function SameEmailOtherCaseValue(f: Field): string {
    match f
    case Username => "bob"
    case Email => "a@X"
    case Password => "pw"
    case FirstName => "Bob"
    case LastName => "Ray"
    case Phone => "2"
    case Address => "Elm St"
    case City => "Town"
    case State => "ST"
    case ZipCode => "00002"
    case LicenseNumber => "L2"
    case DateOfBirth => "1991-02-02"
  }

  const SameEmailOtherCase: Form := map f | f in RequiredFields :: SameEmailOtherCaseValue(f)

  lemma SameEmailOtherCaseComplete()
    ensures Complete(SameEmailOtherCase)
  {
    forall f ensures f in SameEmailOtherCase && SameEmailOtherCase[f] != "" {
      EveryFieldRequired(f);
    }
  }

  lemma DomainLowered()
    ensures NormalizeEmail("a@X") == "a@x"
  {
    var e := "a@X";
    assert Stripped(e) && e[1] == '@' && e[2..] == "X";
    NormalizeAtLastAt(e, 1);
    assert LowerAscii("X") == "x" by {
      assert LowerAscii("X")[0] == LowerChar('X');
    }
    assert e[..1] + "@" + "x" == "a@x";
  }

  /** Nobody holds the form's username, email (as sent), phone or licence number. */
  lemma SameEmailOtherCaseFree()
    ensures Complete(SameEmailOtherCase)
    ensures !UsernameInUse(ExistingAccounts, SameEmailOtherCase[Username])
    ensures !EmailInUse(ExistingAccounts, SameEmailOtherCase[Email])
    ensures !PhoneInUse(ExistingProfiles, SameEmailOtherCase[Phone])
    ensures !LicenseInUse(ExistingProfiles, SameEmailOtherCase[LicenseNumber])
  {
    SameEmailOtherCaseComplete();
    SameEmailOtherCaseValues();
    CredentialsNotHeld();
  }

  lemma SameEmailOtherCaseValues()
    ensures Complete(SameEmailOtherCase)
    ensures SameEmailOtherCase[Username] == "bob" && SameEmailOtherCase[Email] == "a@X"
    ensures SameEmailOtherCase[Phone] == "2" && SameEmailOtherCase[LicenseNumber] == "L2"
  {
    SameEmailOtherCaseComplete();
  }

  /** The stored account and profile hold none of the test forms' credentials. */
  lemma CredentialsNotHeld()
    ensures !UsernameInUse(ExistingAccounts, "bob")
    ensures !EmailInUse(ExistingAccounts, "a@X") && !EmailInUse(ExistingAccounts, " a@x")
    ensures !PhoneInUse(ExistingProfiles, "2") && !LicenseInUse(ExistingProfiles, "L2")
  {
    assert ExistingAccounts.Keys == {1} && ExistingProfiles.Keys == {1};
    assert ExistingAccounts[1].username == "ann" && ExistingAccounts[1].email == "a@x";
    assert ExistingProfiles[1].phone == "1" && ExistingProfiles[1].licenseNumber == "L1";
    assert |" a@x"| != |"a@x"|;
  }

  lemma SameEmailOtherCasePassesChecks()
    ensures RegistrationCheck(ExistingAccounts, ExistingProfiles, SameEmailOtherCase) == Pass
  {
    SameEmailOtherCaseComplete();
    SameEmailOtherCaseFree();
  }

  /** The email check compares the address as sent with the stored,
      normalized ones, so an address differing only in the case of its
      domain passes and a second account with the same email is created. */
  lemma DomainCaseDefeatsEmailCheck()
    ensures Complete(SameEmailOtherCase)
    ensures RegistrationOutcome(ExistingAccounts, ExistingProfiles, SameEmailOtherCase, Unchanged) == Created
    ensures NewAccount(SameEmailOtherCase, Unchanged).email == ExistingAccounts[1].email
  {
    SameEmailOtherCaseComplete();
    SameEmailOtherCasePassesChecks();
    DomainLowered();
    assert !UsernameInUse(ExistingAccounts, "bob");
  }

  /** The same registration with the stored address sent with a leading
      blank. */
  const PaddedEmail: Form := SameEmailOtherCase[Email := " a@x"]

  lemma PaddingStripped()
    ensures NormalizeEmail(" a@x") == "a@x"
  {
    var e := " a@x";
    assert SkipSpaces(e, 0) == 1 by {
      assert IsSpace(e[0]) && !IsSpace(e[1]);
    }
    assert TrimEnd(e, 1, 4) == 4 by {
      assert !IsSpace(e[3]);
    }
    var t := Strip(e);
    assert t == "a@x" by {
      assert t == e[1..4];
    }
    LastAtIsTheLast(t, 1);
    assert LowerAscii(t[2..]) == "x" by {
      assert t[2..] == "x";
      assert LowerAscii("x")[0] == LowerChar('x');
    }
    assert t[..1] + "@" + "x" == "a@x";
  }

  lemma PaddedEmailComplete()
    ensures Complete(PaddedEmail)
  {
    SameEmailOtherCaseComplete();
    forall f ensures f in PaddedEmail && PaddedEmail[f] != "" {
      EveryFieldRequired(f);
    }
  }

  lemma PaddedEmailPassesChecks()
    ensures Complete(PaddedEmail)
    ensures RegistrationCheck(ExistingAccounts, ExistingProfiles, PaddedEmail) == Pass
  {
    PaddedEmailComplete();
    SameEmailOtherCasePassesChecks();
    SameEmailOtherCaseComplete();
    CredentialsNotHeld();
    var data := PaddedEmail;
    assert data[Username] == SameEmailOtherCase[Username] && data[Phone] == SameEmailOtherCase[Phone];
    assert data[LicenseNumber] == SameEmailOtherCase[LicenseNumber] && data[Email] == " a@x";
  }

  /** An address whose only difference from a stored one is surrounding
      whitespace passes the email check and is stored as the same email. */
  lemma PaddingDefeatsEmailCheck()
    ensures Complete(PaddedEmail)
    ensures RegistrationOutcome(ExistingAccounts, ExistingProfiles, PaddedEmail, Unchanged) == Created
    ensures NewAccount(PaddedEmail, Unchanged).email == ExistingAccounts[1].email
  {
    PaddedEmailPassesChecks();
    PaddingStripped();
    assert PaddedEmail[Username] == "bob";
    assert !UsernameInUse(ExistingAccounts, "bob");
  }

  /** The endpoint: nothing is written unless every check passes and the
      normalized username is free; then one account and its profile are
      created under the next user key. */
  method Register(db: Store, data: Form, nfkc: string -> string) returns (res: RegisterResult)
    requires db.Valid()
    modifies db
    ensures db.Valid()
    ensures res == RegistrationOutcome(old(db.users), old(db.profiles), data, nfkc)
    ensures res != Created ==>
      db.users == old(db.users) && db.profiles == old(db.profiles) && db.nextUserId == old(db.nextUserId)
    ensures res == Created ==>
      && db.users == old(db.users)[old(db.nextUserId) := NewAccount(data, nfkc)]
      && db.profiles == old(db.profiles)[old(db.nextUserId) := NewProfile(data)]
      && db.nextUserId == old(db.nextUserId) + 1
    ensures old(UniqueCredentials(db.users, db.profiles)) ==> UniqueCredentials(db.users, db.profiles)
    ensures db.cars == old(db.cars) && db.reservations == old(db.reservations)
    ensures db.nextReservationId == old(db.nextReservationId)
  {
    var check := RegistrationCheck(db.users, db.profiles, data);
    if check.Fail? {
      return Rejected(check.error);
    }
    var account := NewAccount(data, nfkc);
    if UsernameInUse(db.users, account.username) {
      return UsernameClash;
    }
    res := Created;
    var id := db.nextUserId;
    assert id !in db.users && id !in db.profiles;
    if UniqueCredentials(db.users, db.profiles) {
      RegistrationKeepsCredentialsUnique(db.users, db.profiles, data, nfkc, id);
    }
    db.AddAccount(account, NewProfile(data));
  }
}
