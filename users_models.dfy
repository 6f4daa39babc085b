/** The customer side of users/models.py: the account fields the core reads,
    the customer profile, the eligibility test and the two display strings. */
module Users {
  import opened Common

  /** The framework's account record, reduced to the fields the core reads.
      The password is not kept (authentication is not modelled). */
  datatype Account = Account(
    username: string,
    email: string,
    firstName: string,
    lastName: string,
    isActive: bool,
    isStaff: bool)

  /** The customer profile attached one-to-one to an account. The date of
      birth is kept as the submitted text; the timestamps are not modelled. */
  datatype UserProfile = UserProfile(
    phone: string,
    address: string,
    city: string,
    state: string,
    zipCode: string,
    licenseNumber: string,
    dateOfBirth: string,
    isVerified: bool,
    isActive: bool)

  /** A customer may reserve only when verified and active. */
  predicate CanMakeReservations(p: UserProfile): (ok: bool)
    ensures !p.isVerified ==> !ok
    ensures !p.isActive ==> !ok
    ensures p.isVerified && p.isActive ==> ok
  {
    p.isVerified && p.isActive
  }

  /** The first name, one blank, the last name. */
  function GetFullName(a: Account): (s: string)
    ensures |s| == |a.firstName| + 1 + |a.lastName|
    ensures s[..|a.firstName|] == a.firstName && s[|a.firstName|] == ' '
    ensures s[|a.firstName| + 1..] == a.lastName
  {
    a.firstName + " " + a.lastName
  }

  /** Address, city, state and zip code joined by ", ". */
  function GetFullAddress(p: UserProfile): (s: string)
    ensures |s| == |p.address| + |p.city| + |p.state| + |p.zipCode| + 6
    ensures s[..|p.address|] == p.address
    ensures s[|s| - |p.zipCode|..] == p.zipCode
  {
    p.address + ", " + p.city + ", " + p.state + ", " + p.zipCode
  }

  // ---------------------------------------------------------------------
  // Reading the strings back: splitting at a separator character recovers
  // the parts whenever no part contains that character.

  /** The pieces of s between occurrences of sep (one piece when sep does
      not occur). */
  function SplitOn(s: string, sep: char): (parts: seq<string>)
    ensures |parts| >= 1
    decreases |s|
  {
    if s == [] then [""]
    else
      var rest := SplitOn(s[1..], sep);
      if s[0] == sep then [""] + rest else [[s[0]] + rest[0]] + rest[1..]
  }

  lemma {:induction false} SplitWithoutSep(a: string, sep: char)
    requires sep !in a
    ensures SplitOn(a, sep) == [a]
    decreases |a|
  {
    if a != [] {
      SplitWithoutSep(a[1..], sep);
      assert [a[0]] + a[1..] == a;
    }
  }

  lemma {:induction false} SplitAtFirstSep(a: string, sep: char, b: string)
    requires sep !in a
    ensures SplitOn(a + [sep] + b, sep) == [a] + SplitOn(b, sep)
    decreases |a|
  {
    var s := a + [sep] + b;
    if a == [] {
      assert s[1..] == b;
    } else {
      assert s[1..] == a[1..] + [sep] + b;
      SplitAtFirstSep(a[1..], sep, b);
      assert [a[0]] + a[1..] == a;
    }
  }

  /** A full name whose two names contain no blank splits back into them. */
  lemma FullNameSplitsBack(a: Account)
    requires ' ' !in a.firstName && ' ' !in a.lastName
    ensures SplitOn(GetFullName(a), ' ') == [a.firstName, a.lastName]
  {
    assert GetFullName(a) == a.firstName + [' '] + a.lastName;
    SplitAtFirstSep(a.firstName, ' ', a.lastName);
    SplitWithoutSep(a.lastName, ' ');
  }

  /** A full address whose parts contain no comma splits at its commas into
      the four parts, each after the first still led by the separator's blank. */
  lemma FullAddressSplitsBack(p: UserProfile)
    requires ',' !in p.address && ',' !in p.city && ',' !in p.state && ',' !in p.zipCode
    ensures SplitOn(GetFullAddress(p), ',') == [p.address, " " + p.city, " " + p.state, " " + p.zipCode]
  {
    var c, st, z := " " + p.city, " " + p.state, " " + p.zipCode;
    assert ',' !in c && ',' !in st && ',' !in z;
    assert GetFullAddress(p) == p.address + [','] + (c + [','] + (st + [','] + z));
    SplitAtFirstSep(p.address, ',', c + [','] + (st + [','] + z));
    SplitAtFirstSep(c, ',', st + [','] + z);
    SplitAtFirstSep(st, ',', z);
    SplitWithoutSep(z, ',');
  }

  /** The fixtures of users/tests.py. */
  lemma FullNameExample(a: Account)
    requires a.firstName == "Test" && a.lastName == "User"
    ensures GetFullName(a) == "Test User"
  {
  }

  lemma FullAddressExample(p: UserProfile)
    requires p.address == "Main St 1" && p.city == "Istanbul" && p.state == "TR" && p.zipCode == "34000"
    ensures GetFullAddress(p) == "Main St 1, Istanbul, TR, 34000"
  {
  }
}
