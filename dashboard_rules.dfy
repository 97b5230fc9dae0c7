/** The pure parts of the dashboard: the profile form and its validator, the
    statistics derived from the user list and the profile, the completion colour
    and the avatar initials. */
module DashboardRules {
  import opened Wrappers
  import opened Text

  /** The six editable profile fields, in the order the form state lists them. */
  datatype Field = Name | Email | Age | Bio | Location | Profession

  /** The profile form state; every field is a string, '' when empty. */
  datatype Profile = Profile(name: string, email: string, age: string, bio: string, location: string, profession: string)
  {
    function Get(f: Field): string {
      match f
      case Name => name
      case Email => email
      case Age => age
      case Bio => bio
      case Location => location
      case Profession => profession
    }

    /** `{...prev, [f]: v}`: the profile with field `f` replaced by `v`. */
    function With(f: Field, v: string): (q: Profile)
      ensures q.Get(f) == v
      ensures forall g :: g != f ==> q.Get(g) == Get(g)
    {
      match f
      case Name => this.(name := v)
      case Email => this.(email := v)
      case Age => this.(age := v)
      case Bio => this.(bio := v)
      case Location => this.(location := v)
      case Profession => this.(profession := v)
    }
  }

  const EmptyProfile := Profile("", "", "", "", "", "")

  /** A calendar day, standing for the result of `toDateString()`. */
  type Day = int

  /** The `_id` of a record as the list endpoint renders it: 24 hex digits for a
      generated id, or the text a create body supplied. The model takes it to be
      non-empty, so `if (profileId)` holds exactly when an id is set. */
  type RecordId = s: string | s != [] witness "0"

  /** One element of the user list as the dashboard reads it. `None` is a field the
      record does not carry; `createdDay` is `None` when `created_at` is missing or
      does not parse as a date. */
  datatype UserRecord = UserRecord(
    id: RecordId,
    username: Option<string>,
    name: Option<string>,
    email: Option<string>,
    age: Option<string>,
    bio: Option<string>,
    location: Option<string>,
    profession: Option<string>,
    createdDay: Option<Day>)
  {
    function Get(f: Field): Option<string> {
      match f
      case Name => name
      case Email => email
      case Age => age
      case Bio => bio
      case Location => location
      case Profession => profession
    }
  }

  /** The profile seeded from a record: each field is the record's value, or '' when absent. */
  function SeedFrom(rec: UserRecord): (p: Profile)
    ensures forall f :: p.Get(f) == (if rec.Get(f).Some? then rec.Get(f).value else "")
  {
    Profile(rec.name.GetOr(""), rec.email.GetOr(""), rec.age.GetOr(""),
            rec.bio.GetOr(""), rec.location.GetOr(""), rec.profession.GetOr(""))
  }

  /** `users.find(u => u.username === username)`, as an index: the first match. */
  function FindByUsername(users: seq<UserRecord>, username: string): (r: Option<nat>)
    ensures r.Some? ==> r.value < |users| && users[r.value].username == Some(username)
    ensures r.Some? ==> forall j :: 0 <= j < r.value ==> users[j].username != Some(username)
    ensures r.None? <==> forall j :: 0 <= j < |users| ==> users[j].username != Some(username)
  {
    if users == [] then None
    else if users[0].username == Some(username) then Some(0)
    else match FindByUsername(users[1..], username)
      case None => None
      case Some(k) => Some(k + 1)
  }

  // ---------------------------------------------------------------------------
  // Profile validation

  datatype ProfileError = NameRequired | InvalidEmail | InvalidAge {
    function Message(): string {
      match this
      case NameRequired => "Name is required"
      case InvalidEmail => "Please enter a valid email address"
      case InvalidAge => "Please enter a valid age between 1 and 150"
    }
  }

  /** `s[p..e]` is a match of the regular expression `\S+@\S+\.\S+`, with the `@` at
      `a` and the `.` at `d`. */
  ghost predicate EmailMatchAt(s: string, p: int, a: int, d: int, e: int) {
    && 0 <= p < a && a + 1 < d && d + 1 < e <= |s|
    && NoSpace(s[p..a]) && s[a] == '@' && NoSpace(s[a + 1..d]) && s[d] == '.' && NoSpace(s[d + 1..e])
  }

  /** `/\S+@\S+\.\S+/.test(s)`: some substring of `s` matches the pattern. */
  ghost predicate MatchesEmailPattern(s: string): (m: bool)
    ensures m ==> |s| >= 5 && '@' in s && '.' in s
  {
    exists p, a, d, e :: EmailMatchAt(s, p, a, d, e)
  }

  /** The `@` at `a` and the `.` at `d` witness the pattern: a non-space before the
      `@`, a non-space after the `.`, and one or more non-spaces between them. */
  predicate EmailShapeAt(s: string, a: int, d: int) {
    && 0 < a && a + 1 < d && d + 1 < |s|
    && !IsSpace(s[a - 1]) && s[a] == '@' && s[d] == '.' && !IsSpace(s[d + 1])
    && forall k | a < k < d :: !IsSpace(s[k])
  }

  /** A decision procedure for the pattern. */
  predicate HasEmailShape(s: string) {
    exists a, d | 0 < a < |s| && a < d < |s| :: EmailShapeAt(s, a, d)
  }

  lemma EmailShapeIsPattern(s: string)
    ensures HasEmailShape(s) <==> MatchesEmailPattern(s)
  {
    if HasEmailShape(s) {
      var a, d :| 0 < a < |s| && a < d < |s| && EmailShapeAt(s, a, d);
      var middle := s[a + 1..d];
      forall i | 0 <= i < |middle| ensures !IsSpace(middle[i]) {
        assert middle[i] == s[a + 1 + i];
      }
      assert EmailMatchAt(s, a - 1, a, d, d + 2);
    }
    if MatchesEmailPattern(s) {
      var p, a, d, e :| EmailMatchAt(s, p, a, d, e);
      assert s[p..a][a - 1 - p] == s[a - 1];
      assert s[d + 1..e][0] == s[d + 1];
      forall k | a < k < d ensures !IsSpace(s[k]) {
        assert s[a + 1..d][k - a - 1] == s[k];
      }
      assert EmailShapeAt(s, a, d);
    }
  }

  /** `Number(age)` where that is a whole number: the trimmed string is a non-empty
      run of decimal digits. `None` stands for every value the age rule rejects
      outright: `NaN`, and the 0 that `Number` gives a blank string. */
  function AgeNumber(age: string): (r: Option<nat>)
    ensures r.Some? <==> !AllSpace(age) && AllDigits(Trim(age))
    ensures r.Some? ==> r.value == DigitsValue(Trim(age))
  {
    var t := Trim(age);
    if t != [] && AllDigits(t) then Some(DigitsValue(t)) else None
  }

  /** The age rule: empty, or a number between 1 and 150 inclusive. A blank but
      non-empty age is rejected, and an accepted one is a whole number in range. */
  predicate AgeAcceptable(age: string): (ok: bool)
    ensures AllSpace(age) ==> (ok <==> age == [])
    ensures ok && age != [] ==> AllDigits(Trim(age)) && 1 <= DigitsValue(Trim(age)) <= 150
    ensures ok <==> (age == [] ||
      (!AllSpace(age) && AllDigits(Trim(age)) && 1 <= DigitsValue(Trim(age)) <= 150))
  {
    age == [] || (AgeNumber(age).Some? && 1 <= AgeNumber(age).value <= 150)
  }

  /** `validateProfile`: name, then email, then age; the first failing check decides. */
  function ValidateProfile(p: Profile): (r: Outcome<ProfileError>)
    ensures r == Fail(NameRequired) <==> AllSpace(p.name)
    ensures r == Fail(InvalidEmail) <==>
      !AllSpace(p.name) && p.email != [] && !MatchesEmailPattern(p.email)
    ensures r == Fail(InvalidAge) <==>
      !AllSpace(p.name) && (p.email == [] || MatchesEmailPattern(p.email)) && !AgeAcceptable(p.age)
    ensures r == Pass <==>
      !AllSpace(p.name) && (p.email == [] || MatchesEmailPattern(p.email)) && AgeAcceptable(p.age)
  {
    EmailShapeIsPattern(p.email);
    if AllSpace(p.name) then Fail(NameRequired)
    else if p.email != [] && !HasEmailShape(p.email) then Fail(InvalidEmail)
    else if !AgeAcceptable(p.age) then Fail(InvalidAge)
    else Pass
  }

  lemma NotAnEmailRejected(p: Profile)
    requires !AllSpace(p.name) && p.email == "not-an-email"
    ensures ValidateProfile(p) == Fail(InvalidEmail)
  {
  }

  lemma ShortEmailAccepted()
    ensures MatchesEmailPattern("a@b.co")
  {
    var s := "a@b.co";
    assert NoSpace(s[0..1]) && NoSpace(s[2..3]) && NoSpace(s[4..6]);
    assert EmailMatchAt(s, 0, 1, 3, 6);
  }

  /** Every numeral of a whole number is accepted as an age exactly when the number
      lies in [1, 150]. */
  lemma {:induction false} AgeNumeralRange(n: nat)
    ensures AgeAcceptable(Numeral(n)) <==> 1 <= n <= 150
  {
    var s := Numeral(n);
    NumeralValue(n);
    assert !IsSpace(s[0]) && !IsSpace(s[|s| - 1]);
    TrimUnpadded(s);
  }


  /** `Number` of a decimal numeral padded with whitespace is that number, and the
      padded numeral passes the age rule exactly when the number lies in [1, 150]. */
  lemma AgeNumberPadded(pre: string, n: nat, post: string)
    requires AllSpace(pre) && AllSpace(post)
    ensures AgeNumber(pre + Numeral(n) + post) == Some(n)
    ensures AgeAcceptable(pre + Numeral(n) + post) <==> 1 <= n <= 150
  {
    var s := Numeral(n);
    var u := pre + s + post;
    NumeralTrim(pre, n, post);
    NumeralValue(n);
    assert u != [] by { assert |u| >= |s|; }
  }

  lemma NumeralTrim(pre: string, n: nat, post: string)
    requires AllSpace(pre) && AllSpace(post)
    ensures Trim(pre + Numeral(n) + post) == Numeral(n)
  {
    var s := Numeral(n);
    assert !IsSpace(s[0]) && !IsSpace(s[|s| - 1]);
    TrimPadded(pre, s, post);
  }

  lemma AgeExamples()
    ensures AgeAcceptable("150")
    ensures !AgeAcceptable("151")
    ensures !AgeAcceptable("0")
  {
    assert Numeral(150) == "150" && Numeral(151) == "151" && Numeral(0) == "0";
    AgeNumeralRange(150);
    AgeNumeralRange(151);
    AgeNumeralRange(0);
  }

  lemma AgeRange(s: string)
    requires |s| > 0 && AllDigits(s)
    ensures AgeAcceptable(s) <==> 1 <= DigitsValue(s) <= 150
  {
    assert !IsSpace(s[0]) && !IsSpace(s[|s| - 1]);
    TrimUnpadded(s);
  }

  // ---------------------------------------------------------------------------
  // Statistics

  datatype Stats = Stats(totalUsers: nat, newUsersToday: nat, profileCompletion: nat)

  /** `value && value.trim() !== ''`, as 1 or 0: a string counts exactly when its
      trim is non-empty, that is, unless it is all whitespace. */
  function Filled(v: string): (n: nat)
    ensures n <= 1
    ensures n == 1 <==> Trim(v) != []
  {
    if AllSpace(v) then 0 else 1
  }

  /** How many of the six fields are non-empty after trimming. */
  function FilledCount(p: Profile): (k: nat)
    ensures k <= 6
    ensures k == 6 <==> forall f :: !AllSpace(p.Get(f))
    ensures k == 0 <==> forall f :: AllSpace(p.Get(f))
  {
    assert (forall f :: !AllSpace(p.Get(f))) <==>
      !AllSpace(p.name) && !AllSpace(p.email) && !AllSpace(p.age) && !AllSpace(p.bio) && !AllSpace(p.location) && !AllSpace(p.profession) by {
      assert p.Get(Name) == p.name && p.Get(Email) == p.email && p.Get(Age) == p.age;
      assert p.Get(Bio) == p.bio && p.Get(Location) == p.location && p.Get(Profession) == p.profession;
    }
    assert (forall f :: AllSpace(p.Get(f))) <==>
      AllSpace(p.name) && AllSpace(p.email) && AllSpace(p.age) && AllSpace(p.bio) && AllSpace(p.location) && AllSpace(p.profession) by {
      assert p.Get(Name) == p.name && p.Get(Email) == p.email && p.Get(Age) == p.age;
      assert p.Get(Bio) == p.bio && p.Get(Location) == p.location && p.Get(Profession) == p.profession;
    }
    Filled(p.name) + Filled(p.email) + Filled(p.age) + Filled(p.bio) + Filled(p.location) + Filled(p.profession)
  }

  /** Editing one field changes the count only by what that field contributes. */
  lemma FilledCountWith(p: Profile, f: Field, v: string)
    ensures FilledCount(p.With(f, v)) == FilledCount(p) - Filled(p.Get(f)) + Filled(v)
  {
    var q := p.With(f, v);
    match f
    case Name => assert q == p.(name := v);
    case Email => assert q == p.(email := v);
    case Age => assert q == p.(age := v);
    case Bio => assert q == p.(bio := v);
    case Location => assert q == p.(location := v);
    case Profession => assert q == p.(profession := v);
  }

  /** `Math.round(k / 6 * 100)`: the nearest whole percentage, halves rounded up. */
  function CompletionPercent(k: nat): (r: nat)
    requires k <= 6
    ensures r <= 100
    ensures 6 * r - 3 <= 100 * k < 6 * r + 3
  {
    (100 * k + 3) / 6
  }

  lemma CompletionMonotone(j: nat, k: nat)
    requires j <= k <= 6
    ensures CompletionPercent(j) <= CompletionPercent(k)
  {
  }

  lemma CompletionEnds()
    ensures CompletionPercent(0) == 0 && CompletionPercent(6) == 100
  {
  }

  /** Only no filled field gives 0, and only six give 100. */
  lemma CompletionExtremes(k: nat)
    requires k <= 6
    ensures CompletionPercent(k) == 0 <==> k == 0
    ensures CompletionPercent(k) == 100 <==> k == 6
  {
    assert k == 0 || k == 1 || k == 2 || k == 3 || k == 4 || k == 5 || k == 6;
  }

  /** How many records were created on `today`. */
  function CountCreatedOn(users: seq<UserRecord>, today: Day): (n: nat)
    ensures n <= |users|
  {
    if users == [] then 0
    else (if users[0].createdDay == Some(today) then 1 else 0) + CountCreatedOn(users[1..], today)
  }

  /** The count reaches the list length exactly when every record is from today, and
      is zero exactly when none is. */
  lemma {:induction false} CountCreatedOnExtremes(users: seq<UserRecord>, today: Day)
    ensures CountCreatedOn(users, today) == |users| <==> forall i :: 0 <= i < |users| ==> users[i].createdDay == Some(today)
    ensures CountCreatedOn(users, today) == 0 <==> forall i :: 0 <= i < |users| ==> users[i].createdDay != Some(today)
  {
    if users != [] {
      CountCreatedOnExtremes(users[1..], today);
      assert forall i :: 1 <= i < |users| ==> users[i] == users[1..][i - 1];
    }
  }

  lemma {:induction false} CountCreatedOnAppend(a: seq<UserRecord>, b: seq<UserRecord>, today: Day)
    ensures CountCreatedOn(a + b, today) == CountCreatedOn(a, today) + CountCreatedOn(b, today)
  {
    if a != [] {
      CountCreatedOnAppend(a[1..], b, today);
      assert (a + b)[0] == a[0];
      assert (a + b)[1..] == a[1..] + b;
    } else {
      assert a + b == b;
    }
  }

  /** `calculateStats`, with `today` as a parameter. */
  function ComputeStats(profile: Profile, users: seq<UserRecord>, today: Day): (s: Stats)
    ensures s.totalUsers == |users|
    ensures s.newUsersToday == CountCreatedOn(users, today)
    ensures s.profileCompletion == CompletionPercent(FilledCount(profile))
    ensures s.newUsersToday <= s.totalUsers
    ensures s.profileCompletion <= 100
    ensures s.profileCompletion == 0 <==> forall f :: AllSpace(profile.Get(f))
    ensures s.profileCompletion == 100 <==> forall f :: !AllSpace(profile.Get(f))
  {
    var k := FilledCount(profile);
    CompletionExtremes(k);
    Stats(|users|, CountCreatedOn(users, today), CompletionPercent(k))
  }

  /** A directory holding only "alice", created today, and a profile seeded from it
      with only the display name set (to any non-blank text, such as "Alice"): one
      user, one new today, completion 17. */
  lemma AliceScenario(today: Day, name: string)
    requires !AllSpace(name)
    ensures
      var alice := UserRecord("1", Some("alice"), Some(name), None, None, None, None, None, Some(today));
      ComputeStats(SeedFrom(alice), [alice], today) == Stats(1, 1, 17)
  {
    var alice := UserRecord("1", Some("alice"), Some(name), None, None, None, None, None, Some(today));
    NameOnlyCount(name);
    assert SeedFrom(alice) == Profile(name, "", "", "", "", "");
    assert [alice][1..] == [];
    assert CountCreatedOn([alice], today) == 1;
  }

  /** A profile with only a non-blank name has one filled field, 17 percent. */
  lemma NameOnlyCount(name: string)
    requires !AllSpace(name)
    ensures FilledCount(Profile(name, "", "", "", "", "")) == 1
    ensures CompletionPercent(1) == 17
  {
    assert Filled(name) == 1 && Filled("") == 0;
  }

  // ---------------------------------------------------------------------------
  // Presentation helpers

  const CompleteColor := "#10b981"
  const PartialColor := "#f59e0b"
  const LowColor := "#ef4444"

  /** `getProfileCompletionColor`: green from 80, amber from 50, red below. */
  function CompletionColor(pct: int): (c: string)
    ensures c == CompleteColor <==> pct >= 80
    ensures c == PartialColor <==> 50 <= pct < 80
    ensures c == LowColor <==> pct < 50
  {
    assert CompleteColor[1] != PartialColor[1] && CompleteColor[1] != LowColor[1] && PartialColor[1] != LowColor[1];
    if pct >= 80 then CompleteColor else if pct >= 50 then PartialColor else LowColor
  }

  /** In terms of filled fields: green from five, amber for three or four, red below. */
  lemma ColorByFilledFields(k: nat)
    requires k <= 6
    ensures CompletionColor(CompletionPercent(k)) == if k >= 5 then CompleteColor else if k >= 3 then PartialColor else LowColor
  {
    assert k == 0 || k == 1 || k == 2 || k == 3 || k == 4 || k == 5 || k == 6;
  }

  /** `t[j]` is the last space of `t`, and some character follows it. */
  ghost predicate LastSpaceAt(t: string, j: int) {
    0 <= j < |t| - 1 && t[j] == ' ' && ' ' !in t[j + 1..]
  }

  /** `getUserInitials(name, username)`. A name with a space after trimming gives the
      first letters of its first and last words; a one-word name gives the first
      character of the untrimmed name; a blank name falls back to the username's first
      character, or "U". */
  function UserInitials(name: string, username: string): (r: string)
    ensures !AllSpace(name) && ' ' in Trim(name) ==>
      exists j :: LastSpaceAt(Trim(name), j) && r == [UpperChar(Trim(name)[0]), UpperChar(Trim(name)[j + 1])]
    ensures !AllSpace(name) && ' ' !in Trim(name) ==> r == [UpperChar(name[0])]
    ensures AllSpace(name) && username != [] ==> r == [UpperChar(username[0])]
    ensures AllSpace(name) && username == [] ==> r == "U"
  {
    var t := Trim(name);
    if t != [] then
      var names := Split(t, ' ');
      SplitSingle(t, ' ');
      if |names| > 1 then
        WordInitials(t);
        [UpperChar(names[0][0]), UpperChar(names[|names| - 1][0])]
      else [UpperChar(name[0])]
    else if username != [] then [UpperChar(username[0])]
    else "U"
  }

  /** For a trimmed string with a space, the first and last pieces of its split are
      non-empty, start at its first character and after its last space. */
  lemma InitialsOfWords(t: string)
    requires t != [] && !IsSpace(t[0]) && !IsSpace(t[|t| - 1])
    requires |Split(t, ' ')| > 1
    ensures var names := Split(t, ' '); var last := names[|names| - 1];
      names[0] != [] && names[0][0] == t[0] && last != []
      && LastSpaceAt(t, |t| - |last| - 1) && last[0] == t[|t| - |last|]
  {
    SplitFirst(t, ' ');
    SplitLast(t, ' ');
    var names := Split(t, ' ');
    var last := names[|names| - 1];
    assert t[|t| - |last|..] == last;
  }

  /** The two-word initials of a trimmed string with a space are the upper-cased
      characters at its start and just after its last space. */
  lemma WordInitials(t: string)
    requires t != [] && !IsSpace(t[0]) && !IsSpace(t[|t| - 1])
    requires |Split(t, ' ')| > 1
    ensures var names := Split(t, ' ');
      names[0] != [] && names[|names| - 1] != [] && !IsSpace(names[0][0])
      && (exists j :: LastSpaceAt(t, j)
            && [UpperChar(names[0][0]), UpperChar(names[|names| - 1][0])] == [UpperChar(t[0]), UpperChar(t[j + 1])])
  {
    InitialsOfWords(t);
    var names := Split(t, ' ');
    var last := names[|names| - 1];
    var j := |t| - |last| - 1;
    assert LastSpaceAt(t, j) && last[0] == t[j + 1];
  }

  /** The single-word case reads the untrimmed name, so a one-word name after a
      leading space, such as " bob", gets a space as its initial. */
  lemma PaddedNameInitial(word: string)
    requires word != [] && NoSpace(word)
    ensures UserInitials([' '] + word, "") == " "
  {
    var padded := [' '] + word;
    assert !IsSpace(word[0]) && !IsSpace(word[|word| - 1]);
    TrimLeadingSpace(' ', word);
    assert ' ' !in word by {
      forall i | 0 <= i < |word| ensures word[i] != ' ' {
        assert !IsSpace(word[i]);
      }
    }
    assert !AllSpace(padded) by {
      assert padded[1] == word[0];
    }
  }

  /** The initials as evidently intended: the single-word case reads the trimmed name. */
  function UserInitialsIntended(name: string, username: string): (r: string)
    ensures 1 <= |r| <= 2
    ensures !AllSpace(name) ==> !IsSpace(r[0])
    ensures !AllSpace(name) && ' ' !in Trim(name) ==> r == [UpperChar(Trim(name)[0])]
    ensures AllSpace(name) || ' ' in Trim(name) ==> r == UserInitials(name, username)
  {
    var t := Trim(name);
    if t != [] then
      var names := Split(t, ' ');
      SplitSingle(t, ' ');
      if |names| > 1 then
        WordInitials(t);
        var first := UpperChar(names[0][0]);
        assert !IsSpace(first);
        [first, UpperChar(names[|names| - 1][0])]
      else
        var first := UpperChar(t[0]);
        assert !IsSpace(first);
        [first]
    else if username != [] then [UpperChar(username[0])]
    else "U"
  }
}
