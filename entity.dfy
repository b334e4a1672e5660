/** The JPA entities `Team` and `Member` (package `entity`). Both are
    mutable objects: Lombok's `@Setter` makes every field assignable, which
    Dafny's public `var` fields give directly. Ids are generated by the store
    on persist, so no constructor sets one. */
module Entity {
  import opened Wrappers

  /** A team: a generated id, a name, and the inverse side of `Member.team`
      (a view derived from the members' foreign keys, never written here). */
  class Team {
    var id: Option<int>
    var name: Option<string>
    var members: seq<Member>

    /** `Team(String name)`. */
    constructor (name: Option<string>)
      ensures this.id == None && this.name == name && this.members == []
    {
      this.id := None;
      this.name := name;
      this.members := [];
    }
  }

  /** A member: a generated id, a nullable username, a nullable age and at
      most one team. */
  class Member {
    var id: Option<int>
    var username: Option<string>
    var age: Option<int>
    var team: Team?

    /** `Member(String username)`, which delegates to `Member(username, 0)`. */
    constructor OfUsername(username: Option<string>)
      ensures this.id == None && this.username == username
      ensures this.age == Some(0) && this.team == null
    {
      this.id := None;
      this.username := username;
      this.age := Some(0);
      this.team := null;
    }

    /** `Member(String username, Integer age)`. */
    constructor (username: Option<string>, age: Option<int>)
      ensures this.id == None && this.username == username
      ensures this.age == age && this.team == null
    {
      this.id := None;
      this.username := username;
      this.age := age;
      this.team := null;
    }

    /** `Member(String username, Integer age, Team team)`. */
    constructor WithTeam(username: Option<string>, age: Option<int>, team: Team?)
      ensures this.id == None && this.username == username
      ensures this.age == age && this.team == team
    {
      this.id := None;
      this.username := username;
      this.age := age;
      this.team := team;
    }

    /** `toString()`: id, username in single quotes and age; the team is not
        shown. Java's string concatenation renders `null` as the text "null". */
    function ToString(): string
      reads this
    {
      MemberText(id, username, age)
    }
  }

  // ---------------------------------------------------------------------
  // How Java's string concatenation renders the fields

  /** The text `Member.toString` builds from the three columns it shows. */
  function MemberText(id: Option<int>, username: Option<string>, age: Option<int>): string {
    IdPrefix + NullableNumberText(id)
      + ", username='" + NullableText(username)
      + "', age=" + NullableNumberText(age)
      + "}"
  }

  predicate IsDigit(c: char) {
    '0' <= c <= '9'
  }

  predicate IsDigits(s: string) {
    |s| > 0 && forall i :: 0 <= i < |s| ==> IsDigit(s[i])
  }

  function DigitChar(d: nat): (c: char)
    requires d < 10
    ensures IsDigit(c)
  {
    ('0' as int + d) as char
  }

  function DigitValue(c: char): (d: nat)
    requires IsDigit(c)
    ensures d < 10 && DigitChar(d) == c
  {
    c as int - '0' as int
  }

  /** The decimal digits of `n`, most significant first, without leading zeros. */
  function NatText(n: nat): (s: string)
    ensures IsDigits(s)
    ensures ',' !in s && '=' !in s
    decreases n
  {
    if n < 10 then [DigitChar(n)] else NatText(n / 10) + [DigitChar(n % 10)]
  }

  /** `Long.toString` / `Integer.toString`: an optional minus sign, then the digits. */
  function NumberText(n: int): (s: string)
    ensures ',' !in s && '=' !in s
  {
    if n < 0 then "-" + NatText(-n) else NatText(n)
  }

  /** A nullable `Long` or `Integer` after `"..." + x`. */
  function NullableNumberText(x: Option<int>): (s: string)
    ensures ',' !in s && '=' !in s
  {
    match x
    case None => "null"
    case Some(n) => NumberText(n)
  }

  /** A nullable `String` after `"..." + s`. */
  function NullableText(x: Option<string>): string {
    match x
    case None => "null"
    case Some(s) => s
  }

  // ---------------------------------------------------------------------
  // Reading the id, username and age back from a rendering: the partner of ToString

  /** The value of a string of decimal digits. */
  function ParseDigits(s: string): nat
    requires IsDigits(s)
    decreases |s|
  {
    if |s| == 1 then DigitValue(s[0])
    else 10 * ParseDigits(s[..|s| - 1]) + DigitValue(s[|s| - 1])
  }

  /** Reads back what NullableNumberText writes; None for "null" and for text
      that is not a number. */
  function ParseNullableNumber(s: string): Option<int> {
    if s == "null" then None
    else if |s| > 1 && s[0] == '-' && IsDigits(s[1..]) then var v: int := ParseDigits(s[1..]); Some(-v)
    else if IsDigits(s) then Some(ParseDigits(s))
    else None
  }

  /** The prefix of `s` before the first `stop` (all of `s` if there is none). */
  function TakeUntil(s: string, stop: char): string {
    if s == [] || s[0] == stop then [] else [s[0]] + TakeUntil(s[1..], stop)
  }

  /** The suffix of `s` after the last `mark` (all of `s` if there is none). */
  function AfterLast(s: string, mark: char): string {
    if s == [] || s[|s| - 1] == mark then []
    else AfterLast(s[..|s| - 1], mark) + [s[|s| - 1]]
  }

  const IdPrefix: string := "Member{id="

  /** The text of the id field of a rendering: after the prefix, up to the
      first comma. */
  function IdField(s: string): string {
    if |IdPrefix| <= |s| && s[..|IdPrefix|] == IdPrefix then TakeUntil(s[|IdPrefix|..], ',') else ""
  }

  /** The text of the age field of a rendering: after the last `=`, before
      the closing brace. */
  function AgeField(s: string): string {
    if |s| > 0 && s[|s| - 1] == '}' then AfterLast(s[..|s| - 1], '=') else ""
  }

  /** The text of the username field of a rendering: between the opening
      quote after the id field and the closing quote before the age field. */
  function UsernameField(s: string): string {
    var lo := |IdPrefix| + |IdField(s)| + |", username='"|;
    var hi := |s| - |AgeField(s)| - |"', age="| - 1;
    if lo <= hi then s[lo..hi] else ""
  }

  lemma {:induction false} ParseNatText(n: nat)
    ensures ParseDigits(NatText(n)) == n
    decreases n
  {
    if n >= 10 {
      var s := NatText(n);
      ParseNatText(n / 10);
      assert s[..|s| - 1] == NatText(n / 10);
    }
  }

  /** Reading back a rendered nullable number gives the number. */
  lemma NullableNumberRoundTrip(x: Option<int>)
    ensures ParseNullableNumber(NullableNumberText(x)) == x
  {
    match x
    case None =>
    case Some(n) =>
      if n < 0 {
        var s := NumberText(n);
        assert s[1..] == NatText(-n);
        ParseNatText(-n);
      } else {
        ParseNatText(n);
      }
  }

  lemma {:induction false} TakeUntilBeforeStop(t: string, rest: string, stop: char)
    requires stop !in t && |rest| > 0 && rest[0] == stop
    ensures TakeUntil(t + rest, stop) == t
    decreases |t|
  {
    if t != [] {
      assert (t + rest)[1..] == t[1..] + rest;
      TakeUntilBeforeStop(t[1..], rest, stop);
    } else {
      assert t + rest == rest;
    }
  }

  lemma {:induction false} AfterLastMark(p: string, t: string, mark: char)
    requires mark !in t
    ensures AfterLast(p + [mark] + t, mark) == t
    decreases |t|
  {
    var s := p + [mark] + t;
    if t != [] {
      assert s[..|s| - 1] == p + [mark] + t[..|t| - 1];
      AfterLastMark(p, t[..|t| - 1], mark);
      assert t == t[..|t| - 1] + [t[|t| - 1]];
    }
  }

  lemma IdFieldAfterPrefix(t: string, rest: string)
    requires ',' !in t && |rest| > 0 && rest[0] == ','
    ensures IdField(IdPrefix + t + rest) == t
  {
    var s := IdPrefix + t + rest;
    assert s[..|IdPrefix|] == IdPrefix;
    assert s[|IdPrefix|..] == t + rest;
    TakeUntilBeforeStop(t, rest, ',');
  }

  lemma IdFieldOfText(id: Option<int>, username: Option<string>, age: Option<int>)
    ensures IdField(MemberText(id, username, age)) == NullableNumberText(id)
  {
    var idText := NullableNumberText(id);
    var rest := ", username='" + NullableText(username) + "', age=" + NullableNumberText(age) + "}";
    assert MemberText(id, username, age) == IdPrefix + idText + rest;
    IdFieldAfterPrefix(idText, rest);
  }

  lemma AgeFieldOfText(id: Option<int>, username: Option<string>, age: Option<int>)
    ensures AgeField(MemberText(id, username, age)) == NullableNumberText(age)
  {
    var s, ageText := MemberText(id, username, age), NullableNumberText(age);
    var front := IdPrefix + NullableNumberText(id) + ", username='" + NullableText(username) + "', age";
    assert s == front + ['='] + ageText + "}";
    assert s[..|s| - 1] == front + ['='] + ageText;
    AfterLastMark(front, ageText, '=');
  }

  lemma UsernameFieldOfText(id: Option<int>, username: Option<string>, age: Option<int>)
    ensures UsernameField(MemberText(id, username, age)) == NullableText(username)
  {
    var s, idText, nameText, ageText := MemberText(id, username, age),
      NullableNumberText(id), NullableText(username), NullableNumberText(age);
    IdFieldOfText(id, username, age);
    AgeFieldOfText(id, username, age);
    var front := IdPrefix + idText + ", username='";
    var back := "', age=" + ageText + "}";
    assert s == front + nameText + back;
    assert s[|front|..|front| + |nameText|] == nameText;
  }

  /** ToString keeps the id, the username text and the age: all three can
      be read back from it. */
  lemma ToStringKeepsColumns(m: Member)
    ensures ParseNullableNumber(IdField(m.ToString())) == m.id
    ensures UsernameField(m.ToString()) == NullableText(m.username)
    ensures ParseNullableNumber(AgeField(m.ToString())) == m.age
  {
    IdFieldOfText(m.id, m.username, m.age);
    UsernameFieldOfText(m.id, m.username, m.age);
    AgeFieldOfText(m.id, m.username, m.age);
    NullableNumberRoundTrip(m.id);
    NullableNumberRoundTrip(m.age);
  }

  /** The team is not part of the rendering, and a null username renders
      like the username "null". */
  lemma ToStringShowsOnlyColumns(m1: Member, m2: Member)
    requires m1.id == m2.id && m1.age == m2.age
    requires NullableText(m1.username) == NullableText(m2.username)
    ensures m1.ToString() == m2.ToString()
  {
  }

  /** A null username still renders, between the quotes, as "null". */
  lemma NullUsernameRendering(m: Member)
    requires m.id == Some(1) && m.username == None && m.age == Some(100)
    ensures m.ToString() == "Member{id=1, username='null', age=100}"
  {
  }
}
