/** The fixture the repository's tests build: two teams and four members,
    made with the entity constructors and persisted, so that the store ids
    are 1 and 2 for the teams and 1 to 4 for the members. */
module SeedData {
  import opened Wrappers
  import opened Paging
  import Entity
  import opened MemberSearch
  import opened SearchProperties

  /** The store row a persisted member entity is read back as; None while the
      member, or the team it refers to, has no generated id yet. */
  function RowOf(m: Entity.Member): (r: Option<MemberRow>)
    reads m, m.team
    ensures r.Some? <==> m.id.Some? && (m.team != null ==> m.team.id.Some?)
    ensures r.Some? ==> r.value.id == m.id.value && r.value.username == m.username && r.value.age == m.age
    ensures r.Some? ==> (r.value.team.None? <==> m.team == null)
    ensures r.Some? && m.team != null ==> r.value.team == Some(TeamRow(m.team.id.value, m.team.name))
  {
    if m.id.None? then None
    else if m.team == null then Some(MemberRow(m.id.value, m.username, m.age, None))
    else if m.team.id.None? then None
    else Some(MemberRow(m.id.value, m.username, m.age, Some(TeamRow(m.team.id.value, m.team.name))))
  }

  const TeamA: TeamRow := TeamRow(1, Some("teamA"))
  const TeamB: TeamRow := TeamRow(2, Some("teamB"))
  const Member1: MemberRow := MemberRow(1, Some("member1"), Some(10), Some(TeamA))
  const Member2: MemberRow := MemberRow(2, Some("member2"), Some(20), Some(TeamA))
  const Member3: MemberRow := MemberRow(3, Some("member3"), Some(30), Some(TeamB))
  const Member4: MemberRow := MemberRow(4, Some("member4"), Some(40), Some(TeamB))

  /** The four seeded members in store (insertion) order. */
  function Seed(): seq<MemberRow> {
    [Member1, Member2, Member3, Member4]
  }

  /** Builds the fixture from the entity constructors, gives the objects the
      ids the store would generate, and reads the rows back. */
  method SeedMembers() returns (rows: seq<MemberRow>)
    ensures rows == Seed()
  {
    var teamA := new Entity.Team(Some("teamA"));
    var teamB := new Entity.Team(Some("teamB"));
    teamA.id, teamB.id := Some(1), Some(2);
    var m1 := new Entity.Member.WithTeam(Some("member1"), Some(10), teamA);
    var m2 := new Entity.Member.WithTeam(Some("member2"), Some(20), teamA);
    var m3 := new Entity.Member.WithTeam(Some("member3"), Some(30), teamB);
    var m4 := new Entity.Member.WithTeam(Some("member4"), Some(40), teamB);
    m1.id, m2.id, m3.id, m4.id := Some(1), Some(2), Some(3), Some(4);
    var r1, r2, r3, r4 := RowOf(m1), RowOf(m2), RowOf(m3), RowOf(m4);
    rows := [r1.value, r2.value, r3.value, r4.value];
  }

  const TeamBAged35To40: MemberSearchCondition :=
    MemberSearchCondition(None, Some("teamB"), Some(35), Some(40))

  const NoCondition: MemberSearchCondition := MemberSearchCondition(None, None, None, None)

  /** {ageGoe 35, ageLoe 40, teamName "teamB"} over the seeded members gives member4 only. */
  lemma SearchTeamBAged35To40()
    ensures Search(Seed(), TeamBAged35To40) == [Dto(Member4)]
    ensures Search(Seed(), TeamBAged35To40)[0].username == Some("member4")
  {
  }

  const TeamBOnly: MemberSearchCondition := MemberSearchCondition(None, Some("teamB"), None, None)

  /** {teamName "teamB"} over the seeded members gives member3 and member4, in store order. */
  lemma SearchTeamB()
    ensures Search(Seed(), TeamBOnly) == [Dto(Member3), Dto(Member4)]
  {
    assert TeamBOnly.teamName.value[0] == 't' && !IsWhitespace('t');
  }

  /** fetchResults over the members ordered by username descending, offset 1
      and limit 2: two results, member3 and member2, out of a total of four. */
  lemma PagingByUsernameDescending()
    ensures FetchResults([Member4, Member3, Member2, Member1], NoCondition, 1, 2)
      == QueryResults([Dto(Member3), Dto(Member2)], 4)
  {
    var rows := [Member4, Member3, Member2, Member1];
    AbsentConditionReturnsAll(rows, NoCondition);
    SearchLengthIsCount(rows, NoCondition);
  }

  /** Page 1 of size 3 over the seeded members: member4 only, and the total
      four, which searchPageComplex finds without its count query. */
  lemma LastPageOfThree()
    ensures SearchPageComplex(Seed(), NoCondition, Pageable(1, 3)) == Page([Dto(Member4)], Pageable(1, 3), 4)
    ensures !ComplexRunsCount(Seed(), NoCondition, Pageable(1, 3))
  {
  }
}
