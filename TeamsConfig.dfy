/** Team catalogs: the shared catalog of lib/teams-config.js, and the lookups the
    handlers perform on a catalog object. */
module TeamsConfig {
  import opened Js

  /** A catalog member. The members carry no `defaultActive` field. */
  datatype Member = Member(id: string, name: string, active: bool)

  datatype Team = Team(key: string, name: string, members: seq<Member>)

  /** The entries of a catalog object in `Object.entries` order. */
  type Catalog = seq<Team>

  /** `catalog[key]`: an own property, else a property every object inherits from
      `Object.prototype` (truthy, but without `members`), else undefined. */
  datatype Resolution = Found(team: Team) | Inherited | Missing

  const PrototypeProperties: set<string> :=
    {"constructor", "__proto__", "__defineGetter__", "__defineSetter__", "__lookupGetter__",
     "__lookupSetter__", "hasOwnProperty", "isPrototypeOf", "propertyIsEnumerable",
     "toLocaleString", "toString", "valueOf"}

  predicate HasKey(catalog: Catalog, key: string)
  {
    exists i :: 0 <= i < |catalog| && catalog[i].key == key
  }

  function Resolve(catalog: Catalog, key: string): (r: Resolution)
    ensures r.Found? <==> HasKey(catalog, key)
    ensures r.Found? ==> r.team in catalog && r.team.key == key
    ensures r.Inherited? <==> !HasKey(catalog, key) && key in PrototypeProperties
    ensures r.Missing? <==> !HasKey(catalog, key) && key !in PrototypeProperties
  {
    if catalog == [] then (if key in PrototypeProperties then Inherited else Missing)
    else if catalog[0].key == key then Found(catalog[0])
    else
      var r := Resolve(catalog[1..], key);
      assert HasKey(catalog, key) <==> HasKey(catalog[1..], key) by {
        if HasKey(catalog, key) {
          var i :| 0 <= i < |catalog| && catalog[i].key == key;
          assert catalog[1..][i - 1].key == key;
        }
        if HasKey(catalog[1..], key) {
          var i :| 0 <= i < |catalog| - 1 && catalog[1..][i].key == key;
          assert catalog[i + 1].key == key;
        }
      }
      r
  }

  /** `members.filter(m => m.active)`: the active members, in catalog order. */
  function ActiveMembers(members: seq<Member>): (r: seq<Member>)
    ensures |r| <= |members|
  {
    if members == [] then []
    else if members[0].active then [members[0]] + ActiveMembers(members[1..])
    else ActiveMembers(members[1..])
  }

  /** The active members are exactly the catalog members whose flag is set. */
  lemma {:induction false} ActiveMembersExactly(members: seq<Member>)
    ensures forall m :: m in ActiveMembers(members) <==> m in members && m.active
  {
    if members != [] {
      ActiveMembersExactly(members[1..]);
      assert members == [members[0]] + members[1..];
    }
  }

  predicate DistinctIds(members: seq<Member>)
  {
    forall i, j :: 0 <= i < j < |members| ==> members[i].id != members[j].id
  }

  /** Filtering keeps distinct ids distinct. */
  lemma {:induction false} ActiveKeepsDistinct(members: seq<Member>)
    requires DistinctIds(members)
    ensures DistinctIds(ActiveMembers(members))
  {
    if members != [] {
      var rest := members[1..];
      assert DistinctIds(rest) by {
        forall i, j | 0 <= i < j < |rest| ensures rest[i].id != rest[j].id {
          assert rest[i] == members[i + 1] && rest[j] == members[j + 1];
        }
      }
      ActiveKeepsDistinct(rest);
      if members[0].active {
        var r := ActiveMembers(members);
        ActiveMembersExactly(rest);
        forall j | 0 < j < |r| ensures r[0].id != r[j].id {
          assert r[j] in rest;
          var k :| 0 <= k < |rest| && rest[k] == r[j];
          assert members[k + 1] == r[j];
        }
      }
    }
  }

  /** `members.findIndex(m => m.id == id)`: the first position whose id is `id`, or -1. */
  function IndexOfId(members: seq<Member>, id: string): (p: int)
    ensures -1 <= p < |members|
    ensures p >= 0 ==> members[p].id == id && forall j :: 0 <= j < p ==> members[j].id != id
    ensures p == -1 <==> forall j :: 0 <= j < |members| ==> members[j].id != id
  {
    if members == [] then -1
    else if members[0].id == id then 0
    else
      var p := IndexOfId(members[1..], id);
      if p == -1 then -1 else p + 1
  }

  /** With distinct ids, the position of a member's own id is that member's position. */
  lemma IndexOfOwnId(members: seq<Member>, p: nat)
    requires DistinctIds(members) && p < |members|
    ensures IndexOfId(members, members[p].id) == p
  {
  }

  /** The catalog shape the handlers rely on to keep keys apart: team keys are
      distinct, contain neither ':' nor '-', none is "global", and ids are distinct
      and non-empty within each team. */
  predicate WellFormed(catalog: Catalog)
  {
    && (forall i, j :: 0 <= i < j < |catalog| ==> catalog[i].key != catalog[j].key)
    && (forall i :: 0 <= i < |catalog| ==>
          ':' !in catalog[i].key && '-' !in catalog[i].key && catalog[i].key != "global"
          && DistinctIds(catalog[i].members)
          && forall m :: m in catalog[i].members ==> m.id != "")
  }

  // ---------------------------------------------------------------------------
  // The shared catalog (lib/teams-config.js)

  /** `TEAMS`. Its keys '499', '500' and '6000' are integer-like, so `Object.entries`
      lists them in ascending numeric order before 'unknown', which is also their
      order in the literal. */
  const Teams: Catalog := [Team499, Team500, Team6000, TeamUnknown]

  const Team499: Team := Team("499", "499 and under", [
    Member("76316685", "Mary Gantuangco", true),
    Member("76316686", "Bethany Cui", true),
    Member("1286204956", "Emma Naughton", false),
    Member("82237378", "Zack Edwards", false),
    Member("672462337", "Niamh Hamilton", false),
    Member("82237377", "Leilani Goodall", false),
    Member("1217171174", "Aoife Cripps", false)])

  const Team500: Team := Team("500", "500 - 5999", [
    Member("1286204956", "Emma Naughton", true),
    Member("82237378", "Zack Edwards", true),
    Member("672462337", "Niamh Hamilton", true),
    Member("82237377", "Leilani Goodall", true),
    Member("1217171174", "Aoife Cripps", true),
    Member("76316685", "Mary Gantuangco", false),
    Member("76316686", "Bethany Cui", false)])

  const Team6000: Team := Team("6000", "6000 and over", [
    Member("1286204956", "Emma Naughton", true),
    Member("672462337", "Niamh Hamilton", true),
    Member("82237378", "Zack Edwards", false),
    Member("82237377", "Leilani Goodall", false),
    Member("1217171174", "Aoife Cripps", false),
    Member("76316685", "Mary Gantuangco", false),
    Member("76316686", "Bethany Cui", false)])

  const TeamUnknown: Team := Team("unknown", "Unknown Amount", [
    Member("1286204956", "Emma Naughton", true),
    Member("82237378", "Zack Edwards", true),
    Member("672462337", "Niamh Hamilton", true),
    Member("82237377", "Leilani Goodall", true),
    Member("1217171174", "Aoife Cripps", true),
    Member("76316685", "Mary Gantuangco", false),
    Member("76316686", "Bethany Cui", false)])

  lemma TeamKeys()
    ensures |Teams| == 4
    ensures Teams[0].key == "499" && Teams[1].key == "500"
    ensures Teams[2].key == "6000" && Teams[3].key == "unknown"
  {
  }

  /** The active members of each team, in rotation order: a prefix of its roster. */
  lemma Roster499()
    ensures ActiveMembers(Team499.members) == Team499.members[..2]
  {
  }

  lemma Roster500()
    ensures ActiveMembers(Team500.members) == Team500.members[..5]
  {
  }

  lemma Roster6000()
    ensures ActiveMembers(Team6000.members) == Team6000.members[..2]
  {
  }

  lemma RosterUnknown()
    ensures ActiveMembers(TeamUnknown.members) == TeamUnknown.members[..5]
  {
  }

  /** Every team has members and at least one of them is active. */
  lemma EveryTeamStaffed()
    ensures forall t :: t in Teams ==> |t.members| == 7 && |ActiveMembers(t.members)| >= 1
  {
    forall t | t in Teams ensures |t.members| == 7 && |ActiveMembers(t.members)| >= 1 {
      if t == Team499 {
        Roster499();
      } else if t == Team500 {
        Roster500();
      } else if t == Team6000 {
        Roster6000();
      } else {
        RosterUnknown();
      }
    }
  }

  /** The shared catalog keeps its keys apart: see `WellFormed`. */
  lemma SharedCatalogWellFormed()
    ensures WellFormed(Teams)
  {
    TeamKeysClean();
    Distinct499();
    Distinct500();
    Distinct6000();
    DistinctUnknown();
    NonEmpty499();
    NonEmpty500();
    NonEmpty6000();
    NonEmptyUnknown();
    assert Teams[0] == Team499 && Teams[1] == Team500 && Teams[2] == Team6000 && Teams[3] == TeamUnknown;
  }

  lemma TeamKeysClean()
    ensures forall i, j :: 0 <= i < j < |Teams| ==> Teams[i].key != Teams[j].key
    ensures forall i :: 0 <= i < |Teams| ==>
      ':' !in Teams[i].key && '-' !in Teams[i].key && Teams[i].key != "global"
  {
  }

  /** Within each team, member ids are pairwise distinct and non-empty. */
  lemma Distinct499()
    ensures DistinctIds(Team499.members)
  {
  }

  lemma NonEmpty499()
    ensures forall i :: 0 <= i < |Team499.members| ==> Team499.members[i].id != ""
  {
  }

  lemma Distinct500()
    ensures DistinctIds(Team500.members)
  {
  }

  lemma NonEmpty500()
    ensures forall i :: 0 <= i < |Team500.members| ==> Team500.members[i].id != ""
  {
  }

  lemma Distinct6000()
    ensures DistinctIds(Team6000.members)
  {
  }

  lemma NonEmpty6000()
    ensures forall i :: 0 <= i < |Team6000.members| ==> Team6000.members[i].id != ""
  {
  }

  lemma DistinctUnknown()
    ensures DistinctIds(TeamUnknown.members)
  {
  }

  lemma NonEmptyUnknown()
    ensures forall i :: 0 <= i < |TeamUnknown.members| ==> TeamUnknown.members[i].id != ""
  {
  }
}
