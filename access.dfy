/**
 * GitLab's access levels: the constants of the command-line front end, and
 * the name tables both versions of the script check a record's
 * `access_level` column against.
 */
module Access {
  import opened Text
  import opened Models

  const MinimalAccess: int := 5
  const Guest: int := 10
  const Reporter: int := 20
  const Developer: int := 30
  const Maintainer: int := 40
  const Owner: int := 50

  /** The attribute names of the constants, from the lowest level to the highest. */
  const LevelNames: seq<string> :=
    ["MINIMAL_ACCESS", "GUEST", "REPORTER", "DEVELOPER", "MAINTAINER", "OWNER"]

  /** `getattr(AccessLevel, name, None)` */
  function LevelOf(name: string): (r: Option<int>)
    ensures r.Some? <==> name in LevelNames
    ensures r.Some? ==> r.value > 0
  {
    if name == "MINIMAL_ACCESS" then Some(MinimalAccess)
    else if name == "GUEST" then Some(Guest)
    else if name == "REPORTER" then Some(Reporter)
    else if name == "DEVELOPER" then Some(Developer)
    else if name == "MAINTAINER" then Some(Maintainer)
    else if name == "OWNER" then Some(Owner)
    else None
  }

  /** The levels rise strictly in the order the constants are declared. */
  lemma LevelsIncrease(i: nat, j: nat)
    requires i < j < |LevelNames|
    ensures LevelOf(LevelNames[i]).value < LevelOf(LevelNames[j]).value
  {
    assert LevelNames[0] == "MINIMAL_ACCESS" && LevelNames[1] == "GUEST" && LevelNames[2] == "REPORTER";
    assert LevelNames[3] == "DEVELOPER" && LevelNames[4] == "MAINTAINER" && LevelNames[5] == "OWNER";
  }

  /**
   * The front end's lookup of a record's access level: the attribute named
   * by the upper-cased text, if the constants have one.
   */
  function ResolveAccessLevel(s: string): (r: Option<int>)
    ensures r.Some? <==> Upper(s) in LevelNames
    ensures r.Some? ==> r.value in {MinimalAccess, Guest, Reporter, Developer, Maintainer, Owner}
  {
    LevelOf(Upper(s))
  }

  /** "master" is no longer a level name there; "minimal_access" and mixed case are. */
  lemma ResolveExamples()
    ensures ResolveAccessLevel("master").None?
    ensures ResolveAccessLevel("minimal_access") == Some(MinimalAccess)
    ensures ResolveAccessLevel("Maintainer") == Some(Maintainer)
  {
    assert Upper("master") == "MASTER";
    assert Upper("minimal_access") == "MINIMAL_ACCESS";
    assert Upper("Maintainer") == "MAINTAINER";
  }

  /** The script's `ACCESS_LEVEL` table. */
  const AccessLevelByName: map<string, int> :=
    map["guest" := Guest, "reporter" := Reporter, "developer" := Developer,
        "master" := Maintainer, "maintainer" := Maintainer, "owner" := Owner]

  /** The earlier script's table, which predates the name "maintainer". */
  const LegacyAccessLevelByName: map<string, int> :=
    map["guest" := Guest, "reporter" := Reporter, "developer" := Developer,
        "master" := Maintainer, "owner" := Owner]

  /**
   * The script accepts exactly six names, "master" and "maintainer" giving
   * the same level; the earlier script accepts the same names but "maintainer".
   */
  lemma AccessLevelTables()
    ensures AccessLevelByName.Keys == {"guest", "reporter", "developer", "master", "maintainer", "owner"}
    ensures AccessLevelByName["master"] == AccessLevelByName["maintainer"] == Maintainer
    ensures LegacyAccessLevelByName.Keys == AccessLevelByName.Keys - {"maintainer"}
    ensures forall k :: k in LegacyAccessLevelByName ==> LegacyAccessLevelByName[k] == AccessLevelByName[k]
  {
  }
}
