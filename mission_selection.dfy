/**
 * Which mission the web part shows: the `selectedMission` property when it
 * holds a non-empty string, Apollo 11 ("AS-506") otherwise; the chosen id is
 * handed unchanged to the mission lookup, whose answer is returned as it is.
 *
 * The lookup service is represented by a map from mission id to mission
 * record; a missing key is its `null`.
 */
module MissionSelection {

  import opened Wrappers
  import opened Missions
  import MissionCode

  /** The mission shown when no mission is selected: Apollo 11. */
  const DefaultMissionId: string := "AS-506"

  /** The property is falsy: absent (`undefined`/`null`) or the empty string. */
  predicate IsFalsy(selectedMission: Option<string>) {
    selectedMission == None || selectedMission == Some("")
  }

  /**
   * The id passed to the lookup: the default when the property is falsy, the
   * property itself otherwise. It is never empty.
   */
  function SelectedMissionId(selectedMission: Option<string>): (id: string)
    ensures id != ""
    ensures selectedMission.Some? && selectedMission.value != "" ==> id == selectedMission.value
    ensures selectedMission.None? || selectedMission.value == "" ==> id == DefaultMissionId
  {
    if !IsFalsy(selectedMission) then selectedMission.value else DefaultMissionId
  }

  /** The lookup of a mission id in the catalog: None when no record has that id. */
  function GetMission(catalog: map<string, Mission>, id: string): (r: Option<Mission>)
    ensures r.None? <==> id !in catalog
    ensures r.Some? ==> r.value == catalog[id] && r.value in catalog.Values
  {
    if id in catalog then Some(catalog[id]) else None
  }

  /**
   * The mission the web part selects for display: the lookup's answer for
   * the property when it is truthy, for Apollo 11 otherwise, or None when the
   * lookup finds nothing.
   */
  function GetSelectedMission(catalog: map<string, Mission>, selectedMission: Option<string>): (r: Option<Mission>)
    ensures !IsFalsy(selectedMission) ==> r == GetMission(catalog, selectedMission.value)
    ensures IsFalsy(selectedMission) ==> r == GetMission(catalog, DefaultMissionId)
  {
    GetMission(catalog, SelectedMissionId(selectedMission))
  }

  /** Every record sits under its own id. */
  ghost predicate WellKeyed(catalog: map<string, Mission>) {
    forall id :: id in catalog ==> catalog[id].id == id
  }

  /**
   * Feeding the selected id back into the property selects the same id: the
   * defaulting is idempotent.
   */
  lemma SelectionIdempotent(selectedMission: Option<string>)
    ensures SelectedMissionId(Some(SelectedMissionId(selectedMission))) == SelectedMissionId(selectedMission)
  {
  }

  /**
   * In a catalog whose records sit under their own ids, a mission that is
   * found has the id that was selected, and nothing is found only when no
   * record has that id.
   */
  lemma FoundMissionHasSelectedId(catalog: map<string, Mission>, selectedMission: Option<string>)
    requires WellKeyed(catalog)
    ensures GetSelectedMission(catalog, selectedMission).Some? ==>
              GetSelectedMission(catalog, selectedMission).value.id == SelectedMissionId(selectedMission)
    ensures GetSelectedMission(catalog, selectedMission).None? <==>
              forall m :: m in catalog.Values ==> m.id != SelectedMissionId(selectedMission)
  {
    var id := SelectedMissionId(selectedMission);
    if id in catalog {
      assert catalog[id] in catalog.Values;
    }
  }

  /** With nothing selected, the lookup is asked for Apollo 11. */
  lemma DefaultSelectsApolloEleven(catalog: map<string, Mission>)
    ensures GetSelectedMission(catalog, None) == GetMission(catalog, "AS-506")
    ensures GetSelectedMission(catalog, Some("")) == GetMission(catalog, "AS-506")
  {
  }

  /** The default id is a code the property-pane validator accepts. */
  lemma DefaultIdIsValid()
    ensures MissionCode.ValidateMissionCode(DefaultMissionId) == ""
  {
    MissionCode.SixCharacterCodes('5', '0', '6');
    assert DefaultMissionId == "AS-" + ['5', '0', '6'];
  }

  /**
   * The selection itself checks nothing: every non-empty value, accepted by
   * the validator or not, is passed on to the lookup unchanged; "AS-306",
   * which the validator rejects, is one of them.
   */
  lemma ValidatorDoesNotGuardLookup(catalog: map<string, Mission>, value: string)
    ensures value != "" ==> GetSelectedMission(catalog, Some(value)) == GetMission(catalog, value)
    ensures MissionCode.ValidateMissionCode("AS-306") == MissionCode.InvalidCodeMessage
    ensures GetSelectedMission(catalog, Some("AS-306")) == GetMission(catalog, "AS-306")
  {
    MissionCode.OutOfClassRejected();
  }
}
