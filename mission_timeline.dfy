/**
 * The "Duration" line of the mission details: the launch date, followed by
 * " - " and the end date when the record has one.
 */
module MissionTimeline {

  import opened Missions

  /** Written between the launch date and the end date. */
  const DateSeparator: string := " - "

  /**
   * The timeline text of `mission`. It always starts with the launch date;
   * its length is the launch date's alone when there is no end date, and
   * the two dates' plus the separator's otherwise.
   */
  function Timeline(mission: Mission): (r: string)
    ensures |mission.launchDate| <= |r| && r[..|mission.launchDate|] == mission.launchDate
    ensures |r| == if mission.endDate == "" then |mission.launchDate|
                   else |mission.launchDate| + |DateSeparator| + |mission.endDate|
  {
    if mission.endDate != "" then mission.launchDate + DateSeparator + mission.endDate
    else mission.launchDate
  }

  /**
   * Reads the end date back out of a timeline whose launch date is known:
   * what follows the separator, or the empty string when nothing does.
   */
  function EndDateOf(launchDate: string, timeline: string): (endDate: string)
    ensures |endDate| <= |timeline| && timeline[|timeline| - |endDate|..] == endDate
  {
    if |timeline| <= |launchDate| + |DateSeparator| then ""
    else timeline[|launchDate| + |DateSeparator|..]
  }

  /**
   * The timeline loses nothing: the end date (present or not) can be
   * recovered from it and from the launch date, and the text between them
   * is the separator.
   */
  lemma TimelineRoundTrip(mission: Mission)
    ensures EndDateOf(mission.launchDate, Timeline(mission)) == mission.endDate
    ensures mission.endDate != "" ==>
              Timeline(mission)[|mission.launchDate|..|mission.launchDate| + |DateSeparator|] == DateSeparator
  {
    var l, e := mission.launchDate, mission.endDate;
    if e != "" {
      assert Timeline(mission)[|l| + |DateSeparator|..] == e;
    }
  }

  /** Two missions launched on the same date show the same timeline only if their end dates agree. */
  lemma TimelineDeterminesEndDate(m1: Mission, m2: Mission)
    requires m1.launchDate == m2.launchDate
    requires Timeline(m1) == Timeline(m2)
    ensures m1.endDate == m2.endDate
  {
    TimelineRoundTrip(m1);
    TimelineRoundTrip(m2);
  }

  /** The two worked cases: an Apollo 11 record with and without an end date. */
  lemma TimelineExamples(id: string, name: string, wikiHref: string)
    ensures Timeline(Mission(id, name, "1969-07-16", "1969-07-24", wikiHref)) == "1969-07-16 - 1969-07-24"
    ensures Timeline(Mission(id, name, "1969-07-16", "", wikiHref)) == "1969-07-16"
  {
  }
}
