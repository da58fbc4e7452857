/** Deciding which episodes of a show are new: aired on or before today and
    strictly past the show's watch position. */
module Episodes {
  import opened Wrappers
  import opened Dates
  import opened Seqs
  import opened Store

  /** The `airdate` field of an episode as the episode listing gives it. */
  datatype AirDate =
    | Missing          // JSON null
    | Blank            // the empty string
    | Given(date: Date) // a year-month-day text, already split into its fields
    | Malformed        // a non-empty text that is not of the form year-month-day

  datatype Episode = Episode(season: int, number: int, airdate: AirDate, name: string)

  /** Why checking one show produced no result. */
  datatype CheckError =
    | LookupFailed(reason: string) // the show search or episode listing failed
    | BadAirDate(airdate: AirDate) // `strptime` rejected an air date

  /** An air date `strptime` raises on: text it cannot read, or a triple
      that is no calendar day (30 February, month 13). */
  predicate Unreadable(a: AirDate) {
    a.Malformed? || (a.Given? && !IsValid(a.date))
  }

  /** Whether an episode with air date `a` has aired by `today`. */
  function IsAired(a: AirDate, today: Date): (r: Result<bool, CheckError>)
    ensures r.Failure? <==> Unreadable(a)
    ensures r.Failure? ==> r.error == BadAirDate(a)
    ensures a.Missing? || a.Blank? ==> r == Success(false)
    ensures r.Success? && a.Given? ==> (r.value <==> OnOrBefore(a.date, today))
  {
    match a
    case Missing => Success(false)
    case Blank => Success(false)
    case Malformed => Failure(BadAirDate(a))
    case Given(d) =>
      if !IsValid(d) then Failure(BadAirDate(a))
      else Success(OnOrBefore(d, today))
  }

  /** An episode airing today counts as aired, and so does one whose day
      number is any earlier: the date comparison is the day count. */
  lemma IsAiredByDayCount(a: AirDate, today: Date)
    requires a.Given? && IsValid(a.date) && IsValid(today)
    ensures IsAired(a, today) == Success(Ordinal(a.date) <= Ordinal(today))
    ensures a.date == today ==> IsAired(a, today) == Success(true)
  {
    OnOrBeforeIsDayOrder(a.date, today);
  }

  /** Episode `(season, number)` comes strictly after the watch position
      `(lastSeason, lastEpisode)`, season first. */
  predicate After(season: int, number: int, lastSeason: int, lastEpisode: int) {
    season > lastSeason || (season == lastSeason && number > lastEpisode)
  }

  /** An episode the check reports for `show`. */
  predicate IsNew(ep: Episode, show: Show, today: Date) {
    && ep.airdate.Given?
    && OnOrBefore(ep.airdate.date, today)
    && After(ep.season, ep.number, show.lastSeason, show.lastEpisode)
  }

  /** Some episode in the listing has an air date `strptime` rejects. */
  predicate HasUnreadable(episodes: seq<Episode>) {
    exists i :: 0 <= i < |episodes| && Unreadable(episodes[i].airdate)
  }

  /** The loop over the listing: episodes are visited in order, each air date
      is read before the position is compared, and the first unreadable air
      date ends the whole check with an error. */
  function CheckNewEpisodes(episodes: seq<Episode>, show: Show, today: Date)
    : (r: Result<seq<Episode>, CheckError>)
    ensures r.Failure? <==> HasUnreadable(episodes)
    ensures r.Failure? ==>
              exists i :: 0 <= i < |episodes| && r.error == BadAirDate(episodes[i].airdate)
                          && Unreadable(episodes[i].airdate)
                          && forall j :: 0 <= j < i ==> !Unreadable(episodes[j].airdate)
    ensures r.Success? ==> IsSubsequence(r.value, episodes)
    ensures r.Success? ==>
              forall e :: multiset(r.value)[e] == if IsNew(e, show, today) then multiset(episodes)[e] else 0
  {
    if |episodes| == 0 then Success([])
    else
      var ep := episodes[0];
      assert episodes == [ep] + episodes[1..];
      match IsAired(ep.airdate, today)
      case Failure(e) => Failure(e)
      case Success(aired) =>
        var rest := CheckNewEpisodes(episodes[1..], show, today);
        if rest.Failure? then rest
        else if aired && After(ep.season, ep.number, show.lastSeason, show.lastEpisode)
        then Success([ep] + rest.value)
        else rest
  }

  /** `After` is a strict total order on (season, episode) keys. */
  lemma AfterIsStrictTotalOrder(s1: int, e1: int, s2: int, e2: int, s3: int, e3: int)
    ensures !After(s1, e1, s1, e1)
    ensures After(s1, e1, s2, e2) ==> !After(s2, e2, s1, e1)
    ensures After(s1, e1, s2, e2) && After(s2, e2, s3, e3) ==> After(s1, e1, s3, e3)
    ensures (s1, e1) != (s2, e2) ==> After(s1, e1, s2, e2) || After(s2, e2, s1, e1)
  {
  }

  /** An episode is reported exactly when it is in the listing, has aired
      and lies past the watch position; the episode at the watch position
      and every earlier one never are. */
  lemma NewEpisodeMembership(episodes: seq<Episode>, show: Show, today: Date, e: Episode)
    requires CheckNewEpisodes(episodes, show, today).Success?
    ensures var found := CheckNewEpisodes(episodes, show, today).value;
            e in found <==> e in episodes && IsNew(e, show, today)
    ensures (e.season, e.number) == (show.lastSeason, show.lastEpisode)
            ==> e !in CheckNewEpisodes(episodes, show, today).value
  {
    var found := CheckNewEpisodes(episodes, show, today).value;
    assert e in found <==> multiset(found)[e] > 0;
    assert e in episodes <==> multiset(episodes)[e] > 0;
  }

  /** Moving the watch position forward can only drop episodes from the
      report, never add or reorder them. */
  lemma {:induction false} AdvancingNarrowsNew(episodes: seq<Episode>, behind: Show, ahead: Show, today: Date)
    requires !HasUnreadable(episodes)
    requires !After(behind.lastSeason, behind.lastEpisode, ahead.lastSeason, ahead.lastEpisode)
    ensures IsSubsequence(CheckNewEpisodes(episodes, ahead, today).value,
                          CheckNewEpisodes(episodes, behind, today).value)
    decreases |episodes|
  {
    if |episodes| > 0 {
      assert !HasUnreadable(episodes[1..]) by {
        forall i | 0 <= i < |episodes[1..]|
          ensures !Unreadable(episodes[1..][i].airdate)
        {
          assert episodes[1..][i] == episodes[i + 1];
        }
      }
      AdvancingNarrowsNew(episodes[1..], behind, ahead, today);
      var ep := episodes[0];
      var restAhead := CheckNewEpisodes(episodes[1..], ahead, today).value;
      var restBehind := CheckNewEpisodes(episodes[1..], behind, today).value;
      if IsNew(ep, ahead, today) {
        assert IsNew(ep, behind, today);
        assert ([ep] + restAhead)[1..] == restAhead;
        assert ([ep] + restBehind)[1..] == restBehind;
      } else if IsNew(ep, behind, today) {
        SubsequencePrepend(restAhead, restBehind, ep);
      }
    }
  }

  /** Checking on a later day can only add episodes to the report. */
  lemma {:induction false} LaterDayWidensNew(episodes: seq<Episode>, show: Show, earlier: Date, later: Date)
    requires !HasUnreadable(episodes)
    requires OnOrBefore(earlier, later)
    ensures IsSubsequence(CheckNewEpisodes(episodes, show, earlier).value,
                          CheckNewEpisodes(episodes, show, later).value)
    decreases |episodes|
  {
    if |episodes| > 0 {
      assert !HasUnreadable(episodes[1..]) by {
        forall i | 0 <= i < |episodes[1..]|
          ensures !Unreadable(episodes[1..][i].airdate)
        {
          assert episodes[1..][i] == episodes[i + 1];
        }
      }
      LaterDayWidensNew(episodes[1..], show, earlier, later);
      var ep := episodes[0];
      var restEarlier := CheckNewEpisodes(episodes[1..], show, earlier).value;
      var restLater := CheckNewEpisodes(episodes[1..], show, later).value;
      if IsNew(ep, show, earlier) {
        assert IsNew(ep, show, later);
        assert ([ep] + restEarlier)[1..] == restEarlier;
        assert ([ep] + restLater)[1..] == restLater;
      } else if IsNew(ep, show, later) {
        SubsequencePrepend(restEarlier, restLater, ep);
      }
    }
  }

  /** With the watch position at season 2, episode 5 and a listing of
      aired episodes S2E4, S2E5, S2E6, S3E1, S1E99, the check reports S2E6
      and S3E1, in listing order. */
  lemma WatchPositionExamples()
    ensures var aired := Given(Date(2024, 3, 1));
            var today := Date(2025, 1, 1);
            var show := Show("Severance", 2, 5);
            var listing := [Episode(2, 4, aired, "a"), Episode(2, 5, aired, "b"),
                            Episode(2, 6, aired, "c"), Episode(3, 1, aired, "d"),
                            Episode(1, 99, aired, "e")];
            CheckNewEpisodes(listing, show, today)
            == Success([Episode(2, 6, aired, "c"), Episode(3, 1, aired, "d")])
  {
    var aired := Given(Date(2024, 3, 1));
    var today := Date(2025, 1, 1);
    var show := Show("Severance", 2, 5);
    var e4, e5, e6 := Episode(2, 4, aired, "a"), Episode(2, 5, aired, "b"), Episode(2, 6, aired, "c");
    var f1, g99 := Episode(3, 1, aired, "d"), Episode(1, 99, aired, "e");
    var listing := [e4, e5, e6, f1, g99];
    assert IsValid(aired.date);
    assert IsAired(aired, today) == Success(true);
    assert listing[4..] == [g99] && [g99][1..] == [];
    assert CheckNewEpisodes([], show, today) == Success([]);
    assert CheckNewEpisodes(listing[4..], show, today) == Success([]);
    assert listing[3..][1..] == listing[4..] && listing[3..][0] == f1;
    assert [f1] + [] == [f1];
    assert CheckNewEpisodes(listing[3..], show, today) == Success([f1]);
    assert listing[2..][1..] == listing[3..] && listing[2..][0] == e6;
    assert [e6] + [f1] == [e6, f1];
    assert CheckNewEpisodes(listing[2..], show, today) == Success([e6, f1]);
    assert listing[1..][1..] == listing[2..];
    assert CheckNewEpisodes(listing[1..], show, today) == Success([e6, f1]);
    assert listing[1..] == listing[0..][1..];
  }
}
