/** The tracked-show list and the three edits the menu offers on it. The
    list is what `shows.json` holds, in file order; the menu numbers its
    entries from 1. */
module Store {
  import opened Wrappers
  import opened Text

  /** One tracked show: the highest season and episode the user has
      confirmed watching. */
  datatype Show = Show(name: string, lastSeason: int, lastEpisode: int)

  /** Why an edit left the list as it was. */
  datatype StoreError =
    | AlreadyTracked   // add: a show of that name, ignoring case, exists
    | NoShows          // remove/update: the list is empty
    | InvalidSelection // remove/update: the menu number names no show

  /** Some tracked show carries `name`, ignoring case. */
  predicate IsTracked(shows: seq<Show>, name: string) {
    exists k :: 0 <= k < |shows| && SameName(shows[k].name, name)
  }

  /** No two tracked shows have the same name, ignoring case. */
  predicate NamesDistinct(shows: seq<Show>) {
    forall i, j :: 0 <= i < j < |shows| ==> !SameName(shows[i].name, shows[j].name)
  }

  /** Under unique names, a name picks out one entry. */
  lemma DistinctNamesIdentify(shows: seq<Show>, i: int, j: int)
    requires NamesDistinct(shows)
    requires 0 <= i < |shows| && 0 <= j < |shows|
    requires SameName(shows[i].name, shows[j].name)
    ensures i == j
  {
  }

  /** A 1-based menu number that names an entry of `shows`. */
  predicate IsChoice(shows: seq<Show>, choice: int) {
    1 <= choice <= |shows|
  }

  /** Adding a show under the name the user typed. The name is stripped of
      surrounding whitespace; if it matches a tracked name ignoring case the
      list stays as it was, otherwise the new record goes at the end. */
  function AddShow(shows: seq<Show>, typed: string, season: int, episode: int)
    : (r: Result<seq<Show>, StoreError>)
    ensures r.Failure? <==> IsTracked(shows, Strip(typed))
    ensures r.Failure? ==> r.error == AlreadyTracked
    ensures r.Success? ==>
              && |r.value| == |shows| + 1
              && r.value[..|shows|] == shows
              && r.value[|shows|] == Show(Strip(typed), season, episode)
  {
    var name := Strip(typed);
    if IsTracked(shows, name) then Failure(AlreadyTracked)
    else Success(shows + [Show(name, season, episode)])
  }

  /** Removing the show the user picked by its menu number. */
  function RemoveShow(shows: seq<Show>, choice: int): (r: Result<seq<Show>, StoreError>)
    ensures r.Success? <==> IsChoice(shows, choice)
    ensures r.Failure? ==> r.error == (if |shows| == 0 then NoShows else InvalidSelection)
    ensures r.Success? ==>
              && |r.value| == |shows| - 1
              && (forall k :: 0 <= k < choice - 1 ==> r.value[k] == shows[k])
              && (forall k :: choice - 1 <= k < |r.value| ==> r.value[k] == shows[k + 1])
  {
    if |shows| == 0 then Failure(NoShows)
    else if IsChoice(shows, choice) then Success(shows[..choice - 1] + shows[choice..])
    else Failure(InvalidSelection)
  }

  /** Moving the watch position of the show the user picked by its menu
      number. */
  function UpdateShow(shows: seq<Show>, choice: int, season: int, episode: int)
    : (r: Result<seq<Show>, StoreError>)
    ensures r.Success? <==> IsChoice(shows, choice)
    ensures r.Failure? ==> r.error == (if |shows| == 0 then NoShows else InvalidSelection)
    ensures r.Success? ==>
              && |r.value| == |shows|
              && r.value[choice - 1].name == shows[choice - 1].name
              && r.value[choice - 1].lastSeason == season
              && r.value[choice - 1].lastEpisode == episode
              && (forall k :: 0 <= k < |shows| && k != choice - 1 ==> r.value[k] == shows[k])
  {
    if |shows| == 0 then Failure(NoShows)
    else if IsChoice(shows, choice) then
      var show := shows[choice - 1];
      Success(shows[choice - 1 := show.(lastSeason := season, lastEpisode := episode)])
    else Failure(InvalidSelection)
  }

  /** Adding keeps the names case-insensitively unique, which is why the
      add operation checks first. */
  lemma AddKeepsNamesDistinct(shows: seq<Show>, typed: string, season: int, episode: int)
    requires NamesDistinct(shows)
    requires AddShow(shows, typed, season, episode).Success?
    ensures NamesDistinct(AddShow(shows, typed, season, episode).value)
  {
    var r := AddShow(shows, typed, season, episode).value;
    forall i, j | 0 <= i < j < |r|
      ensures !SameName(r[i].name, r[j].name)
    {
      if j == |shows| {
        assert r[i] == shows[i] && r[j].name == Strip(typed);
      } else {
        assert r[i] == shows[i] && r[j] == shows[j];
      }
    }
  }

  /** Once added, the same name is refused, whatever the case and
      surrounding whitespace it is typed with. */
  lemma AddTwiceRefused(shows: seq<Show>, typed: string, again: string,
                        season: int, episode: int, season2: int, episode2: int)
    requires AddShow(shows, typed, season, episode).Success?
    requires SameName(Strip(again), Strip(typed))
    ensures AddShow(AddShow(shows, typed, season, episode).value, again, season2, episode2)
            == Failure(AlreadyTracked)
  {
    var r := AddShow(shows, typed, season, episode).value;
    assert SameName(r[|shows|].name, Strip(again));
  }

  /** Removing the entry that was just added, by its menu number, gives back
      the list as it was before the add. */
  lemma AddThenRemoveRestores(shows: seq<Show>, typed: string, season: int, episode: int)
    requires AddShow(shows, typed, season, episode).Success?
    ensures RemoveShow(AddShow(shows, typed, season, episode).value, |shows| + 1)
            == Success(shows)
  {
    var r := AddShow(shows, typed, season, episode).value;
    assert r[..|shows|] + r[|shows| + 1..] == shows;
  }

  /** Removal deletes exactly the picked entry: putting it back at its
      place rebuilds the original list. */
  lemma RemoveDeletesOnlyChoice(shows: seq<Show>, choice: int)
    requires IsChoice(shows, choice)
    ensures var r := RemoveShow(shows, choice).value;
            && r[..choice - 1] + [shows[choice - 1]] + r[choice - 1..] == shows
            && multiset(r) + multiset{shows[choice - 1]} == multiset(shows)
  {
    var r := RemoveShow(shows, choice).value;
    assert r[..choice - 1] == shows[..choice - 1];
    assert r[choice - 1..] == shows[choice..];
    assert shows == shows[..choice - 1] + [shows[choice - 1]] + shows[choice..];
  }

  lemma RemoveKeepsNamesDistinct(shows: seq<Show>, choice: int)
    requires NamesDistinct(shows) && IsChoice(shows, choice)
    ensures NamesDistinct(RemoveShow(shows, choice).value)
  {
    var r := RemoveShow(shows, choice).value;
    forall i, j | 0 <= i < j < |r|
      ensures !SameName(r[i].name, r[j].name)
    {
      var i' := if i < choice - 1 then i else i + 1;
      var j' := if j < choice - 1 then j else j + 1;
      assert r[i] == shows[i'] && r[j] == shows[j'];
    }
  }

  /** Updating never renames: the names, in order, stay the same, so the
      names stay unique. */
  lemma UpdateKeepsNames(shows: seq<Show>, choice: int, season: int, episode: int)
    requires IsChoice(shows, choice)
    ensures var r := UpdateShow(shows, choice, season, episode).value;
            forall k :: 0 <= k < |shows| ==> r[k].name == shows[k].name
    ensures NamesDistinct(shows) ==> NamesDistinct(UpdateShow(shows, choice, season, episode).value)
  {
  }

  /** Updating back to the previous watch position undoes an update. */
  lemma UpdateUndone(shows: seq<Show>, choice: int, season: int, episode: int)
    requires IsChoice(shows, choice)
    ensures var previous := shows[choice - 1];
            var r := UpdateShow(shows, choice, season, episode).value;
            UpdateShow(r, choice, previous.lastSeason, previous.lastEpisode) == Success(shows)
  {
    var r := UpdateShow(shows, choice, season, episode).value;
    var r2 := UpdateShow(r, choice, shows[choice - 1].lastSeason, shows[choice - 1].lastEpisode).value;
    assert r2 == shows;
  }

  /** A name differing from a tracked one only in case and surrounding
      spaces is refused. */
  lemma CaseVariantRefused()
    ensures AddShow([Show("Severance", 1, 9)], "  severance ", 2, 0) == Failure(AlreadyTracked)
  {
    StripExample();
    assert Lower("Severance") == "severance" == Lower("severance");
    var shows := [Show("Severance", 1, 9)];
    assert SameName(shows[0].name, "severance");
    assert IsTracked([Show("Severance", 1, 9)], "severance");
  }
}
