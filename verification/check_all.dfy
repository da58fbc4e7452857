/** The check-all run: every tracked show is checked in list order and sorted
    into the shows with new episodes and the shows with none; a show whose
    check fails is reported in neither and the run goes on. */
module CheckAll {
  import opened Wrappers
  import opened Dates
  import opened Seqs
  import opened Store
  import opened Episodes

  /** What the run reports: the new episodes by show name, and the names of
      the shows with nothing new, in list order. */
  datatype Digest = Digest(newEpisodes: map<string, seq<Episode>>, upToDate: seq<string>)

  type Outcome = Result<seq<Episode>, CheckError>

  predicate HasNew(o: Outcome) {
    o.Success? && |o.value| > 0
  }

  predicate NothingNew(o: Outcome) {
    o.Success? && |o.value| == 0
  }

  function Names(shows: seq<Show>): (names: seq<string>)
    ensures |names| == |shows|
    ensures forall k :: 0 <= k < |shows| ==> names[k] == shows[k].name
  {
    seq(|shows|, k requires 0 <= k < |shows| => shows[k].name)
  }

  /** The show at `i` is the last one named like it whose check found
      something new, so its episodes are the ones kept under the name. */
  predicate LastWithNews(shows: seq<Show>, outcomes: seq<Outcome>, i: int)
    requires |outcomes| == |shows| && 0 <= i < |shows|
  {
    forall j :: i < j < |shows| && shows[j].name == shows[i].name ==> !HasNew(outcomes[j])
  }

  /** The loop over the shows, given each show's check outcome. A show with
      new episodes stores them under its name, replacing what an earlier
      show of the same name stored; a show with none appends its name. */
  function Partition(shows: seq<Show>, outcomes: seq<Outcome>): (d: Digest)
    requires |outcomes| == |shows|
    ensures d.newEpisodes.Keys <= set k | 0 <= k < |shows| :: shows[k].name
    ensures IsSubsequence(d.upToDate, Names(shows))
    decreases |shows|
  {
    if |shows| == 0 then Digest(map[], [])
    else
      var n := |shows| - 1;
      var d := Partition(shows[..n], outcomes[..n]);
      assert Names(shows) == Names(shows[..n]) + [shows[n].name];
      SubsequenceAppend(d.upToDate, Names(shows[..n]), shows[n].name);
      match outcomes[n]
      case Failure(_) => d
      case Success(found) =>
        if |found| > 0 then d.(newEpisodes := d.newEpisodes[shows[n].name := found])
        else d.(upToDate := d.upToDate + [shows[n].name])
  }

  /** The names of the shows whose check found nothing, one per such show,
      in list order, read front to back. */
  function NoNewNames(shows: seq<Show>, outcomes: seq<Outcome>): seq<string>
    requires |outcomes| == |shows|
    decreases |shows|
  {
    if |shows| == 0 then []
    else (if NothingNew(outcomes[0]) then [shows[0].name] else []) + NoNewNames(shows[1..], outcomes[1..])
  }

  /** Reading the list front to back agrees with adding one show at the end. */
  lemma {:induction false} NoNewNamesSnoc(shows: seq<Show>, outcomes: seq<Outcome>)
    requires |outcomes| == |shows| > 0
    ensures var n := |shows| - 1;
            NoNewNames(shows, outcomes)
            == NoNewNames(shows[..n], outcomes[..n]) + (if NothingNew(outcomes[n]) then [shows[n].name] else [])
    decreases |shows|
  {
    var n := |shows| - 1;
    if n > 0 {
      NoNewNamesSnoc(shows[1..], outcomes[1..]);
      assert shows[1..][..n - 1] == shows[..n][1..];
      assert outcomes[1..][..n - 1] == outcomes[..n][1..];
    }
  }

  /** The no-new list holds one entry per show whose check found nothing,
      repeated names included, in list order. */
  lemma {:induction false} UpToDateInOrder(shows: seq<Show>, outcomes: seq<Outcome>)
    requires |outcomes| == |shows|
    ensures Partition(shows, outcomes).upToDate == NoNewNames(shows, outcomes)
    decreases |shows|
  {
    if |shows| > 0 {
      var n := |shows| - 1;
      UpToDateInOrder(shows[..n], outcomes[..n]);
      NoNewNamesSnoc(shows, outcomes);
    }
  }

  /** One show's check: the episode listing, or the lookup's failure, run
      through the new-episode filter. */
  function CheckShow(listing: Outcome, show: Show, today: Date): (o: Outcome)
    ensures listing.Failure? ==> o == listing
    ensures listing.Success? ==> (o.Failure? <==> HasUnreadable(listing.value))
    ensures o.Success? ==> IsSubsequence(o.value, listing.value)
    ensures o.Success? ==> forall e :: e in o.value <==> e in listing.value && IsNew(e, show, today)
  {
    match listing
    case Failure(e) => Failure(e)
    case Success(episodes) =>
      var o := CheckNewEpisodes(episodes, show, today);
      if o.Success? then
        forall e ensures e in o.value <==> e in episodes && IsNew(e, show, today) {
          NewEpisodeMembership(episodes, show, today, e);
        }
        o
      else o
  }

  /** A name is a key of the new-episode map exactly when some show of that
      name found new episodes. */
  lemma {:induction false} NewEpisodeKeys(shows: seq<Show>, outcomes: seq<Outcome>, name: string)
    requires |outcomes| == |shows|
    ensures name in Partition(shows, outcomes).newEpisodes <==>
            exists i :: 0 <= i < |shows| && shows[i].name == name && HasNew(outcomes[i])
    decreases |shows|
  {
    if |shows| > 0 {
      var n := |shows| - 1;
      NewEpisodeKeys(shows[..n], outcomes[..n], name);
      if exists i :: 0 <= i < n && shows[..n][i].name == name && HasNew(outcomes[..n][i]) {
        var i :| 0 <= i < n && shows[..n][i].name == name && HasNew(outcomes[..n][i]);
        assert shows[i].name == name && HasNew(outcomes[i]);
      }
    }
  }

  /** The episodes kept under a name are those of the last show of that name
      that found new episodes. */
  lemma {:induction false} NewEpisodeValue(shows: seq<Show>, outcomes: seq<Outcome>, i: int)
    requires |outcomes| == |shows| && 0 <= i < |shows|
    requires HasNew(outcomes[i]) && LastWithNews(shows, outcomes, i)
    ensures var m := Partition(shows, outcomes).newEpisodes;
            shows[i].name in m && m[shows[i].name] == outcomes[i].value
    decreases |shows|
  {
    var n := |shows| - 1;
    if i < n {
      assert LastWithNews(shows[..n], outcomes[..n], i) by {
        forall j | i < j < n && shows[..n][j].name == shows[..n][i].name
          ensures !HasNew(outcomes[..n][j])
        {
          assert shows[..n][j] == shows[j] && outcomes[..n][j] == outcomes[j];
        }
      }
      NewEpisodeValue(shows[..n], outcomes[..n], i);
    }
  }

  /** A name is in the no-new list exactly when some show of that name was
      checked successfully and found nothing. */
  lemma {:induction false} UpToDateMembers(shows: seq<Show>, outcomes: seq<Outcome>, name: string)
    requires |outcomes| == |shows|
    ensures name in Partition(shows, outcomes).upToDate <==>
            exists i :: 0 <= i < |shows| && shows[i].name == name && NothingNew(outcomes[i])
    decreases |shows|
  {
    if |shows| > 0 {
      var n := |shows| - 1;
      UpToDateMembers(shows[..n], outcomes[..n], name);
      if exists i :: 0 <= i < n && shows[..n][i].name == name && NothingNew(outcomes[..n][i]) {
        var i :| 0 <= i < n && shows[..n][i].name == name && NothingNew(outcomes[..n][i]);
        assert shows[i].name == name && NothingNew(outcomes[i]);
      }
    }
  }

  /** With the names unique, as adding shows keeps them, every show whose
      check succeeded is in exactly one of the two parts, with its own
      episodes when it has new ones, and a show whose check failed is in
      neither; no failure stops the shows after it from being sorted. */
  lemma ExactlyOneBucket(shows: seq<Show>, outcomes: seq<Outcome>, i: int)
    requires |outcomes| == |shows| && 0 <= i < |shows|
    requires NamesDistinct(shows)
    ensures var d := Partition(shows, outcomes);
            var name := shows[i].name;
            && (name in d.newEpisodes <==> HasNew(outcomes[i]))
            && (name in d.upToDate <==> NothingNew(outcomes[i]))
            && (HasNew(outcomes[i]) ==> d.newEpisodes[name] == outcomes[i].value)
  {
    var name := shows[i].name;
    NewEpisodeKeys(shows, outcomes, name);
    UpToDateMembers(shows, outcomes, name);
    forall j | 0 <= j < |shows| && shows[j].name == name
      ensures j == i
    {
      DistinctNamesIdentify(shows, i, j);
    }
    if HasNew(outcomes[i]) {
      NewEpisodeValue(shows, outcomes, i);
    }
  }

  /** A failed check of one show changes nothing about where any other show
      is sorted. */
  lemma FailureIsolated(shows: seq<Show>, outcomes: seq<Outcome>, k: int, e: CheckError, i: int)
    requires |outcomes| == |shows| && NamesDistinct(shows)
    requires 0 <= k < |shows| && 0 <= i < |shows| && i != k
    ensures var before := Partition(shows, outcomes);
            var after := Partition(shows, outcomes[k := Failure(e)]);
            var name := shows[i].name;
            && (name in after.newEpisodes <==> name in before.newEpisodes)
            && (name in after.newEpisodes ==> after.newEpisodes[name] == before.newEpisodes[name])
            && (name in after.upToDate <==> name in before.upToDate)
            && shows[k].name !in after.newEpisodes
            && shows[k].name !in after.upToDate
  {
    var failed := outcomes[k := Failure(e)];
    ExactlyOneBucket(shows, outcomes, i);
    ExactlyOneBucket(shows, failed, i);
    ExactlyOneBucket(shows, failed, k);
  }

  /** Every show's check outcome, in list order. */
  function Outcomes(shows: seq<Show>, listings: seq<Outcome>, today: Date): (os: seq<Outcome>)
    requires |listings| == |shows|
    ensures |os| == |shows|
    ensures forall k :: 0 <= k < |shows| ==> os[k] == CheckShow(listings[k], shows[k], today)
  {
    seq(|shows|, k requires 0 <= k < |shows| => CheckShow(listings[k], shows[k], today))
  }

  /** The check-all run, given the episode listing (or lookup failure) for
      each tracked show. With no tracked shows it stops before checking and
      there is no digest to send; otherwise a digest is always produced and
      handed to the mailer, even when it is empty. */
  function CheckAll(shows: seq<Show>, listings: seq<Outcome>, today: Date): (r: Option<Digest>)
    requires |listings| == |shows|
    ensures r.None? <==> |shows| == 0
    ensures r.Some? ==> IsSubsequence(r.value.upToDate, Names(shows))
    ensures r.Some? ==> forall name :: name in r.value.newEpisodes ==>
              exists k :: 0 <= k < |shows| && shows[k].name == name
  {
    if |shows| == 0 then None
    else Some(Partition(shows, Outcomes(shows, listings, today)))
  }

  /** How one tracked show of a list with unique names ends up in the
      digest: a failed lookup or an unreadable air date leaves it out
      entirely; otherwise its new episodes are listed under its name, or
      its name is in the no-new list when there are none. */
  lemma CheckAllPlacesShow(shows: seq<Show>, listings: seq<Outcome>, today: Date, i: int)
    requires |listings| == |shows| && NamesDistinct(shows) && 0 <= i < |shows|
    ensures var d := CheckAll(shows, listings, today).value;
            var name := shows[i].name;
            if listings[i].Failure? || HasUnreadable(listings[i].value) then
              name !in d.newEpisodes && name !in d.upToDate
            else
              var found := CheckNewEpisodes(listings[i].value, shows[i], today).value;
              if |found| > 0 then name in d.newEpisodes && d.newEpisodes[name] == found && name !in d.upToDate
              else name in d.upToDate && name !in d.newEpisodes
  {
    ExactlyOneBucket(shows, Outcomes(shows, listings, today), i);
  }

  /** The run produces a digest, and so tries to mail it, even when every
      check failed and there is nothing to report. */
  lemma DigestEvenWhenNothingFound(shows: seq<Show>, listings: seq<Outcome>, today: Date)
    requires |listings| == |shows| > 0
    requires forall k :: 0 <= k < |shows| ==> CheckShow(listings[k], shows[k], today).Failure?
    ensures CheckAll(shows, listings, today) == Some(Digest(map[], []))
  {
    var d := CheckAll(shows, listings, today).value;
    var os := Outcomes(shows, listings, today);
    forall name ensures name !in d.newEpisodes {
      NewEpisodeKeys(shows, os, name);
    }
    var first := if |d.upToDate| > 0 then d.upToDate[0] else "";
    UpToDateMembers(shows, os, first);
    assert d.newEpisodes == map[] && d.upToDate == [];
  }
}
