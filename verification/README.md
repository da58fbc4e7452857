# Show-Tracker: the "what's new" logic, in Dafny

Show-Tracker keeps a list of TV shows, each with the last season and episode
the user has watched. On request it fetches each show's episode listing from
the TVMaze service. It reports the episodes that have aired and lie past the
watch position, and mails a digest of them. This project models the logic
behind that report in `tv_episode_checker.py`:

- `is_aired`: whether an air date is on or before today (`episodes.dfy`, with
  the calendar in `dates.dfy`);
- the loop of `check_new_episodes` that filters the listing (`episodes.dfy`);
- the list edits of `add_new_show`, `remove_show` and `update_show`, with the
  JSON file replaced by a `seq<Show>` (`store.dfy`, with `strip` and `lower`
  in `text.dfy`);
- the loop of `check_all_shows_and_email` that sorts each show into "new
  episodes" or "no new episodes" (`check_all.dfy`).

Everything is a pure function. Today's date, each show's episode listing and
any lookup failure are parameters. An exception is a `Failure` value of
`Wrappers.Result`. An air date is one of four shapes: JSON null, the empty
string, a year-month-day triple, or text `strptime` cannot read. A triple
that is not a calendar day (30 February) is rejected as `strptime` rejects it.
Dates compare field by field, as Python compares `date` objects.
`Dates.OnOrBeforeIsDayOrder` shows that this order agrees with day numbers as
`date.toordinal()` counts them.

Two behaviours of the code worth stating plainly:
- The code hands a digest to the mailer on every run with at least one
  tracked show, even when every check failed or found nothing (line 221).
  `CheckAll.DigestEvenWhenNothingFound` states this.
- The code stores any integer typed as the watch position, negative
  included; so does `Store.UpdateShow`.

## Model

| member | source | states |
|---|---|---|
| `Episodes.IsAired` | tv_episode_checker.py:47-51 | a null or empty air date has not aired, whatever the episode; an unreadable one raises; a readable one has aired exactly when it is on or before today |
| `Episodes.IsAiredByDayCount` | tv_episode_checker.py:51 | for a valid air date, aired exactly when its day number is at most today's, so an episode airing today counts as aired |
| `Dates.OnOrBeforeIsDayOrder` | tv_episode_checker.py:51 | Python's field-by-field date comparison agrees with comparing proleptic Gregorian day numbers |
| `Episodes.CheckNewEpisodes` | tv_episode_checker.py:53-64 | fails exactly when some air date is unreadable, with the error of the first one; otherwise the result is an order-preserving sub-sequence of the listing, holding each aired episode past the watch position as often as the listing does and nothing else |
| `Episodes.NewEpisodeMembership` | tv_episode_checker.py:58-63 | an episode is reported iff it is listed, aired, and after the watch position season-first; the episode at the watch position never is |
| `Episodes.AfterIsStrictTotalOrder` | tv_episode_checker.py:61-62 | the "comes after" test on (season, episode) is irreflexive, asymmetric, transitive and total on distinct keys |
| `Episodes.WatchPositionExamples` | tv_episode_checker.py:57-64 | at position S2E5, a listing of aired S2E4, S2E5, S2E6, S3E1, S1E99 yields exactly S2E6 then S3E1 |
| `Episodes.AdvancingNarrowsNew` | tv_episode_checker.py:61-63 | moving the watch position forward only removes episodes from the report, never adds or reorders them |
| `Episodes.LaterDayWidensNew` | tv_episode_checker.py:59-60 | checking on a later day only adds episodes to the report |
| `Text.Strip` | tv_episode_checker.py:117 | the typed name loses exactly its leading and trailing whitespace, as `str.isspace` defines it |
| `Text.SameNameIff` | tv_episode_checker.py:119 | two names match in the duplicate test iff they have the same length and each position holds the same character or one ASCII letter in its two cases (the approximation of `str.lower()` named under Left out) |
| `Text.LowerIdempotent` | tv_episode_checker.py:119 | lower-casing an already lower-cased name changes nothing |
| `Text.StripExample` | tv_episode_checker.py:117 | `"  severance "` strips to `"severance"` |
| `Store.AddShow` | tv_episode_checker.py:113-130 | refused exactly when a tracked name equals the stripped name ignoring case; otherwise exactly one record with the stripped name and the given position is appended and earlier entries are unchanged |
| `Store.AddKeepsNamesDistinct` | tv_episode_checker.py:118-121 | adding keeps tracked names unique ignoring case |
| `Store.AddTwiceRefused` | tv_episode_checker.py:118-121 | once added, the same name in any case or spacing is refused |
| `Store.CaseVariantRefused` | tv_episode_checker.py:117-121 | adding `"  severance "` next to a tracked `"Severance"` is refused |
| `Store.AddThenRemoveRestores` | tv_episode_checker.py:147-148 | removing the just-added entry by its menu number restores the list |
| `Store.RemoveShow` | tv_episode_checker.py:132-154 | an empty list or a number outside 1..length is refused; otherwise the list is one shorter and every other entry keeps its relative order |
| `Store.RemoveDeletesOnlyChoice` | tv_episode_checker.py:147-148 | re-inserting the removed entry at its place rebuilds the list; the multiset loses exactly that entry |
| `Store.RemoveKeepsNamesDistinct` | tv_episode_checker.py:147-148 | removal keeps tracked names unique |
| `Store.UpdateShow` | tv_episode_checker.py:156-189 | an empty list or a number outside 1..length is refused; otherwise only the picked show's season and episode change, to the given ones |
| `Store.UpdateKeepsNames` | tv_episode_checker.py:180-181 | updating never renames any show, so names stay unique |
| `Store.UpdateUndone` | tv_episode_checker.py:180-181 | updating back to the previous position restores the list |
| `Store.DistinctNamesIdentify` | tv_episode_checker.py:118-121 | under unique names, a name picks out one entry |
| `CheckAll.Partition` | tv_episode_checker.py:200-215 | the no-new list is a sub-sequence of the show names in list order, and every key of the new-episode map is a tracked name |
| `CheckAll.NewEpisodeKeys` | tv_episode_checker.py:206-211 | a name is a key of the new-episode map iff some show of that name found new episodes |
| `CheckAll.NewEpisodeValue` | tv_episode_checker.py:211 | the episodes under a name are those of the last show of that name that found some |
| `CheckAll.UpToDateMembers` | tv_episode_checker.py:212-213 | a name is in the no-new list iff some show of that name was checked successfully and found nothing |
| `CheckAll.UpToDateInOrder` | tv_episode_checker.py:201-213 | the no-new list is exactly the names of the shows whose check found nothing, one entry per such show even when names repeat, in list order |
| `CheckAll.ExactlyOneBucket` | tv_episode_checker.py:203-215 | with unique names, a successful check puts the show in exactly one part, with its own episodes; a failed one in neither |
| `CheckAll.FailureIsolated` | tv_episode_checker.py:214-215 | a failure of one show changes nothing about where any other show is sorted |
| `CheckAll.CheckShow` | tv_episode_checker.py:55-56 | a lookup failure stays the show's failure; otherwise the check fails iff an air date is unreadable, and on success reports, in listing order, exactly the listed episodes that have aired and lie past the watch position |
| `CheckAll.CheckAll` | tv_episode_checker.py:191-221 | no digest exactly when no show is tracked; otherwise the no-new names keep list order and every key is a tracked name |
| `CheckAll.CheckAllPlacesShow` | tv_episode_checker.py:203-215 | with unique names, each show is left out after a failed lookup or unreadable air date, listed with its new episodes, or named as having none |
| `CheckAll.DigestEvenWhenNothingFound` | tv_episode_checker.py:194-221 | with shows tracked and every show's check failing, by a failed lookup or an unreadable air date, an empty digest still goes to the mailer |

## Left out

- TVMaze lookups (`get_show_id`, `get_episodes`): network calls. Each show's listing, or the lookup's failure, is a parameter of `CheckAll.CheckAll`.
- `load_shows` / `save_shows`: JSON file I/O. The store is a `seq<Show>` in file order, and a refused edit is a `Failure` that leaves the caller's list as it was.
- `send_email_alert` and `EMAIL_CONFIG`: mail transport, message formatting and configuration. The model stops at the digest handed to the mailer.
- The interactive menu, `input()`, `int()` parsing with its `ValueError` handling, and the `--auto` entry point: console plumbing. The edits take already-parsed integers. A typed number that fails to parse makes the code change nothing, and the model does not represent that case.
- `datetime.today()`: the clock. Today is a parameter, fixed for a whole check, although the code reads the clock once per episode.
- `strptime` text parsing: an air date arrives as a year-month-day triple or as unreadable text. Its lenient handling of digits and padding is not modelled.
- `Text.SameNameIff`: `Text.Lower` approximates Python's Unicode `str.lower()` by lower-casing ASCII letters only. Names that differ only in non-ASCII case count as different here.
- Episodes with a null `number` (TVMaze specials): the model's numbers are integers. In the code, comparing a null number raises when its season equals the watch season. A null-number episode in a later season passes the filter, because the season test short-circuits; formatting its number with `:02` at line 209 then raises inside the `try`, so that whole show lands in neither bucket.
- Missing keys in the episode JSON (a `KeyError`): not modelled.
- Insertion order of the new-episode dictionary: it only orders the digest text, and the model holds it as a `map`.
- Movie tracking: `tv_episode_checker.py` has no movie code.
