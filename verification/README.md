# Diaper raffle: verified model

A Dafny model of a raffle server for baby showers: guests are typed into a
roster text box, each diaper is one ticket, winners are drawn on the server and
handed out as face-down stubs that are turned over one by one.

The model follows the program's own pieces:

- **Roster text** (`Text`, `Float64`, `Decimal`, `Roster`, `TrailingCount`, `RoundTrip`,
  `Normalise`, `NameKeys`, `Lines`): the line parser with its tab branch and its lazy
  trailing-count pattern, merging by name key with int64 wrap-around, and the
  printer. Strings are sequences of code points; the white space of the trimmer
  and the narrower `\s` of the pattern are kept apart, as in the program.
- **Draw and odds** (`Ranking`, `Draw`, `OddsTheorems`): the sorting draw and the
  simulation that keeps a running top-k in two arrays, on one random stream.
- **Store** (`Ordering`, `Slug`, `SlugWords`, `Tables`, `Invariant`, `Store`): the four tables
  with their uniqueness, cascade, set-null and autoincrement rules. Class `Store`
  runs every transaction statement by statement; module `Tables` says what state
  each must leave; `Invariant` says what all of them keep.
- **Runs** (`Steps`, `Runs`, `RosterEffects`, `EventEffects`, `Drift`): all
  sequences of transactions, and what holds over them.
- **Responses** (`Views`, `Pages`, `FaceDown`): what the server answers, what the
  answers mean field by field, and what an observer of them can tell about stubs
  still face down.
- **Odds cache** (`OddsCache`, `OddsRows`): requests whose three reads interleave with commits.
- **Login limiter** (`Limiter`) and **autosave** (`Autosave`): the two small
  protocols, as histories of calls and as interleavings of replies. Classes
  `AttemptLimiter` and `Page` follow the program; each method is tied to the
  transition the histories are made of.

Four places where the program and its own description part ways; the model
follows the program:

- The repository's README.md (lines 42-45) says the roster text and the guest rows
  "cannot drift". They can, after a guest-level edit, when a name ends in `,` `;` or
  `:` or holds a tab or newline, or a count is negative.
  `Drift.AddDiapersSyncsExactly`, `Drift.UpdateGuestSyncsExactly` and
  `Drift.DeleteGuestSyncsExactly` say before each edit whether it will,
  `Drift.DriftComesFromGuestWrites` says which write of a run is to blame,
  `Drift.DriftIsReachable` gives a run, and `Runs.CleanRostersNeverDrift` is the
  promise that remains.
- Normalising a text is not always settled after one pass, nor after two when a
  name holds blanks that the trimmer knows and the pattern does not
  (`Normalise.TwoPassesCanBeTooFew`) or when names that run together have counts
  whose sum overflows (`Normalise.OverflowNeedsThirdPass`).
  `Normalise.NormalTwiceExactly` and `Normalise.NormalThriceExactly` say when it
  is; `Normalise.EveryTextSettles` says that it always is in the end.
- A comment says a fractional count is truncated. It is first rounded to a
  float64, so a fraction close enough to one counts as one
  (`TrailingCount.NinesRoundUp`), and a large enough whole part is rounded itself
  (`TrailingCount.OddLargeLost`). `TrailingCount.TruncatedExactly` says, for every
  count, when it is truncated.
- The page's "Saved" flag can follow a late success of an older save after the
  newest one failed (`Autosave.LateSuccessReadsSaved`), or a success heard after
  the host has typed on (`Autosave.TypedOnReadsSaved`). `Autosave.SavedFlagExactly`
  says when the flag is right, by a test the page could make on its own fields.

## Model

| member | source | states |
|---|---|---|
| Decimal.Wrap | internal/raffle/roster.go:65 | int64 addition wraps: the result is in range, congruent modulo 2^64, and exact when nothing overflows |
| Decimal.ParseFormatInt | internal/raffle/roster.go:107-133 | a printed int64 parses back to itself |
| Decimal.FormatIntInjective | internal/httpapi/odds.go:96-101 | two integers never print alike |
| Text.TrimSpace | internal/raffle/roster.go:33-102 | trimming leaves no white space at either edge, adds nothing, fixes trimmed strings, and empties only blank ones |
| Text.Split | internal/raffle/roster.go:49 | the pieces hold no separator and join back to the string |
| Text.SplitFirst | internal/raffle/roster.go:49 | a text that begins with a line splits into that line and the split of the rest |
| Roster.ShortestName | internal/raffle/roster.go:28 | the search returns the first end of the name group from which the rest matches, or none if no end does |
| Roster.ParseRow | internal/raffle/roster.go:49-63 | a line that counts has a non-empty trimmed name and a count from 0 to 2^63-1 |
| Roster.ParseRoster | internal/raffle/roster.go:45-78 | the one-pass loop over a map and an order list computes the specification Parse: one entry per key, first spelling, wrapped sum, merged exactly when two or more lines share the key |
| Roster.FirstsDistinct | internal/raffle/roster.go:63-71 | parsed entries have pairwise distinct keys |
| Roster.FormatRoster | internal/raffle/roster.go:124-133 | the builder loop prints one "name, count" line per entry, in order |
| TrailingCount.ShortestNameIsLazyMatch | internal/raffle/roster.go:25-28 | the scanner is the pattern's leftmost-laziest match: it fails exactly when nothing matches, and otherwise finds the one match with the shortest name group |
| TrailingCount.CaptureUnique | internal/raffle/roster.go:28 | where the name group ends determines the separators and the count group |
| Float64.OutOfRangeExactly | internal/raffle/roster.go:115-118 | a decimal rounds past the largest float64 if and only if its whole part is at or above 2^1024 - 2^970 |
| Float64.RoundedWholeExactly | internal/raffle/roster.go:115-119 | below 2^52, the whole part of the nearest float64 is that of the decimal, or one more exactly when it is within half a unit in the last place of the next integer |
| Float64.RoundingKeepsExactly | internal/raffle/roster.go:115-119 | for every decimal, the whole part of the nearest float64 is that of the decimal if and only if: below 2^52, it is not within half a unit of the next integer; below 2^53, it is nearer to its whole part, or half way with that even; beyond, its whole part is a float64 |
| TrailingCount.CountTextValue | internal/raffle/roster.go:105-120 | a count group reads as an integer if it is one that fits, else by way of float64 as its nearest value truncated to int64, and as nothing exactly when out of range |
| TrailingCount.CountValueExactly | internal/raffle/roster.go:105-120 | below 2^52 a count is its signed whole part, or one more exactly when its fraction is that close to one |
| TrailingCount.TruncatedExactly | internal/raffle/roster.go:105-120 | every count group is worth its signed whole part, the fraction dropped, if and only if that fits an int64 and, when there is a fraction, rounding to a float64 keeps it |
| TrailingCount.ShortFractionDropped | internal/raffle/roster.go:105-120 | so a fraction of few enough digits is truncated |
| TrailingCount.NinesRoundUp | internal/raffle/roster.go:105-120 | but "0.99...9" counts as one diaper if and only if it has seventeen nines or more |
| TrailingCount.OddLargeLost | internal/raffle/roster.go:105-120 | and an odd whole part above 2^53 is never what it counts as, whatever fraction follows |
| TrailingCount.CountTextHasValue | internal/raffle/roster.go:95-120 | what the count group matched is read as a number if and only if its whole part is below 2^1024 - 2^970 |
| TrailingCount.TabFreeLine | internal/raffle/roster.go:95-103 | every tab-free line: the whole line and 0 when nothing matches or the match is out of range, else the stripped group and the value of the shortest-name match |
| TrailingCount.HugeCountNamesGuest | internal/raffle/roster.go:95-102 | "name n" with n out of range names the guest by the whole line, with no diapers |
| TrailingCount.HugeFieldSkipped | internal/raffle/roster.go:82-93 | a tab-separated number out of range is passed over for the next field that reads as a count |
| TrailingCount.ParseNameAndCount | internal/raffle/roster.go:95-102 | any separators ending in a blank, then a count group: its value and everything before, stripped; out of range, the whole line and 0 |
| TrailingCount.GroupedLineParses | internal/raffle/roster.go:25-28 | "name, 1,234,567" gives back name and number for every clean name and every n up to 2^63-1 |
| Lines.SeparatedLine | internal/raffle/roster.go:28-102 | every clean name, then one of " ", ": ", ":", "; ", ";", ", " or (not after a digit) ",", then a number up to 2^63-1, is one entry with that name and number |
| Lines.OneSeparator | internal/raffle/roster.go:28 | of all characters, exactly comma, semicolon, colon, space, tab, newline, carriage return and form feed part a name from a number |
| Lines.SeparatorEndsUnclean | internal/raffle/roster.go:96-98 | a name that ends in a comma, a semicolon or a colon is never clean |
| Lines.BareName | internal/raffle/roster.go:95-103 | a trimmed name that does not end in a digit, alone on its line, is an entry with no diapers |
| Lines.TabColumns | internal/raffle/roster.go:82-93 | with a tab, the first column is the name and the first later column that reads as a count is the count, whatever stands between; 0 if none does |
| Lines.NoDigitNoCount | internal/raffle/roster.go:105-120 | a column without a digit reads as no count |
| Lines.ColumnReads | internal/raffle/roster.go:105-120 | a column reads as its number whatever commas stand in it and blanks around it, with a plus, a minus or no sign |
| Lines.GroupedExactly | internal/raffle/roster.go:28 | a whole part is grouped if and only if its commas leave one to three digits and then threes |
| Lines.MergedExactly | internal/raffle/roster.go:63-71 | an entry is flagged as merged if and only if two different lines share its key |
| Lines.TrimmedExactly | internal/raffle/roster.go:33-102 | exactly 25 named characters are trimmed off the edges of a name |
| Lines.CarriageReturn | internal/raffle/roster.go:49-52 | a carriage return before the line end changes nothing |
| Lines.PrintedPage | internal/raffle/roster.go:124-133 | two entries print as "name, count" and a newline each |
| RoundTrip.ParseWellFormed | internal/raffle/roster.go:45-78 | every text parses to entries with distinct keys, trimmed non-empty names, each key that of its name, and no tab or newline in a name |
| RoundTrip.CleanRoundTrip | internal/raffle/roster.go:45-133 | printing then parsing clean names keeps every name, key and order; only a negative count is lost |
| RoundTrip.RoundTripExactly | internal/raffle/roster.go:45-133 | for well-formed entries, Parse(Format(es)) is es with merged flags cleared if and only if all names are clean and no count is negative |
| RoundTrip.SeparatorNamesShrink | internal/raffle/roster.go:96-98 | if some name ends in a separator, a round trip makes the names shorter in total |
| Normalise.FormatInjective | internal/raffle/roster.go:124-133 | two rosters of one-line names that print alike have the same names and counts |
| Normalise.NormalTwiceExactly | internal/raffle/roster.go:45-133 | normalising twice equals normalising once if and only if every parsed entry is clean |
| Normalise.NormalThriceExactly | internal/raffle/roster.go:45-133 | three passes equal two if and only if, of the rows the first parse prints and reads back, none ends in a separator and no key's counts overflow to a negative sum |
| Normalise.PlainTextSettlesInTwo | internal/raffle/roster.go:45-133 | so for every text whose blanks the pattern knows and whose lines sum within an int64 |
| Normalise.EveryTextSettles | internal/raffle/roster.go:45-133 | every text, without exception, is settled after as many passes as its parsed names are long, and two more |
| Normalise.SlowText | internal/raffle/roster.go:28-98 | no fixed number of passes is enough: for every n, a named text that pass n + 2 still changes |
| Normalise.SeparatorNameNeedsSecondPass | internal/raffle/roster.go:82-93 | "name<tab>count" with a name ending in a separator is never settled after one pass |
| Normalise.TwoPassesCanBeTooFew | internal/raffle/roster.go:28-98 | the text of "a," and twice a no-break space and a comma, a tab and 3 is not settled after two passes |
| Normalise.OverflowNeedsThirdPass | internal/raffle/roster.go:45-133 | nor is "a," and "a;" on two tab lines, when their counts add up past an int64 |
| Normalise.TabLineParses | internal/raffle/roster.go:82-93 | "name<tab>count" keeps the name as it stands |
| Normalise.MergeConserves | internal/raffle/roster.go:63-71 | the sums over distinct keys add up to the sum over all lines |
| Normalise.ParseConserves | internal/raffle/roster.go:45-78 | the parsed entries hold every diaper on the page when the total fits an int64 |
| Normalise.FirstsAreEarliest | internal/raffle/roster.go:44-77 | the entries stand exactly for the lines whose key had not appeared, in order of appearance |
| NameKeys.NameKeyIsKeyUnder | internal/raffle/roster.go:30-35 | the model's key is the general one below for one lower-case mapping that keeps white space and does nothing the second time |
| NameKeys.KeyIsJoinedWords | internal/raffle/roster.go:30-35 | under any such mapping, a key is the lower-case words of the name joined by single spaces |
| NameKeys.SameKeyExactly | internal/raffle/roster.go:17-35 | under any such mapping, two names are the same person if and only if their lower-case words agree |
| NameKeys.KeyOfKey | internal/raffle/roster.go:33-35 | under any such mapping, a key is its own key |
| NameKeys.CapitalsGoDown | internal/raffle/roster.go:34 | each capital of the written-out alphabet goes to its own small letter, and but for the dotted I and the Kelvin sign no other character moves |
| NameKeys.CaseDoesNotMatter | internal/raffle/roster.go:17-35 | names that differ only in the case of their letters have the same key |
| Ranking.RankedIsSorted | internal/raffle/draw.go:112-130 | repeated insertion gives the stable descending order of exactly the candidates inserted |
| Ranking.SortedUnique | internal/raffle/draw.go:52 | two stably sorted lists of the same candidates are equal |
| Ranking.TakeInsert | internal/raffle/draw.go:97-131 | keeping only the best k before an insertion does not change the best k after it |
| Ranking.WinsByRank | internal/raffle/draw.go:112-134 | a candidate wins one of k prizes if and only if fewer than k are ahead |
| Ranking.RaisingHelps | internal/raffle/draw.go:109-130 | raising one key never worsens its owner's rank and never improves anybody else's |
| Draw.Eligible | internal/raffle/draw.go:18-26 | the filter loop keeps exactly the candidates with diapers, in order |
| Draw.Draw | internal/raffle/draw.go:38-62 | the winners are the first min(n, eligible) of some descending order of the keys, ties as the sort leaves them |
| Draw.ShiftIn | internal/raffle/draw.go:113-130 | the in-place shift of the two arrays inserts the candidate behind every key not smaller than its own |
| Draw.SimulateDraw | internal/raffle/draw.go:102-131 | after a simulated draw the index array is the first k of the stable descending order of that draw's keys |
| Draw.AddHits | internal/raffle/draw.go:132-134 | each placed candidate, and nobody else, gains one hit |
| Draw.Odds | internal/raffle/draw.go:75-141 | the whole loop computes, per eligible id, the share of simulated draws that candidate wins |
| OddsTheorems.OnlyOneOrder | internal/raffle/draw.go:52 | without ties, any order the sort may return is the stable one |
| OddsTheorems.SimulationIsDraw | internal/raffle/draw.go:48-131 | the real draw on the randomness of simulated draw r picks that draw's top candidates in the same order, unless keys tie |
| OddsTheorems.DrawIsFair | internal/raffle/draw.go:38-62 | ties or not, winners are distinct eligible candidates in descending order of the logarithm they drew divided by their diapers, and no loser exceeds a winner |
| OddsTheorems.HitsConserved | internal/raffle/draw.go:102-135 | all hits together are runs times prizes |
| OddsTheorems.HitsBounded | internal/raffle/draw.go:102-135 | nobody has more hits than runs, and with a prize for everyone everybody has exactly that many |
| OddsTheorems.ChancesAddUp | internal/raffle/draw.go:137-140 | the reported chances add up to the number of prizes handed out |
| OddsTheorems.RanksImprove | internal/raffle/draw.go:102-131 | in every simulated draw, more diapers never worsen a guest's rank |
| OddsTheorems.MoreDiapersNeverHurt | internal/raffle/draw.go:75-141 | with all else fixed, raising one eligible count never lowers that guest's chance nor raises another's |
| Ordering.OrderedUnique | internal/store/guests.go:300-308 | ORDER BY over a unique tie-break has one result: any sorted list of the same ids |
| Slug.SlugifyShape | internal/store/events.go:226-239 | every slug is over [a-z0-9-], has no edge or doubled dash and at most 60 characters |
| Slug.SlugifyFixedExactly | internal/store/events.go:226-239 | a string is its own slug if and only if it has that shape and length |
| Slug.SlugifyIdempotent | internal/store/events.go:226-239 | slugging twice is slugging once |
| SlugWords.SlugIsWords | internal/store/events.go:226-239 | every slug is the maximal runs of letters and digits of the lower-case title, joined by single dashes and cut to sixty characters without a dash left hanging |
| SlugWords.MayaHasASlug | internal/store/events.go:72-88 | "Maya's 2!" becomes maya-s-2, and when taken maya-s-2-2 |
| Slug.UniqueSlug | internal/store/events.go:72-88 | the loop returns the first free of base, base-2, ..., base-999, or a conflict |
| Slug.FirstFree | internal/store/events.go:72-88 | the slug found is free and every earlier suffix is taken; none only if all are taken |
| Slug.FreeSlugExists | internal/store/events.go:72-88 | with fewer than 999 slugs in use the search succeeds |
| Slug.FirstFreeShape | internal/store/events.go:72-88 | a suffixed slug is still a non-empty slug |
| Invariant.AddDiapersKeeps | internal/store/guests.go:107-170 | logging diapers keeps the tables valid |
| Invariant.UpdateGuestKeeps | internal/store/guests.go:174-225 | renaming and recounting keep the tables valid, UNIQUE(event_id, name_key) included |
| Invariant.DeleteGuestKeeps | internal/store/guests.go:229-255 | deleting a guest keeps the tables valid; stubs forget the row |
| Invariant.ReplaceRosterKeeps | internal/store/guests.go:31-102 | saving the text keeps the tables valid |
| Invariant.RunDrawKeeps | internal/store/draws.go:19-74 | a draw of candidates on the roster keeps the tables valid |
| Invariant.RevealKeeps | internal/store/draws.go:146-174 | a reveal keeps the tables valid |
| Invariant.CreateEventKeeps | internal/store/events.go:21-69 | creating an event keeps the tables valid |
| Invariant.UpdateEventKeeps | internal/store/events.go:131-185 | updating an event keeps the tables valid |
| Invariant.DeleteEventKeeps | internal/store/events.go:188-201 | deleting an event, with its cascades, keeps the tables valid |
| Invariant.KeptFacts | internal/store/guests.go:49-80 | the rows a roster save writes: distinct ids, listed in text order, each the entry's, existing ids kept and new ones fresh |
| Store.Store.ReplaceRoster | internal/store/guests.go:31-102 | statement by statement, the transaction leaves exactly the specified tables, without meeting the unique constraint |
| Store.Store.WriteEntries | internal/store/guests.go:52-69 | the update-or-insert loop writes entry i to its key's row or the next fresh one, and never conflicts |
| Store.Store.DropLeavers | internal/store/guests.go:71-80 | in whatever order the map is walked, exactly the rows whose key is gone are deleted |
| Store.Store.GuestsByKey | internal/store/guests.go:288-298 | the loop indexes the event's rows by key |
| Store.Store.SyncText | internal/store/guests.go:260-286 | the stored text becomes the printed rows, the version goes up by one, merge flags are cleared |
| Store.Store.AddDiapers | internal/store/guests.go:107-170 | the transaction leaves the specified tables on every path, errors included |
| Store.Store.UpdateGuest | internal/store/guests.go:174-225 | the transaction leaves the specified tables on every path, errors included |
| Store.Store.DeleteGuest | internal/store/guests.go:229-255 | the transaction leaves the specified tables on every path, errors included |
| Store.Store.RunDraw | internal/store/draws.go:19-74 | the transaction records a draw whose winners are an outcome of the real draw on the current roster, with the given serials in order |
| Store.Store.InsertStubs | internal/store/draws.go:58-65 | the loop inserts one face-down stub per winner, at prize indices from 0 |
| Store.TotalDiapers | internal/store/draws.go:37-40 | the loop totals the eligible counts, wrapping as int64 |
| Store.Store.RevealWinner | internal/store/draws.go:146-174 | the transaction leaves the specified tables and finds the specified stub |
| Store.Store.CreateEvent | internal/store/events.go:21-69 | the transaction leaves the specified tables on every path, errors included |
| Store.Store.UpdateEvent | internal/store/events.go:131-185 | the transaction leaves the specified tables on every path, errors included |
| Store.Store.DeleteEvent | internal/store/events.go:188-201 | the statement and its cascades leave the specified tables |
| Steps.StepKeeps | internal/store/migrations/001_initial.sql:22-84 | every transaction, whatever it is asked, keeps the tables valid |
| Steps.StepFollows | internal/store/migrations/001_initial.sql:22-84 | every transaction only grows the id sequences, bumps a version whenever a roster changes, and leaves recorded draws and stubs in place |
| Steps.FollowsTransitive | internal/store/draws.go:58-65 | what each step leaves alone, whole stretches of a run leave alone |
| Steps.StepVersion | internal/store/guests.go:82-89 | a transaction moves an event's version by exactly one if it committed a roster write to it, and not at all otherwise; a failed one changes nothing |
| RosterEffects.AddDiapersEffect | internal/store/guests.go:107-170 | logging diapers adds to the guest with that key where they stand, or appends a new guest under a new id; all other ids and entries stay, merge flags are cleared; it fails if and only if the new count exceeds an int64, changing nothing |
| RosterEffects.UpdateGuestEffect | internal/store/guests.go:174-225 | the one guest gets the name asked for, trimmed, with the key of that name, and the count asked for, what is not asked for staying as it was, with event and position; all ids and other entries stay; refused as a conflict if and only if another guest on the list has that key |
| RosterEffects.DeleteGuestEffect | internal/store/guests.go:229-255 | exactly one entry and one id leave the list |
| RosterEffects.ReplaceRosterEffect | internal/store/guests.go:31-102 | the list becomes exactly what the text parses to, whatever was there; surviving keys keep their ids, other entries get unused ids |
| RosterEffects.OtherRostersUntouched | internal/store/guests.go:31-286 | an operation that committed no roster write to an event leaves its rows and text alone |
| RosterEffects.DrawRecords | internal/store/draws.go:46-65 | a draw's row has the event's prize count, version and the time; its stubs are exactly one per pick, face down, at prize indices 0, 1, ..., each with that winner's id, name and count and that pick's serial; older draws and stubs stay |
| RosterEffects.WinnersAreEntrants | internal/store/draws.go:31-65 | as many winners as prizes or entrants, pairwise distinct current guests with diapers and their recorded name and count, in descending order of the logarithm they drew over their diapers; no entrant left out has a larger one |
| EventEffects.RevealOpensOne | internal/store/draws.go:146-174 | a reveal fails if and only if there is no such stub; else it stamps that stub unless already stamped, and nothing else changes |
| EventEffects.RevealTwiceIsOnce | internal/store/draws.go:142-174 | a second reveal, however much later, finds the same stub and changes nothing |
| EventEffects.DeleteEventExactly | internal/store/migrations/001_initial.sql:22-84 | an event takes its own guests, draws and stubs with it and changes no other row of any table |
| EventEffects.SearchIsLeastFree | internal/store/events.go:72-88 | the slug search fails if and only if all 999 candidates are taken, and else finds the least free one |
| EventEffects.FewEventsLeaveRoom | internal/store/events.go:72-88 | which takes at least 999 events |
| EventEffects.CreateEventExactly | internal/store/events.go:21-69 | creation is invalid if and only if the name is blank or there are too many prizes, else a conflict if and only if all candidates of the slug asked for are taken; else it adds one event with the trimmed name, the prizes asked for or three, an empty text at version 0 and the least free of those slugs, and changes nothing more |
| EventEffects.UpdateEventExactly | internal/store/events.go:131-185 | an update of a known event is invalid if and only if a given name is blank, a prize count is out of range or a link leaves nothing usable, else a conflict if and only if another link is asked for and all its candidates are taken; else exactly the asked fields of that one event change, the link to its least free suffix |
| Runs.RunValid | internal/store/migrations/001_initial.sql:22-84 | every state of every run is valid |
| Runs.RunFollows | internal/store/migrations/001_initial.sql:22-84 | every later state of a run follows every earlier one |
| Runs.DriftExactly | internal/store/guests.go:257-286 | on every reachable state, parsing the stored text gives the guest rows if and only if the text is not the printed rows or every row is clean |
| Runs.CleanRostersNeverDrift | internal/store/guests.go:26-286 | on every run, text and index agree for any event whose guest rows are clean |
| Runs.SavingTextSyncs | internal/store/guests.go:31-102 | saving the text box succeeds for a known event and brings the two copies together whatever it holds |
| Drift.GuestWriteSyncsExactly | internal/store/guests.go:107-286 | after a committed guest-level write, text and rows agree if and only if every row is clean |
| Drift.AddDiapersSyncsExactly | internal/store/guests.go:107-170 | logging diapers leaves them in agreement if and only if everybody else on the list is clean beforehand, and so is the new name, or the known guest's name and raised count |
| Drift.UpdateGuestSyncsExactly | internal/store/guests.go:174-225 | renaming or recounting does if and only if everybody else is clean beforehand, and so are the name and count asked for, or kept |
| Drift.DeleteGuestSyncsExactly | internal/store/guests.go:229-255 | deleting does if and only if everybody else is clean |
| Drift.SeparatorGuestDrifts | internal/store/guests.go:107-170 | logging diapers for a new guest whose name ends in a separator succeeds and leaves text and rows apart, in every valid state |
| Drift.DriftComesFromGuestWrites | internal/store/guests.go:26-286 | on every run, text and rows differ if and only if the last committed write to that roster was a guest-level one and some row is unclean |
| Drift.DriftIsReachable | internal/store/guests.go:257-286 | two requests from an empty database are enough to make them differ |
| Runs.LatestIsLast | internal/store/draws.go:76-94 | under a clock that does not run backwards the latest draw is the last one recorded |
| Runs.VersionCountsWrites | internal/store/guests.go:82-89 | between any two states the version moves by the number of committed writes to that roster |
| Runs.TornPageStaleExactly | internal/httpapi/handlers.go:50-70 | a page that read the event in one state and the latest draw in a later one is stale if and only if a write to that roster committed between the run of that draw and the reading of the event, whichever came first |
| Runs.StaleExactly | internal/httpapi/handlers.go:50-70 | read from one state, the page is stale if and only if a write to that roster committed after the draw on screen was run |
| Runs.HistoryIsFrozen | internal/store/draws.go:58-65 | while its event exists a stub keeps its name, count, serial and place, is turned over at most once, and points at its guest exactly while that row exists |
| Runs.IdsNeverReused | internal/store/migrations/001_initial.sql:23 | an id that has gone never comes back, in any table |
| Runs.SlugsStayDistinct | internal/store/events.go:21-185 | on every run event slugs are non-empty, well shaped and pairwise distinct |
| Views.BuildTally | internal/httpapi/handlers.go:32-47 | the loop counts entrants, their diapers, those sitting out and merged names, and flags a short pool |
| Views.TallyMatchesDraw | internal/store/draws.go:31-50 | a draw records exactly the entrant count and diaper total of the tally for the same roster |
| Views.TallyMeans | internal/httpapi/handlers.go:32-47 | entrants are the guests with diapers, those sitting out the others, merged names those flagged, and the pool is short if and only if there are entrants but fewer than prizes |
| Pages.EventPageIs | internal/httpapi/handlers.go:50-70 | an event's page shows the event, all its guests in order of position, their numbers, the newest draw with its stubs, and the stale flag |
| Pages.PageTells | internal/httpapi/handlers.go:50-70 | on every run, asking for an event fails if and only if none has the slug, else answers that event's page, stale if and only if a roster write committed after the run of the draw shown |
| Pages.DrawPageIs | internal/store/draws.go:76-140 | a draw is shown with its row and all its stubs in prize order, the winner only on those turned over |
| Pages.RecentAre | internal/store/draws.go:97-140 | the history lists the newest draws of the event, newest first, as many as asked for, 50 when that is not from 1 to 200 |
| Pages.ReadsTell | internal/store/draws.go:97-140 | what the other questions answer, and that asking changes nothing |
| Pages.WriteTells | internal/httpapi/handlers.go:50-70 | a committed write answers with the page of its event as it left it, a failed one with its error and no change |
| Pages.SavedPage | internal/store/guests.go:31-102 | saving the text answers with that text, the next version, and one guest for each entry it parses to, in order, field by field |
| Pages.SavedTotal | internal/httpapi/handlers.go:32-47 | the diaper total shown after a save is the sum of the lines, when that fits an int64 |
| Pages.DrawTells | internal/store/draws.go:46-74 | pressing the button answers with the serials in prize order, all face down, and nobody's name |
| Pages.RevealTells | internal/store/draws.go:146-174 | at any later time, turning over prize p tells the name and count picked for it when the draw was run, whatever has become of the roster |
| Pages.GuestWritesRefused | internal/store/guests.go:31-255 | when a guest-level write is invalid, and when not found |
| Pages.EventWritesRefused | internal/store/draws.go:19-36 | a draw is refused if and only if there is no such event or nobody in it has diapers; an update or deletion of an event is not found if and only if there is none |
| FaceDown.HiddenExactly | internal/store/models.go:57-67 | two stubs load to the same view if and only if they are the same, or both face down and differing at most in guest, name and count |
| FaceDown.ResponsesAgreeExactly | internal/store/models.go:57-67 | two stores that differ only in who is on face-down stubs answer a request alike if and only if it does not turn over a differing stub, and then stay alike |
| FaceDown.FaceDownStaysSecret | internal/store/draws.go:16-231 | over whole conversations: all responses agree if and only if no differing stub is turned over |
| FaceDown.DrawTellsNobody | internal/store/draws.go:46-74 | from one state, two outcomes with the same serials answer alike and leave stores that are alike, whoever won |
| FaceDown.WinnersStaySecret | internal/store/draws.go:16-231 | so over whole conversations from the press of the button on, two outcomes are told apart if and only if a stub on which they differ is turned over |
| FaceDown.RevealAlike | internal/store/draws.go:146-174 | turning over a stub on which the stores agree gives the same result and keeps them alike |
| OddsCache.Compute | internal/httpapi/odds.go:69-81 | the handler's loop fills that table from the simulation |
| OddsCache.Memo.Odds | internal/httpapi/odds.go:59-94 | uninterrupted: the cached table if the key is there, else a fresh one that is kept, the cache being cleared first when full |
| OddsCache.UninterruptedIsMemo | internal/httpapi/odds.go:59-94 | in the interleaved machine, a request not interrupted between looking and saving does exactly what Memo.Odds does |
| OddsCache.CacheKeyInjective | internal/httpapi/odds.go:96-101 | different event, version, prize count or runs never share a key |
| OddsCache.PutSize | internal/httpapi/odds.go:84-90 | storing a table keeps the cache at 64 entries or fewer |
| OddsCache.MoveInv | internal/httpapi/odds.go:29-94 | every move of the interleaved machine keeps the cache and every request in flight good |
| OddsCache.CacheIsCurrent | internal/httpapi/odds.go:29-94 | under any interleaving, an entry whose key names an event's current version is what a fresh computation on the current roster gives, and there are at most 64 |
| OddsCache.AnswersAreNoOlder | internal/httpapi/odds.go:29-94 | every answer is the odds of a roster the event really had, at a version no older than the one read, and of the current roster while that version is current |
| OddsCache.KeyNamesTheEvent | internal/httpapi/odds.go:29-101 | the key of every request names the event it found by slug, that event's version and prize count at the time, and the runs asked for |
| OddsRows.OddsTableMeans | internal/httpapi/odds.go:69-81 | row i is the i-th guest's, with their name, count and merge flag; eligible if and only if they have diapers; their chance is the share of simulated draws they win, and 0 without diapers |
| OddsRows.OddsTableAddsUp | internal/httpapi/odds.go:69-81 | the chances of a whole table add up to the prizes or the entrants, whichever are fewer |
| OddsRows.MoreDiapersInTheTable | internal/httpapi/odds.go:69-81 | with the same key, raising one guest's diapers never lowers the chance in their row nor raises another's |
| Limiter.AttemptLimiter.Allow | internal/httpapi/gate.go:228-241 | answers as specified and drops the caller's record once it has expired |
| Limiter.AttemptLimiter.Fail | internal/httpapi/gate.go:243-263 | starts or extends the caller's record as specified, sweeping above 1024 entries |
| Limiter.AttemptLimiter.Sweep | internal/httpapi/gate.go:255-262 | the loop over the map drops exactly the expired records |
| Limiter.AnswerIsOwnRecord | internal/httpapi/gate.go:228-269 | after any history an answer depends only on the caller's own failures and successes: no when eight are recorded within the window, yes otherwise |
| Limiter.SweepIsInvisible | internal/httpapi/gate.go:255-262 | a limiter that sweeps and one that never does give the same answers |
| Limiter.OldRecordsGo | internal/httpapi/gate.go:228-263 | a question forgets the caller's expired record and no other; a further failure that leaves more than 1024 records leaves none older than fifteen minutes, and drops no other |
| Limiter.EightPerRecord | internal/httpapi/gate.go:107-145 | serial logins never count more than eight wrong passwords on one record |
| Limiter.AtMostFifteen | internal/httpapi/gate.go:107-145 | serial logins without a success see at most fifteen wrong passwords in any fifteen minutes |
| Limiter.FifteenReached | internal/httpapi/gate.go:228-263 | and fifteen do happen: the bound is exact |
| Autosave.Page.SaveRoster | internal/webui/assets/app.js:273-282 | sends the text under the next number unless it is the one pending |
| Autosave.Page.OnView | internal/webui/assets/app.js:283-290 | a view in reply to a save no older than the one on show replaces it and reads "Saved"; an older one changes nothing |
| Autosave.Page.OnFailure | internal/webui/assets/app.js:291-296 | a failure of such a save forgets the pending text and reads "Not saved"; an older one changes nothing |
| Autosave.StepInv | internal/webui/assets/app.js:247-297 | every event keeps the page, the replies in flight and the server's log consistent |
| Autosave.ShownNeverGoesBack | internal/webui/assets/app.js:283-287 | however late the replies, the version shown after a save never decreases |
| Autosave.ShownIsNewestHeard | internal/webui/assets/app.js:283-287 | the page shows the newest accepted save it has heard of, else what it loaded |
| Autosave.OrderDoesNotMatter | internal/webui/assets/app.js:283-287 | the same replies heard in any order show the same view |
| Autosave.RepliesCommuteExactly | internal/webui/assets/app.js:283-296 | flag and pending text depend on the order of two replies exactly when one is a view and the other a failure, unless the older fails with nothing pending |
| Autosave.SettledMeansStored | internal/webui/assets/app.js:273-297 | once all saves are answered, a text the page counts as saved is that of the version shown, and later versions came from elsewhere |
| Autosave.NewestAcceptedExactly | internal/webui/assets/app.js:273-297 | and the newest save was accepted if and only if its number is the one shown |
| Autosave.SavedFlagExactly | internal/webui/assets/app.js:273-297 | in every state that reads "Saved", the newest save was answered with a view and carried what the editor holds if and only if its number is the one shown and the editor holds the text shown; then that text is stored, and once all saves are answered later versions came from elsewhere |
| Autosave.FlagTellsTheLast | internal/webui/assets/app.js:247-297 | in every state the flag says what came last: a keystroke (unsaved), a save sent (saving), a view heard (saved) or a failure heard (not saved), replies older than the view on show aside |
| Autosave.FailureIsRetried | internal/webui/assets/app.js:273-297 | in every state that reads "Not saved" nothing is pending, so the next save is sent even for the same text |
| Autosave.LateSuccessReadsSaved | internal/webui/assets/app.js:283-296 | an older success heard after the newest save failed leaves the flag at Saved with nothing pending |
| Autosave.TypedOnReadsSaved | internal/webui/assets/app.js:283-288 | a success heard after the host has typed on leaves the flag at Saved over a text that was never stored |

## Left out

- Lower-casing is modelled for the letters whose lower case is ASCII (A to Z, the dotted capital I, the Kelvin sign); other alphabets are left as they are. The statements about name keys hold for every mapping that keeps white space and does nothing the second time.
- Floating point: draw keys and chances are real numbers, so rounding, the logarithm of an exact zero, infinities and NaN are not modelled.
- Counts in exponent, hexadecimal, infinity or NaN notation are not parsed; a float64 that int64 cannot hold becomes the smallest int64, as on amd64.
- The number of runs in an odds request is taken as already parsed; that one missing, malformed or above 200000 is replaced by the default is not modelled.
- Randomness is an arbitrary stream, the seed an arbitrary function of the cache key; that the draw gives each diaper equal weight is a statement about probability that is not made.
- Serials are given to the draw as a list; generating distinct ones terminates only with probability one.
- SQL text, the driver, isolation levels and I/O errors: a transaction is one atomic step that commits or leaves the tables alone.
- A diaper count that overflows inside SQLite is a failed transaction, because the row can no longer be read as an integer; the version counter does not overflow.
- Created and updated times other than those of draws and reveals; times are numbers that do not decrease, while the program compares formatted strings whose order can differ within a second.
- Views.Respond answers each request from one state; the handler reads event, guests and draw in separate statements. The odds request and the stale flag of the page (Runs.TornPageStaleExactly) are modelled with their reads apart; the page's tally and the face-down responses are not.
- Responses carry ids, rows, tallies, draws and odds inputs; JSON field names, HTTP status codes and decoding are not modelled.
- Password hashing, sessions, cookies, caller addresses, middleware, logging, rendering and the rest of the page's script.
- Limiter.AttemptLimiter.Fail: reads the clock once for the expiry test and once more for the stamp or the sweep; the program reads it again for each record it sweeps.
- Limiter.AtMostFifteen: is about logins of one caller one after another; logins in parallel are not bounded by it.
- Autosave.ShownNeverGoesBack: is about views that saves bring; a change of the prize count or a rename shows its own view without a number.
- An event that holds base-2 and asks for base while another event has it moves on to a later suffix, because its own slug counts as taken: EventEffects.UpdateEventExactly states what the program does, not that such an update leaves the link alone.
