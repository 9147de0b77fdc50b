# Spotify listening statistics, modelled in Dafny

This project models the statistics engine of a small web application. The
application takes a streaming-history export and reports four figures:

- the total listening time;
- the most-played song;
- the most-played artist;
- the top songs.

Each play in the export has a track name, an artist name and the
milliseconds played (`msPlayed`). The class `SpotifyHistory` loads the
plays once. It keeps those three columns and gives each play a duration.
Its four queries are `total_minutes`, `top_song`, `top_artist` and
`top_3_songs(n)`. Each query groups the plays and reports whole minutes,
truncated rather than rounded.

Files:

- `wrappers.dfy`: `Option`, for queries that have nothing to report on an
  empty history.
- `grouping.dfy` (module `Grouping`): group-by-key aggregation over keyed
  millisecond counts (`Entry<K>`). The song query and the artist query do
  the same thing with different keys, so they share it. It covers the
  distinct keys in first-occurrence order (`KeysOf`), the per-key sum
  (`Total`), grouping (`GroupBy`), ordering by descending sum (`SortDesc`),
  the pandas `head(n)` cut (`Head`), and the top group and top-N groups
  (`TopGroup`, `TopN`).
- `history.dfy` (module `History`): the decoded rows (`RawRow`) and the
  loaded table (`Row`). It holds the class `SpotifyHistory`, whose
  constructor builds `df` step by step, and the four queries as functions
  of `df`: `TotalMinutes`, `TopSong`, `TopArtist` and `TopSongs`. It also
  holds the lemmas that relate the queries to each other.

Durations are kept as whole milliseconds. A reported minute count is the
millisecond sum divided by 60000 with integer division. This stands in for
the source's `int()` of a float sum of `msPlayed / 60000.0`.

A row with no `msPlayed` value counts 0 milliseconds. The decoded table
gets an `msPlayed` column when some record has that key, even with a null
value; a null counts 0 either way, because pandas skips missing values when
summing. The constructor takes the branch of `app.py:27-30` on whether the
column exists.

Song keys are `(trackName, artistName)` pairs and artist keys are
`artistName` alone. Both are compared by exact string equality.

Ties: the source takes the first row after an unstable sort
(`sort_values` defaults to quicksort), so it fixes no winner among equal
totals. The model picks one: groups are listed in the order their key first
appears, and ordering by total always takes the earliest of several equal
maxima first. `TopSong`, `TopArtist` and the first row of `TopSongs` state
this choice in their contracts. It is a strengthening of the source, not a
reproduction of it. Below the first row, the order among equal totals is
left unstated.

Notes on how the code behaves at its edges:

- A track or artist name column missing from the whole file raises
  `KeyError`, and a missing name value is dropped by `groupby`. The model
  takes names as given strings; see "Left out".
- The top-N cut is pandas `head(n)`, which for a negative `n` drops the
  last `-n` groups. `Head` and `TopSongs` model that.
- `astype(float)` raises an uncaught exception on a non-numeric
  `msPlayed`. Decoding is outside this model.

## Model

| member | source | states |
|---|---|---|
| History.SpotifyHistory.constructor | app.py:23-30 | The loaded table keeps track, artist and duration for every decoded row, in order. It uses the row's duration when the table has a duration column and the row has one, and 0 otherwise. |
| History.Minutes | app.py:42-43 | The reported minutes `m` are the truncation of a millisecond sum: `m*60000 <= ms < (m+1)*60000`. |
| History.TotalMinutes | app.py:32-33 | The total is the whole-minute truncation of the milliseconds summed over all rows. It is 0 for an empty table. |
| History.TopSong | app.py:35-43 | Absent exactly when the table is empty. Otherwise it is a song that was played, with minutes equal to the truncated sum over exactly its rows. No song was played longer, and among equally long songs it is the one played first. |
| History.TopArtist | app.py:45-50 | The same as `TopSong`, grouped by artist alone: absent exactly on an empty table, a played artist, truncated minutes, no artist longer, the first-played among ties. |
| History.TopSongs | app.py:52-60 | Empty on an empty table. Otherwise it has `min(n, #songs)` rows (for negative `n`, all but the last `-n`). Keys are pairwise distinct and each is a played song with its truncated total. Totals and minutes are non-increasing. No song left out was played longer than a listed one, and when `n` covers all songs every song is listed. |
| History.NoMsColumnNoMinutes | app.py:27-33 | Without a duration column every row counts 0, so the total is 0 minutes. |
| History.TopSongsLeadWithTopSong | app.py:35-60 | For a non-empty table and `n >= 1`, the first of the top songs is exactly the top song, with the same key and minutes. |
| History.TopSongWithinTotal | app.py:32-43 | The top song never reports more minutes than the total. |
| History.SongWithinArtist | app.py:38-48 | A song's summed time is at most its artist's summed time, and a played song's artist is a played artist. |
| History.TopSongWithinTopArtist | app.py:35-50 | The top song never reports more minutes than the top artist. |
| History.EntriesKeepTotal | app.py:32-48 | Keying the rows by song or by artist keeps the total milliseconds. |
| History.GroupsAddUpToTotal | app.py:32-50 | The song group totals, and likewise the artist group totals, add up to the table's total milliseconds. |
| History.WorkedExample | app.py:32-60 | Three plays (A/X 90000 ms, B/X 30000 ms, A/X 30000 ms) give total 2, top song A/X with 2, top artist X with 2, and top songs [A/X 2, B/X 0]. |
| Grouping.Total | app.py:39-40 | A key's group total is 0 when the key does not occur, and never more than the sum of all counts. |
| Grouping.KeysOf | app.py:38-39 | The group keys have no repeats and are exactly the keys that occur. |
| Grouping.KeysInFirstOccurrenceOrder | app.py:38-39 | The group keys are listed in the order of their first occurrence, the model's stand-in for pandas' key order (see "Left out"). |
| Grouping.GroupBy | app.py:38-40 | One group per distinct key, keys distinct, the group keys exactly the input keys, each group carrying its key's total, in first-occurrence order (pandas orders them by key; see "Left out"). |
| Grouping.GroupTotalsAddUp | app.py:38-40 | Grouping loses and invents nothing: the group totals add up to the sum of all counts. |
| Grouping.ArgMax | app.py:41 | A position holding the largest count, with every earlier position strictly smaller. |
| Grouping.SortDesc | app.py:41 | Ordering by descending total is a permutation (same multiset) and non-increasing. It keeps keys distinct and puts the earliest maximum first. |
| Grouping.Head | app.py:58 | pandas `head(n)`: a prefix of `min(n, len)` rows for `n >= 0`, and of `len + n` rows (at least 0) for negative `n`. |
| Grouping.TopGroup | app.py:38-43 | Absent exactly for no entries. Otherwise a group that occurs, carrying its own total, with no key totalling more, and the earliest-occurring among ties. |
| Grouping.TopN | app.py:53-58 | Empty for no entries. Otherwise it has the `Head` length over the groups, distinct keys, each with its total, and non-increasing totals. No left-out key totals more than a kept one, all keys are kept when `n` covers them, and the first row is the top group. |

## Left out

- Reading the upload and decoding JSON (`app.py:16-21`), including the
  fallback to line-delimited JSON after a `ValueError`. The model starts
  from the decoded rows; pandas' parser is not part of this model.
- The Flask routes, redirects and template rendering (`app.py:63-97`).
  These are request handling around the statistics, with no logic of their
  own.
- Column selection (`app.py:24-25`) is modelled only in that a decoded row
  carries exactly the three fields. Other fields of a record are never
  represented.
- pandas edge behaviour: `groupby` silently drops rows whose track or artist
  is missing (NaN), and a name column absent from the whole file raises
  `KeyError`. The model treats every name as a plain string.
- A non-numeric, negative or fractional `msPlayed`: `astype(float)` fails
  on the first, and the model's `nat` milliseconds exclude the others.
- Floating-point summation: the source sums `msPlayed / 60000.0` as floats
  before truncating. The model truncates the exact integer quotient, so a
  float sum that falls just below a whole minute is not reproduced.
- TopSong, TopArtist and TopSongs: the first-occurrence tie order is the
  model's choice. The source's unstable sort may pick any of the tied
  groups, so on ties for the top place these contracts are stronger than
  the source guarantees. Without ties they agree with it. Only the first
  row of `TopSongs` is fixed on ties; the order of later tied rows is not
  stated.
- GroupBy and KeysInFirstOccurrenceOrder: `groupby` runs with its default
  `sort=True`, so pandas lists the groups in ascending key order. The model
  lists them in the order their key first occurs instead. The group order
  is visible only through the tie policy above, because the groups are
  re-sorted by total before any of them is reported.
