/**
 * Listening statistics over one streaming-history export. Each play names a
 * track, an artist and the milliseconds played. Loading keeps those three
 * columns and fixes each play's duration; the queries then report the total
 * listening time, the most-played song, the most-played artist and the top
 * songs, all in whole (truncated) minutes.
 */
module History {
  import opened Wrappers
  import opened Grouping

  /** Milliseconds per minute; reported minutes are the truncated quotient. */
  const MsPerMinute: nat := 60000

  /**
   * One decoded play event. `msPlayed` is `None` where the record has no
   * duration, which is how a record without the field (or with null) is read.
   */
  datatype RawRow = RawRow(trackName: string, artistName: string, msPlayed: Option<nat>)

  /** One play of the loaded table, its duration in milliseconds. */
  datatype Row = Row(trackName: string, artistName: string, ms: nat)

  /** The grouping key of a song: track name and artist name, compared exactly. */
  datatype SongKey = SongKey(trackName: string, artistName: string)

  datatype SongStat = SongStat(song: string, artist: string, mins: nat)

  datatype ArtistStat = ArtistStat(artist: string, mins: nat)

  /** The decoded table has a duration column: some record carries a duration. */
  predicate HasMsColumn(raw: seq<RawRow>) {
    exists i :: 0 <= i < |raw| && raw[i].msPlayed.Some?
  }

  /** A missing duration counts as no time played. */
  function MsOrZero(ms: Option<nat>): nat {
    if ms.Some? then ms.value else 0
  }

  /** The loaded table: one row per decoded event, durations defaulted to 0. */
  function Normalize(raw: seq<RawRow>): seq<Row> {
    seq(|raw|, i requires 0 <= i < |raw| =>
      Row(raw[i].trackName, raw[i].artistName, MsOrZero(raw[i].msPlayed)))
  }

  /** A loaded listening history. */
  class SpotifyHistory {
    var df: seq<Row>

    /**
     * Keeps the track, artist and duration of every decoded event. With a
     * duration column, each row keeps its duration (0 where it has none);
     * without one, every row gets 0.
     */
    constructor (raw: seq<RawRow>)
      ensures df == Normalize(raw)
    {
      var hasMs := HasMsColumn(raw);
      var rows: seq<Row> := [];
      var i := 0;
      while i < |raw|
        invariant i <= |raw|
        invariant rows == Normalize(raw)[..i]
      {
        var ms := if hasMs then MsOrZero(raw[i].msPlayed) else 0;
        rows := rows + [Row(raw[i].trackName, raw[i].artistName, ms)];
        i := i + 1;
      }
      df := rows;
    }
  }

  /** Whole minutes in `ms`, truncated toward zero. */
  function Minutes(ms: nat): (m: nat)
    ensures m * MsPerMinute <= ms < (m + 1) * MsPerMinute
  {
    ms / MsPerMinute
  }

  /** Milliseconds played over the whole table. */
  function TotalMs(df: seq<Row>): nat {
    if df == [] then 0 else TotalMs(df[..|df| - 1]) + df[|df| - 1].ms
  }

  /** Total listening time in whole minutes. */
  function TotalMinutes(df: seq<Row>): (r: nat)
    ensures r * MsPerMinute <= TotalMs(df) < (r + 1) * MsPerMinute
    ensures df == [] ==> r == 0
  {
    Minutes(TotalMs(df))
  }

  /** The table keyed by song. */
  function SongEntries(df: seq<Row>): seq<Entry<SongKey>> {
    seq(|df|, i requires 0 <= i < |df| =>
      Entry(SongKey(df[i].trackName, df[i].artistName), df[i].ms))
  }

  /** The table keyed by artist. */
  function ArtistEntries(df: seq<Row>): seq<Entry<string>> {
    seq(|df|, i requires 0 <= i < |df| => Entry(df[i].artistName, df[i].ms))
  }

  /** Some row is a play of song `k`. */
  predicate PlayedSong(df: seq<Row>, k: SongKey) {
    Occurs(SongEntries(df), k)
  }

  /** Some row is a play by artist `a`. */
  predicate PlayedArtist(df: seq<Row>, a: string) {
    Occurs(ArtistEntries(df), a)
  }

  /** Milliseconds summed over the rows of song `k`. */
  function SongMs(df: seq<Row>, k: SongKey): nat {
    Total(SongEntries(df), k)
  }

  /** Milliseconds summed over the rows of artist `a`. */
  function ArtistMs(df: seq<Row>, a: string): nat {
    Total(ArtistEntries(df), a)
  }

  /** The number of distinct songs in the table. */
  function SongCount(df: seq<Row>): nat {
    |KeysOf(SongEntries(df))|
  }

  function KeyOf(s: SongStat): SongKey {
    SongKey(s.song, s.artist)
  }

  function SongStatOf(g: Entry<SongKey>): SongStat {
    SongStat(g.key.trackName, g.key.artistName, Minutes(g.ms))
  }

  /** Song `k` is among the reported songs. */
  predicate Listed(r: seq<SongStat>, k: SongKey) {
    exists i :: 0 <= i < |r| && KeyOf(r[i]) == k
  }

  /**
   * The most-played song, absent for an empty table: a song that was played,
   * its minutes the truncation of its summed time, and no song played longer.
   * Of several songs with the longest time it is the one played first.
   */
  function TopSong(df: seq<Row>): (r: Option<SongStat>)
    ensures r.None? <==> df == []
    ensures r.Some? ==> PlayedSong(df, KeyOf(r.value))
    ensures r.Some? ==> r.value.mins == Minutes(SongMs(df, KeyOf(r.value)))
    ensures r.Some? ==> forall k :: PlayedSong(df, k) ==> SongMs(df, k) <= SongMs(df, KeyOf(r.value))
    ensures r.Some? ==> forall k :: PlayedSong(df, k) && SongMs(df, k) == SongMs(df, KeyOf(r.value)) ==>
      FirstIndex(SongEntries(df), KeyOf(r.value)) <= FirstIndex(SongEntries(df), k)
  {
    if df == [] then None
    else
      var top := TopGroup(SongEntries(df)).value;
      Some(SongStatOf(top))
  }

  /**
   * The most-played artist, absent for an empty table: an artist who was
   * played, minutes truncated, and no artist played longer. Of several
   * artists with the longest time it is the one played first.
   */
  function TopArtist(df: seq<Row>): (r: Option<ArtistStat>)
    ensures r.None? <==> df == []
    ensures r.Some? ==> PlayedArtist(df, r.value.artist)
    ensures r.Some? ==> r.value.mins == Minutes(ArtistMs(df, r.value.artist))
    ensures r.Some? ==> forall a :: PlayedArtist(df, a) ==> ArtistMs(df, a) <= ArtistMs(df, r.value.artist)
    ensures r.Some? ==> forall a :: PlayedArtist(df, a) && ArtistMs(df, a) == ArtistMs(df, r.value.artist) ==>
      FirstIndex(ArtistEntries(df), r.value.artist) <= FirstIndex(ArtistEntries(df), a)
  {
    if df == [] then None
    else
      var top := TopGroup(ArtistEntries(df)).value;
      Some(ArtistStat(top.key, Minutes(top.ms)))
  }

  /**
   * The `n` most-played songs by descending time (for negative `n`, all but
   * the last `-n`), each once, nothing for an empty table. No song left out
   * was played longer than a song reported; with at least as many places as
   * songs, every song is reported.
   */
  function TopSongs(df: seq<Row>, n: int := 3): (r: seq<SongStat>)
    ensures df == [] ==> r == []
    ensures n >= 0 ==> |r| == if n < SongCount(df) then n else SongCount(df)
    ensures n < 0 ==> |r| == if -n < SongCount(df) then SongCount(df) + n else 0
    ensures forall i, j :: 0 <= i < j < |r| ==> KeyOf(r[i]) != KeyOf(r[j])
    ensures forall i :: 0 <= i < |r| ==>
      PlayedSong(df, KeyOf(r[i])) && r[i].mins == Minutes(SongMs(df, KeyOf(r[i])))
    ensures forall i, j :: 0 <= i < j < |r| ==>
      SongMs(df, KeyOf(r[j])) <= SongMs(df, KeyOf(r[i])) && r[j].mins <= r[i].mins
    ensures forall k, i :: PlayedSong(df, k) && !Listed(r, k) && 0 <= i < |r| ==>
      SongMs(df, k) <= SongMs(df, KeyOf(r[i]))
    ensures n >= SongCount(df) ==> forall k :: PlayedSong(df, k) ==> Listed(r, k)
  {
    if df == [] then []
    else
      var top := TopN(SongEntries(df), n);
      var r := seq(|top|, i requires 0 <= i < |top| => SongStatOf(top[i]));
      ReportedSongs(df, top, r);
      r
  }

  /** Reporting groups as songs keeps their keys, their order and their totals. */
  lemma ReportedSongs(df: seq<Row>, top: seq<Entry<SongKey>>, r: seq<SongStat>)
    requires |r| == |top|
    requires forall i :: 0 <= i < |top| ==> r[i] == SongStatOf(top[i])
    ensures forall i :: 0 <= i < |r| ==> KeyOf(r[i]) == top[i].key && r[i].mins == Minutes(top[i].ms)
    ensures forall k :: Listed(r, k) <==> Occurs(top, k)
    ensures NonIncreasing(top) ==> forall i, j :: 0 <= i < j < |r| ==> r[j].mins <= r[i].mins
  {
    forall k | Occurs(top, k) ensures Listed(r, k) {
      var i :| 0 <= i < |top| && top[i].key == k;
      assert KeyOf(r[i]) == k;
    }
    forall k | Listed(r, k) ensures Occurs(top, k) {
      var i :| 0 <= i < |r| && KeyOf(r[i]) == k;
      assert top[i].key == k;
    }
  }

  /** Without a duration column every play counts 0, so the total is 0 minutes. */
  lemma NoMsColumnNoMinutes(raw: seq<RawRow>)
    requires !HasMsColumn(raw)
    ensures TotalMinutes(Normalize(raw)) == 0
  {
    var df := Normalize(raw);
    forall i | 0 <= i < |df| ensures df[i].ms == 0 {
      assert raw[i].msPlayed.None?;
    }
    NothingPlayed(df);
  }

  lemma {:induction false} NothingPlayed(df: seq<Row>)
    requires forall i :: 0 <= i < |df| ==> df[i].ms == 0
    ensures TotalMs(df) == 0
  {
    if df != [] {
      NothingPlayed(df[..|df| - 1]);
    }
  }

  /** The first of the top songs is the top song, ties broken the same way. */
  lemma TopSongsLeadWithTopSong(df: seq<Row>, n: int)
    requires df != [] && n >= 1
    ensures TopSong(df).Some? && |TopSongs(df, n)| >= 1
    ensures TopSongs(df, n)[0] == TopSong(df).value
  {
    var es := SongEntries(df);
    assert es != [] && Occurs(es, es[0].key);
  }

  /** Dropping the last play drops the last keyed entry. */
  lemma EntriesSnoc(df: seq<Row>)
    requires df != []
    ensures SongEntries(df[..|df| - 1]) == SongEntries(df)[..|df| - 1]
    ensures ArtistEntries(df[..|df| - 1]) == ArtistEntries(df)[..|df| - 1]
  {
  }

  /** Keying the table by song or by artist keeps its total time. */
  lemma {:induction false} EntriesKeepTotal(df: seq<Row>)
    ensures Sum(SongEntries(df)) == TotalMs(df)
    ensures Sum(ArtistEntries(df)) == TotalMs(df)
  {
    if df != [] {
      EntriesSnoc(df);
      EntriesKeepTotal(df[..|df| - 1]);
    }
  }

  /** The song groups, and likewise the artist groups, add up to the total time. */
  lemma GroupsAddUpToTotal(df: seq<Row>)
    ensures Sum(GroupBy(SongEntries(df))) == TotalMs(df)
    ensures Sum(GroupBy(ArtistEntries(df))) == TotalMs(df)
  {
    GroupTotalsAddUp(SongEntries(df));
    GroupTotalsAddUp(ArtistEntries(df));
    EntriesKeepTotal(df);
  }

  /** A song's time is part of its artist's time. */
  lemma {:induction false} SongWithinArtist(df: seq<Row>, k: SongKey)
    ensures SongMs(df, k) <= ArtistMs(df, k.artistName)
    ensures PlayedSong(df, k) ==> PlayedArtist(df, k.artistName)
  {
    if df != [] {
      EntriesSnoc(df);
      SongWithinArtist(df[..|df| - 1], k);
    }
    if PlayedSong(df, k) {
      var i :| 0 <= i < |df| && SongEntries(df)[i].key == k;
      assert ArtistEntries(df)[i].key == k.artistName;
    }
  }

  /** The top song never reports more minutes than the total. */
  lemma TopSongWithinTotal(df: seq<Row>)
    requires df != []
    ensures TopSong(df).Some? && TopSong(df).value.mins <= TotalMinutes(df)
  {
    EntriesKeepTotal(df);
    var top := TopSong(df).value;
    assert SongMs(df, KeyOf(top)) <= TotalMs(df);
  }

  /** The top song never reports more minutes than the top artist. */
  lemma TopSongWithinTopArtist(df: seq<Row>)
    requires df != []
    ensures TopSong(df).Some? && TopArtist(df).Some?
    ensures TopSong(df).value.mins <= TopArtist(df).value.mins
  {
    var song := TopSong(df).value;
    SongWithinArtist(df, KeyOf(song));
    assert SongMs(df, KeyOf(song)) <= ArtistMs(df, TopArtist(df).value.artist);
  }

  /** Three plays: A by X for 1.5 minutes, B by X for 0.5, A by X for 0.5. */
  const ExamplePlays := [Row("A", "X", 90000), Row("B", "X", 30000), Row("A", "X", 30000)]

  /**
   * The example's total of 2.5 minutes reports 2; song A totals exactly 2
   * minutes and leads, song B's half minute reports 0; artist X has 2.
   */
  lemma WorkedExample()
    ensures TotalMinutes(ExamplePlays) == 2
    ensures TopSong(ExamplePlays) == Some(SongStat("A", "X", 2))
    ensures TopArtist(ExamplePlays) == Some(ArtistStat("X", 2))
    ensures TopSongs(ExamplePlays, 3) == [SongStat("A", "X", 2), SongStat("B", "X", 0)]
  {
    ExampleTotal();
    ExampleTopSongs();
    ExampleTopArtist();
  }

  lemma ExampleTotal()
    ensures TotalMinutes(ExamplePlays) == 2
  {
    var df := ExamplePlays;
    assert df[..2][..1] == df[..1];
    assert df[..1][..0] == [];
    assert TotalMs(df[..1]) == 90000;
    assert TotalMs(df[..2]) == 120000;
    assert TotalMs(df) == 150000;
  }

  lemma ExampleTopSongs()
    ensures TopSong(ExamplePlays) == Some(SongStat("A", "X", 2))
    ensures TopSongs(ExamplePlays, 3) == [SongStat("A", "X", 2), SongStat("B", "X", 0)]
  {
    var gs := ExampleSongOrder();
    ExampleTopSong(gs);
    ExampleTopThree(gs);
  }

  lemma ExampleTopSong(gs: seq<Entry<SongKey>>)
    requires gs == GroupBy(SongEntries(ExamplePlays)) && SortDesc(gs) == gs
    requires gs == [Entry(SongKey("A", "X"), 120000), Entry(SongKey("B", "X"), 30000)]
    ensures TopSong(ExamplePlays) == Some(SongStat("A", "X", 2))
  {
    assert TopGroup(SongEntries(ExamplePlays)) == Some(gs[0]);
  }

  lemma ExampleTopThree(gs: seq<Entry<SongKey>>)
    requires gs == GroupBy(SongEntries(ExamplePlays)) && SortDesc(gs) == gs
    requires gs == [Entry(SongKey("A", "X"), 120000), Entry(SongKey("B", "X"), 30000)]
    ensures TopSongs(ExamplePlays, 3) == [SongStat("A", "X", 2), SongStat("B", "X", 0)]
  {
    var es := SongEntries(ExamplePlays);
    assert es != [];
    assert Head(gs, 3) == gs;
    assert TopN(es, 3) == gs;
    ExampleStats(gs);
  }

  lemma ExampleStats(gs: seq<Entry<SongKey>>)
    requires gs == [Entry(SongKey("A", "X"), 120000), Entry(SongKey("B", "X"), 30000)]
    ensures seq(|gs|, i requires 0 <= i < |gs| => SongStatOf(gs[i])) ==
      [SongStat("A", "X", 2), SongStat("B", "X", 0)]
  {
  }

  lemma ExampleSongOrder() returns (gs: seq<Entry<SongKey>>)
    ensures gs == GroupBy(SongEntries(ExamplePlays)) && SortDesc(gs) == gs
    ensures gs == [Entry(SongKey("A", "X"), 120000), Entry(SongKey("B", "X"), 30000)]
  {
    gs := ExampleSongGroups();
    SortTwo(gs[0], gs[1]);
    assert [gs[0], gs[1]] == gs;
  }

  /** Two entries already in descending order stay as they are. */
  lemma SortTwo<K(!new)>(x: Entry<K>, y: Entry<K>)
    requires y.ms <= x.ms
    ensures SortDesc([x, y]) == [x, y]
  {
    assert [x, y][..1] == [x];
    assert ArgMax([x, y]) == 0;
    assert RemoveAt([x, y], 0) == [y];
    assert ArgMax([y]) == 0;
    assert RemoveAt([y], 0) == [];
    assert SortDesc([y]) == [y];
  }

  lemma ExampleTopArtist()
    ensures TopArtist(ExamplePlays) == Some(ArtistStat("X", 2))
  {
    var g := ExampleArtistGroup();
    assert TopGroup(ArtistEntries(ExamplePlays)) == Some(g);
  }

  lemma ExampleArtistGroup() returns (g: Entry<string>)
    ensures GroupBy(ArtistEntries(ExamplePlays)) == [g]
    ensures g == Entry("X", 150000)
  {
    var xs := ArtistEntries(ExamplePlays);
    assert xs == [Entry("X", 90000), Entry("X", 30000), Entry("X", 30000)];
    assert xs[..2] == [Entry("X", 90000), Entry("X", 30000)];
    assert xs[..1] == [Entry("X", 90000)];
    assert xs[..2][..1] == xs[..1];
    assert xs[..1][..0] == [];
    assert KeysOf(xs[..1]) == ["X"];
    assert KeysOf(xs[..2]) == ["X"];
    assert KeysOf(xs) == ["X"];
    assert Total(xs[..1], "X") == 90000;
    assert Total(xs[..2], "X") == 120000;
    assert Total(xs, "X") == 150000;
    g := Entry("X", 150000);
  }

  lemma ExampleSongGroups() returns (gs: seq<Entry<SongKey>>)
    ensures gs == GroupBy(SongEntries(ExamplePlays))
    ensures gs == [Entry(SongKey("A", "X"), 120000), Entry(SongKey("B", "X"), 30000)]
  {
    var a, b := SongKey("A", "X"), SongKey("B", "X");
    var es := SongEntries(ExamplePlays);
    assert es == [Entry(a, 90000), Entry(b, 30000), Entry(a, 30000)];
    assert es[..2] == [Entry(a, 90000), Entry(b, 30000)];
    assert es[..1] == [Entry(a, 90000)];
    assert es[..2][..1] == es[..1];
    assert es[..1][..0] == [];
    assert a != b by { assert "A"[0] != "B"[0]; }
    ExampleKeys(es, a, b);
    assert Total(es[..1], a) == 90000;
    assert Total(es[..2], a) == 90000;
    assert Total(es, a) == 120000;
    assert Total(es[..1], b) == 0;
    assert Total(es[..2], b) == 30000;
    assert Total(es, b) == 30000;
    gs := GroupBy(es);
  }

  lemma ExampleKeys(es: seq<Entry<SongKey>>, a: SongKey, b: SongKey)
    requires a != b && es == [Entry(a, 90000), Entry(b, 30000), Entry(a, 30000)]
    ensures KeysOf(es) == [a, b]
  {
    var e1, e2 := es[..1], es[..2];
    assert e1 == [Entry(a, 90000)] && e1[..0] == [];
    assert KeysOf(e1) == [a];
    assert e2 == [Entry(a, 90000), Entry(b, 30000)] && e2[..1] == e1;
    assert KeysOf(e2) == [a, b];
    assert es[..2] == e2;
  }
}
