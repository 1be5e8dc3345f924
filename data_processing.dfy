/**
 * The aggregation loop of src/data-processing: every dump row, in order, updates
 * its subject's record in a map from player name to `PlayerInfo`, in place.
 * The loop is proved against `Dump.ProfileOf`, which states each field as a
 * function of the whole input; a row whose `unwrap` would panic ends the run.
 */
module DataProcessing {
  import opened Wrappers
  import opened Ints
  import opened Text
  import Rfc3339
  import opened Dump

  datatype PlayerInfo = PlayerInfo(
    name: string,
    birthDate: string,
    birthPlace: string,
    yearOfGm: I32,
    chessComName: set<string>,
    lichessName: set<string>,
    peakRating: U32,
    sportCountry: string,
    citizenshipCountry: string,
    images: set<string>)

  /** `PlayerInfo::new()`: every field at its default. */
  const NewPlayer := PlayerInfo("", "", "", 0, {}, {}, 0, "", "", {})

  /** The record named `name` whose other fields are `q`'s. */
  function Named(name: string, q: Profile): PlayerInfo {
    PlayerInfo(name, q.birthDate, q.birthPlace, q.yearOfGm, q.chessComName, q.lichessName,
               q.peakRating, q.sportCountry, q.citizenshipCountry, q.images)
  }

  /** The fields of `player` other than its name. */
  function FieldsOf(player: PlayerInfo): Profile {
    Profile(player.birthDate, player.birthPlace, player.yearOfGm, player.chessComName, player.lichessName,
            player.peakRating, player.sportCountry, player.citizenshipCountry, player.images)
  }

  /**
   * The body of the loop for one row, on the record `players.get_mut` hands out:
   * the row's field policy applied as `Merge` states it, or the panic of one of
   * its `unwrap`s. The name is never touched.
   */
  method UpdatePlayer(player: PlayerInfo, entry: PlayerDumpEntry) returns (r: Result<PlayerInfo, FaultKind>)
    ensures r.Failure? <==> !Sound(entry)
    ensures r.Failure? ==> Fault(entry) == Some(r.error)
    ensures r.Success? ==> r.value == Named(player.name, Merge(FieldsOf(player), entry))
  {
    var player := player;

    if entry.wdLabel == "Lichess username" {
      player := player.(lichessName := player.lichessName + {entry.psLabel});
    }

    if entry.wdLabel == "Chess.com member ID" {
      player := player.(chessComName := player.chessComName + {entry.psLabel});
    }

    if entry.wdLabel == "title of chess person" && entry.psLabel == "Grandmaster" {
      if entry.pqLabel.None? {
        return Failure(MissingQualifier);
      }
      var date := Rfc3339.Parse(entry.pqLabel.value);
      if date.None? {
        return Failure(UnparsableDate);
      }
      player := player.(yearOfGm := date.value.year as I32);
    }

    if entry.wdLabel == "Elo rating" {
      var cmp := ParseU32(entry.psLabel);
      if cmp.None? {
        return Failure(UnparsableRating);
      }
      player := player.(peakRating := Max(player.peakRating, cmp.value));
    }

    if entry.wdLabel == "place of birth" {
      var hasCountry := entry.wdpqLabel.Some?;
      player := player.(birthPlace := entry.psLabel);
      if hasCountry {
        player := player.(birthPlace := player.birthPlace + ", ");
        if entry.pqLabel.None? {
          return Failure(MissingQualifier);
        }
        player := player.(birthPlace := player.birthPlace + entry.pqLabel.value);
      }
    }

    if entry.wdLabel == "date of birth" {
      var date := Rfc3339.Parse(entry.psLabel);
      if date.None? {
        return Failure(UnparsableDate);
      }
      var d := date.value;
      player := player.(birthDate := NatToString(d.day) + "." + NatToString(d.month) + "." + NatToString(d.year));
    }

    if entry.wdLabel == "country for sport" {
      player := player.(sportCountry := entry.psLabel);
    }

    if entry.wdLabel == "country of citizenship" {
      player := player.(citizenshipCountry := entry.psLabel);
    }

    if entry.wdLabel == "image" {
      player := player.(images := player.images + {entry.psLabel});
    }

    return Success(player);
  }

  /** The map that folding in the rows `ss` must build: one record per subject, as `ProfileOf` states it. */
  ghost function Expected(ss: seq<PlayerDumpEntry>): map<string, PlayerInfo> {
    map p | p in Subjects(ss) :: Named(p, ProfileOf(ss, p))
  }

  /** The record the loop starts from for `key`: the stored one, or a fresh one for a new subject. */
  lemma ExpectedBase(done: seq<PlayerDumpEntry>, key: string)
    ensures var players := Expected(done);
            (if key in players then FieldsOf(players[key]) else EmptyProfile) == ProfileOf(done, key)
  {
    if key !in Expected(done) {
      ProfileOfAbsent(done, key);
    }
  }

  /** One more row about `key` changes the expected record of `key` by `Merge` and no other. */
  lemma ExpectedAt(done: seq<PlayerDumpEntry>, entry: PlayerDumpEntry, p: string)
    requires p in Subjects(done + [entry])
    ensures var key := entry.playerLabel;
            Expected(done + [entry])[p] ==
              if p == key then Named(key, Merge(ProfileOf(done, key), entry)) else Expected(done)[p]
  {
    SubjectsSnoc(done, entry);
    if p == entry.playerLabel {
      ProfileSnocSame(done, entry);
    } else {
      ProfileSnocOther(done, entry, p);
    }
  }

  /** Storing the merged record of one more row's subject gives the map for the longer input. */
  lemma ExpectedStep(done: seq<PlayerDumpEntry>, entry: PlayerDumpEntry)
    ensures var key := entry.playerLabel;
            Expected(done + [entry]) == Expected(done)[key := Named(key, Merge(ProfileOf(done, key), entry))]
  {
    var key := entry.playerLabel;
    var after := Expected(done + [entry]);
    var next := Expected(done)[key := Named(key, Merge(ProfileOf(done, key), entry))];
    assert after.Keys == next.Keys by {
      SubjectsSnoc(done, entry);
    }
    forall p | p in after
      ensures after[p] == next[p]
    {
      ExpectedAt(done, entry, p);
    }
    SameMaps(after, next);
  }

  /** Two maps with the same keys and the same value at every key are equal. */
  lemma SameMaps(a: map<string, PlayerInfo>, b: map<string, PlayerInfo>)
    requires a.Keys == b.Keys
    requires forall k | k in a :: a[k] == b[k]
    ensures a == b
  {
  }

  /** The map the loop holds after the rows `ss`, one row at a time as the loop body does it. */
  ghost function Folded(ss: seq<PlayerDumpEntry>): map<string, PlayerInfo>
    decreases |ss|
  {
    if |ss| == 0 then map[]
    else
      var done := Folded(ss[..|ss| - 1]);
      var e := ss[|ss| - 1];
      var key := e.playerLabel;
      var base := if key in done then done[key] else NewPlayer.(name := key);
      done[key := Named(base.name, Merge(FieldsOf(base), e))]
  }

  /** Folding row by row builds exactly the map `Expected` describes. */
  lemma {:induction false} FoldedIsExpected(ss: seq<PlayerDumpEntry>)
    ensures Folded(ss) == Expected(ss)
    decreases |ss|
  {
    if |ss| > 0 {
      var done := ss[..|ss| - 1];
      var e := ss[|ss| - 1];
      assert ss == done + [e];
      FoldedIsExpected(done);
      ExpectedBase(done, e.playerLabel);
      ExpectedStep(done, e);
    }
  }

  /**
   * One pass of the loop body: look the row's subject up (inserting a fresh
   * record the first time), update that record, and store it back.
   */
  method AddRow(players: map<string, PlayerInfo>, entry: PlayerDumpEntry, ghost done: seq<PlayerDumpEntry>)
    returns (r: Result<map<string, PlayerInfo>, FaultKind>)
    requires players == Folded(done)
    ensures r.Failure? <==> !Sound(entry)
    ensures r.Failure? ==> Fault(entry) == Some(r.error)
    ensures r.Success? ==> r.value == Folded(done + [entry])
  {
    var players := players;
    var key := entry.playerLabel;

    if key !in players {
      players := players[key := NewPlayer];
      players := players[key := players[key].(name := key)];
    }
    var updated := UpdatePlayer(players[key], entry);
    if updated.Failure? {
      return Failure(updated.error);
    }
    players := players[key := updated.value];
    Snoc(done, entry);
    return Success(players);
  }

  /**
   * Folds `entries` into a map from player name to record. On success the keys
   * are exactly the distinct subjects, each record carries its key as name, and
   * every other field is as `ProfileOf` states; otherwise the result names the
   * first row whose `unwrap` panics.
   */
  method CollectPlayers(entries: seq<PlayerDumpEntry>) returns (r: Result<map<string, PlayerInfo>, Abort>)
    ensures r.Failure? <==> exists j | 0 <= j < |entries| :: !Sound(entries[j])
    ensures r.Failure? ==> FirstFault(entries, r.error)
    ensures r.Success? ==> r.value == Expected(entries)
  {
    var players: map<string, PlayerInfo> := map[];
    var i := 0;
    while i < |entries|
      invariant 0 <= i <= |entries|
      invariant SoundRows(entries[..i])
      invariant players == Folded(entries[..i])
    {
      var entry := entries[i];
      var next := AddRow(players, entry, entries[..i]);
      if next.Failure? {
        FirstFaultAt(entries, i, next.error);
        return Failure(Abort(i, next.error));
      }
      players := next.value;
      TakeOneMore(entries, i);
      i := i + 1;
    }
    assert entries[..i] == entries;
    SoundRowsAll(entries);
    FoldedIsExpected(entries);
    return Success(players);
  }
}
