/**
 * The statement vocabulary shared by the two ingestion pipelines
 * (src/data-processing and src/sqlite-generator): a dump row, the field each
 * predicate label feeds, the merge policy of one row, the rows that abort a run,
 * and, per field, what the finished record holds as a function of the whole
 * input sequence.
 */
module Dump {
  import opened Wrappers
  import opened Ints
  import opened Text
  import Rfc3339

  /** One row of the knowledge-base dump (`PlayerDumpEntry`). */
  datatype PlayerDumpEntry = PlayerDumpEntry(
    playerLabel: string,        // the subject: the player's name
    wdLabel: string,            // the predicate label
    psLabel: string,            // the primary value
    wdpqLabel: Option<string>,  // the qualifier's property label, if any
    pqLabel: Option<string>)    // the qualifier's value, if any

  /** The player fields a statement can feed (every field of a record except its name). */
  datatype Field =
    | LichessName | ChessComName | YearOfGm | PeakRating | BirthPlace
    | BirthDate | SportCountry | CitizenshipCountry | Images

  const KnownLabels: set<string> := {
    "Lichess username", "Chess.com member ID", "title of chess person", "Elo rating",
    "place of birth", "date of birth", "country for sport", "country of citizenship", "image"
  }

  /**
   * The field a statement feeds, by its predicate label; a GM-title statement
   * feeds only when its value is "Grandmaster", and unknown labels feed nothing.
   */
  function FieldOf(e: PlayerDumpEntry): (f: Option<Field>)
    ensures f.None? <==>
      e.wdLabel !in KnownLabels || (e.wdLabel == "title of chess person" && e.psLabel != "Grandmaster")
  {
    if e.wdLabel == "Lichess username" then Some(LichessName)
    else if e.wdLabel == "Chess.com member ID" then Some(ChessComName)
    else if e.wdLabel == "title of chess person" then
      (if e.psLabel == "Grandmaster" then Some(YearOfGm) else None)
    else if e.wdLabel == "Elo rating" then Some(PeakRating)
    else if e.wdLabel == "place of birth" then Some(BirthPlace)
    else if e.wdLabel == "date of birth" then Some(BirthDate)
    else if e.wdLabel == "country for sport" then Some(SportCountry)
    else if e.wdLabel == "country of citizenship" then Some(CitizenshipCountry)
    else if e.wdLabel == "image" then Some(Images)
    else None
  }

  // ---------------------------------------------------------------------------
  // Records

  /** The fields of a player record other than its name (the sqlite generator's whole `PlayerInfo`). */
  datatype Profile = Profile(
    birthDate: string,
    birthPlace: string,
    yearOfGm: I32,
    chessComName: set<string>,
    lichessName: set<string>,
    peakRating: U32,
    sportCountry: string,
    citizenshipCountry: string,
    images: set<string>)

  /** `PlayerInfo::new()`: every field at its `Default`. */
  const EmptyProfile := Profile("", "", 0, {}, {}, 0, "", "", {})

  // ---------------------------------------------------------------------------
  // Aborting rows: the `unwrap`s that panic and end the run

  datatype FaultKind = MissingQualifier | UnparsableDate | UnparsableRating

  /** A run that stopped at the row with this index. */
  datatype Abort = Abort(index: nat, kind: FaultKind)

  /**
   * The `unwrap` a row trips, if any: a GM title without its date qualifier or
   * with an unreadable date, a rating that is not a 32-bit number, a birth place
   * with a qualifier label but no qualifier value, an unreadable birth date.
   */
  function Fault(e: PlayerDumpEntry): (r: Option<FaultKind>)
    ensures r.Some? ==> FieldOf(e).Some?
    ensures r == Some(UnparsableDate) ==> FieldOf(e) == Some(BirthDate) || FieldOf(e) == Some(YearOfGm)
    ensures r == Some(MissingQualifier) <==>
      (FieldOf(e) == Some(YearOfGm) || (FieldOf(e) == Some(BirthPlace) && e.wdpqLabel.Some?)) && e.pqLabel.None?
    ensures r == Some(UnparsableRating) <==> FieldOf(e) == Some(PeakRating) && ParseU32(e.psLabel).None?
    ensures FieldOf(e) == Some(BirthDate) ==> (r.None? <==> Rfc3339.Parse(e.psLabel).Some?)
    ensures FieldOf(e) == Some(YearOfGm) ==> (r.None? <==> e.pqLabel.Some? && Rfc3339.Parse(e.pqLabel.value).Some?)
  {
    match FieldOf(e)
    case Some(YearOfGm) =>
      if e.pqLabel.None? then Some(MissingQualifier)
      else if Rfc3339.Parse(e.pqLabel.value).None? then Some(UnparsableDate)
      else None
    case Some(PeakRating) =>
      if ParseU32(e.psLabel).None? then Some(UnparsableRating) else None
    case Some(BirthPlace) =>
      if e.wdpqLabel.Some? && e.pqLabel.None? then Some(MissingQualifier) else None
    case Some(BirthDate) =>
      if Rfc3339.Parse(e.psLabel).None? then Some(UnparsableDate) else None
    case _ => None
  }

  predicate Sound(e: PlayerDumpEntry) {
    Fault(e).None?
  }

  /** Every row of `ss` is sound, checked from the last row back. */
  ghost predicate SoundRows(ss: seq<PlayerDumpEntry>)
    decreases |ss|
  {
    |ss| == 0 || (SoundRows(ss[..|ss| - 1]) && Sound(ss[|ss| - 1]))
  }

  lemma {:induction false} SoundRowsAll(ss: seq<PlayerDumpEntry>)
    ensures SoundRows(ss) <==> forall j | 0 <= j < |ss| :: Sound(ss[j])
    decreases |ss|
  {
    if |ss| > 0 {
      var done := ss[..|ss| - 1];
      SoundRowsAll(done);
      assert forall j | 0 <= j < |done| :: done[j] == ss[j];
    }
  }

  /** The first `i + 1` rows are the first `i` rows and row `i`. */
  lemma TakeOneMore(ss: seq<PlayerDumpEntry>, i: nat)
    requires i < |ss|
    ensures ss[..i + 1] == ss[..i] + [ss[i]]
  {
  }

  /** Rows `ss` followed by one more row `e`: the prefix is `ss` and the last row is `e`. */
  lemma Snoc(ss: seq<PlayerDumpEntry>, e: PlayerDumpEntry)
    ensures (ss + [e])[..|ss|] == ss && (ss + [e])[|ss|] == e
  {
  }

  /** `a` names the first row of `ss` that aborts, and how. */
  predicate FirstFault(ss: seq<PlayerDumpEntry>, a: Abort) {
    && a.index < |ss|
    && Fault(ss[a.index]) == Some(a.kind)
    && forall j | 0 <= j < a.index :: Sound(ss[j])
  }

  /** A loop that met only sound rows before row `i` and a fault at row `i` reports the first fault. */
  lemma FirstFaultAt(ss: seq<PlayerDumpEntry>, i: nat, kind: FaultKind)
    requires i < |ss| && SoundRows(ss[..i]) && Fault(ss[i]) == Some(kind)
    ensures FirstFault(ss, Abort(i, kind))
    ensures exists j | 0 <= j < |ss| :: !Sound(ss[j])
  {
    SoundRowsAll(ss[..i]);
    assert forall j | 0 <= j < i :: ss[..i][j] == ss[j];
  }

  // ---------------------------------------------------------------------------
  // The value one row contributes to its field

  /** `day.month.year`, each without zero padding. */
  function DottedDate(d: Rfc3339.DateTime): (r: string)
    ensures Split(r, '.') == [NatToString(d.day), NatToString(d.month), NatToString(d.year)]
  {
    var parts := [NatToString(d.day), NatToString(d.month), NatToString(d.year)];
    assert forall k | 0 <= k < 3 :: '.' !in parts[k];
    var r := parts[0] + "." + parts[1] + "." + parts[2];
    assert Join(parts, '.') == r by {
      assert Join(parts[2..], '.') == parts[2];
    }
    SplitJoin(parts, '.');
    r
  }

  function BirthDateText(e: PlayerDumpEntry): string {
    match Rfc3339.Parse(e.psLabel)
    case Some(d) => DottedDate(d)
    case None => ""
  }

  function GmYear(e: PlayerDumpEntry): I32 {
    match e.pqLabel
    case None => 0
    case Some(q) =>
      match Rfc3339.Parse(q)
      case Some(d) => d.year as I32
      case None => 0
  }

  function RatingOf(e: PlayerDumpEntry): U32 {
    ParseU32(e.psLabel).GetOr(0)
  }

  function BirthPlaceText(e: PlayerDumpEntry): string {
    if e.wdpqLabel.Some? then e.psLabel + ", " + e.pqLabel.GetOr("") else e.psLabel
  }

  /**
   * What one row does to its subject's fields: insert into a set, keep the larger
   * rating, or overwrite a text field. It never shrinks a set or lowers the rating,
   * and a row that feeds no field leaves the fields alone.
   */
  function Merge(q: Profile, e: PlayerDumpEntry): (r: Profile)
    ensures q.chessComName <= r.chessComName && q.lichessName <= r.lichessName && q.images <= r.images
    ensures q.peakRating <= r.peakRating
    ensures FieldOf(e).None? ==> r == q
  {
    var f := FieldOf(e);
    Profile(
      birthDate := if f == Some(BirthDate) then BirthDateText(e) else q.birthDate,
      birthPlace := if f == Some(BirthPlace) then BirthPlaceText(e) else q.birthPlace,
      yearOfGm := if f == Some(YearOfGm) then GmYear(e) else q.yearOfGm,
      chessComName := if f == Some(ChessComName) then q.chessComName + {e.psLabel} else q.chessComName,
      lichessName := if f == Some(LichessName) then q.lichessName + {e.psLabel} else q.lichessName,
      peakRating := if f == Some(PeakRating) then Max(q.peakRating, RatingOf(e)) else q.peakRating,
      sportCountry := if f == Some(SportCountry) then e.psLabel else q.sportCountry,
      citizenshipCountry := if f == Some(CitizenshipCountry) then e.psLabel else q.citizenshipCountry,
      images := if f == Some(Images) then q.images + {e.psLabel} else q.images)
  }

  // ---------------------------------------------------------------------------
  // Each field as a function of the whole input

  predicate About(e: PlayerDumpEntry, p: string, f: Field) {
    e.playerLabel == p && FieldOf(e) == Some(f)
  }

  /** The distinct subjects of the dump. */
  function Subjects(ss: seq<PlayerDumpEntry>): set<string> {
    set e | e in ss :: e.playerLabel
  }

  /** Every value stated for `p`'s set field `f`. */
  function Collected(ss: seq<PlayerDumpEntry>, p: string, f: Field): set<string> {
    set e | e in ss && About(e, p, f) :: e.psLabel
  }

  /** The index of the last row about `p`'s field `f`. */
  function LastAbout(ss: seq<PlayerDumpEntry>, p: string, f: Field): (r: Option<nat>)
    ensures r.Some? ==> r.value < |ss|
  {
    if |ss| == 0 then None
    else if About(ss[|ss| - 1], p, f) then Some(|ss| - 1)
    else LastAbout(ss[..|ss| - 1], p, f)
  }

  /** The largest rating stated for `p`, or 0 when there is none. */
  function Peak(ss: seq<PlayerDumpEntry>, p: string): U32 {
    if |ss| == 0 then 0
    else
      var last := ss[|ss| - 1];
      Max(Peak(ss[..|ss| - 1], p), if About(last, p, PeakRating) then RatingOf(last) else 0)
  }

  /** The text a row gives its (text) field `f`. */
  function TextOf(e: PlayerDumpEntry, f: Field): string {
    if f == BirthDate then BirthDateText(e)
    else if f == BirthPlace then BirthPlaceText(e)
    else e.psLabel
  }

  function LastText(ss: seq<PlayerDumpEntry>, p: string, f: Field): string {
    match LastAbout(ss, p, f)
    case None => ""
    case Some(i) => TextOf(ss[i], f)
  }

  function LastGmYear(ss: seq<PlayerDumpEntry>, p: string): I32 {
    match LastAbout(ss, p, YearOfGm)
    case None => 0
    case Some(i) => GmYear(ss[i])
  }

  /** What the pipeline's record for `p` holds once every row of `ss` is folded in. */
  function ProfileOf(ss: seq<PlayerDumpEntry>, p: string): Profile {
    Profile(
      birthDate := LastText(ss, p, BirthDate),
      birthPlace := LastText(ss, p, BirthPlace),
      yearOfGm := LastGmYear(ss, p),
      chessComName := Collected(ss, p, ChessComName),
      lichessName := Collected(ss, p, LichessName),
      peakRating := Peak(ss, p),
      sportCountry := LastText(ss, p, SportCountry),
      citizenshipCountry := LastText(ss, p, CitizenshipCountry),
      images := Collected(ss, p, Images))
  }

  // ---------------------------------------------------------------------------
  // One more row

  lemma SubjectsSnoc(ss: seq<PlayerDumpEntry>, e: PlayerDumpEntry)
    ensures Subjects(ss + [e]) == Subjects(ss) + {e.playerLabel}
  {
    assert forall x | x in ss + [e] :: x in ss || x == e;
    assert forall x | x in ss :: x in ss + [e];
  }

  lemma LastAboutSnoc(ss: seq<PlayerDumpEntry>, e: PlayerDumpEntry, p: string, f: Field)
    ensures LastAbout(ss + [e], p, f) == if About(e, p, f) then Some(|ss|) else LastAbout(ss, p, f)
  {
    assert (ss + [e])[..|ss|] == ss;
  }

  lemma CollectedSnoc(ss: seq<PlayerDumpEntry>, e: PlayerDumpEntry, p: string, f: Field)
    ensures Collected(ss + [e], p, f) == Collected(ss, p, f) + if About(e, p, f) then {e.psLabel} else {}
  {
    assert forall x | x in ss + [e] :: x in ss || x == e;
    assert forall x | x in ss :: x in ss + [e];
  }

  /** A subject the rows never mention has the default record. */
  lemma {:induction false} ProfileOfAbsent(ss: seq<PlayerDumpEntry>, p: string)
    requires p !in Subjects(ss)
    ensures ProfileOf(ss, p) == EmptyProfile
    decreases |ss|
  {
    if |ss| > 0 {
      var before, last := ss[..|ss| - 1], ss[|ss| - 1];
      assert ss == before + [last];
      assert p !in Subjects(before) by { SubjectsSnoc(before, last); }
      ProfileOfAbsent(before, p);
      ProfileSnocOther(before, last, p);
    }
  }

  lemma LastTextSnoc(ss: seq<PlayerDumpEntry>, e: PlayerDumpEntry, p: string, f: Field)
    ensures LastText(ss + [e], p, f) == if About(e, p, f) then TextOf(e, f) else LastText(ss, p, f)
  {
    LastAboutSnoc(ss, e, p, f);
    assert (ss + [e])[|ss|] == e;
    if LastAbout(ss, p, f).Some? {
      assert (ss + [e])[LastAbout(ss, p, f).value] == ss[LastAbout(ss, p, f).value];
    }
  }

  lemma LastGmYearSnoc(ss: seq<PlayerDumpEntry>, e: PlayerDumpEntry, p: string)
    ensures LastGmYear(ss + [e], p) == if About(e, p, YearOfGm) then GmYear(e) else LastGmYear(ss, p)
  {
    LastAboutSnoc(ss, e, p, YearOfGm);
    assert (ss + [e])[|ss|] == e;
    if LastAbout(ss, p, YearOfGm).Some? {
      assert (ss + [e])[LastAbout(ss, p, YearOfGm).value] == ss[LastAbout(ss, p, YearOfGm).value];
    }
  }

  lemma PeakSnoc(ss: seq<PlayerDumpEntry>, e: PlayerDumpEntry, p: string)
    ensures Peak(ss + [e], p) == Max(Peak(ss, p), if About(e, p, PeakRating) then RatingOf(e) else 0)
  {
    assert (ss + [e])[..|ss|] == ss;
  }

  /** A row about another subject leaves `p`'s record as it was. */
  lemma ProfileSnocOther(ss: seq<PlayerDumpEntry>, e: PlayerDumpEntry, p: string)
    requires e.playerLabel != p
    ensures ProfileOf(ss + [e], p) == ProfileOf(ss, p)
  {
    var after, before := ProfileOf(ss + [e], p), ProfileOf(ss, p);
    assert after.birthDate == before.birthDate by { LastTextSnoc(ss, e, p, BirthDate); }
    assert after.birthPlace == before.birthPlace by { LastTextSnoc(ss, e, p, BirthPlace); }
    assert after.yearOfGm == before.yearOfGm by { LastGmYearSnoc(ss, e, p); }
    assert after.chessComName == before.chessComName by { CollectedSnoc(ss, e, p, ChessComName); }
    assert after.lichessName == before.lichessName by { CollectedSnoc(ss, e, p, LichessName); }
    assert after.peakRating == before.peakRating by { PeakSnoc(ss, e, p); }
    assert after.sportCountry == before.sportCountry by { LastTextSnoc(ss, e, p, SportCountry); }
    assert after.citizenshipCountry == before.citizenshipCountry by {
      LastTextSnoc(ss, e, p, CitizenshipCountry);
    }
    assert after.images == before.images by { CollectedSnoc(ss, e, p, Images); }
  }

  /** A row about `p` changes `p`'s record exactly as `Merge` does. */
  lemma ProfileSnocSame(ss: seq<PlayerDumpEntry>, e: PlayerDumpEntry)
    ensures ProfileOf(ss + [e], e.playerLabel) == Merge(ProfileOf(ss, e.playerLabel), e)
  {
    var p := e.playerLabel;
    var after, merged := ProfileOf(ss + [e], p), Merge(ProfileOf(ss, p), e);
    assert after.birthDate == merged.birthDate by { LastTextSnoc(ss, e, p, BirthDate); }
    assert after.birthPlace == merged.birthPlace by { LastTextSnoc(ss, e, p, BirthPlace); }
    assert after.yearOfGm == merged.yearOfGm by { LastGmYearSnoc(ss, e, p); }
    assert after.chessComName == merged.chessComName by { CollectedSnoc(ss, e, p, ChessComName); }
    assert after.lichessName == merged.lichessName by { CollectedSnoc(ss, e, p, LichessName); }
    assert after.peakRating == merged.peakRating by { PeakSnoc(ss, e, p); }
    assert after.sportCountry == merged.sportCountry by { LastTextSnoc(ss, e, p, SportCountry); }
    assert after.citizenshipCountry == merged.citizenshipCountry by {
      LastTextSnoc(ss, e, p, CitizenshipCountry);
    }
    assert after.images == merged.images by { CollectedSnoc(ss, e, p, Images); }
  }

  // ---------------------------------------------------------------------------
  // Properties of the characterisation

  /** `LastAbout` finds the row about `p`'s field `f` that no later row overrides, or reports there is none. */
  lemma {:induction false} LastAboutIsLast(ss: seq<PlayerDumpEntry>, p: string, f: Field)
    ensures var r := LastAbout(ss, p, f);
            && (r.Some? ==> About(ss[r.value], p, f))
            && (r.Some? ==> forall j | r.value < j < |ss| :: !About(ss[j], p, f))
            && (r.None? ==> forall j | 0 <= j < |ss| :: !About(ss[j], p, f))
    decreases |ss|
  {
    if |ss| > 0 && !About(ss[|ss| - 1], p, f) {
      var before := ss[..|ss| - 1];
      LastAboutIsLast(before, p, f);
      assert forall j | 0 <= j < |before| :: before[j] == ss[j];
    }
  }

  /** The peak is at least every rating stated for `p`, and is one of them unless it is 0. */
  lemma {:induction false} PeakIsMax(ss: seq<PlayerDumpEntry>, p: string)
    ensures forall e | e in ss && About(e, p, PeakRating) :: RatingOf(e) <= Peak(ss, p)
    ensures Peak(ss, p) == 0 || exists e | e in ss && About(e, p, PeakRating) :: RatingOf(e) == Peak(ss, p)
    decreases |ss|
  {
    if |ss| > 0 {
      var last := ss[|ss| - 1];
      var before := ss[..|ss| - 1];
      assert ss == before + [last];
      PeakIsMax(before, p);
      assert forall e | e in before :: e in ss;
    }
  }

  /** The peak rating of a prefix of the dump never exceeds that of the whole dump. */
  lemma {:induction false} PeakNeverDecreases(ss: seq<PlayerDumpEntry>, i: nat, p: string)
    requires i <= |ss|
    ensures Peak(ss[..i], p) <= Peak(ss, p)
  {
    if i < |ss| {
      var before := ss[..|ss| - 1];
      assert before[..i] == ss[..i];
      PeakNeverDecreases(before, i, p);
    } else {
      assert ss[..i] == ss;
    }
  }

  /** Values collected from a prefix of the dump are still there at the end. */
  lemma CollectedGrows(ss: seq<PlayerDumpEntry>, i: nat, p: string, f: Field)
    requires i <= |ss|
    ensures Collected(ss[..i], p, f) <= Collected(ss, p, f)
  {
    assert forall e | e in ss[..i] :: e in ss;
  }

  /** A row with a label outside the vocabulary leaves every record as it was. */
  lemma UnknownLabelIgnored(ss: seq<PlayerDumpEntry>, e: PlayerDumpEntry, p: string)
    requires e.wdLabel !in KnownLabels
    ensures ProfileOf(ss + [e], p) == ProfileOf(ss, p)
  {
    if e.playerLabel == p {
      ProfileSnocSame(ss, e);
    } else {
      ProfileSnocOther(ss, e, p);
    }
  }

  /** The dotted date splits at its dots into the three unpadded numbers, which read back as day, month, year. */
  lemma DottedDateFields(d: Rfc3339.DateTime)
    ensures Split(DottedDate(d), '.') == [NatToString(d.day), NatToString(d.month), NatToString(d.year)]
    ensures ParseDecimal(Split(DottedDate(d), '.')[0]) == Some(d.day)
    ensures ParseDecimal(Split(DottedDate(d), '.')[1]) == Some(d.month)
    ensures ParseDecimal(Split(DottedDate(d), '.')[2]) == Some(d.year)
  {
    ParseDecimalNatToString(d.day);
    ParseDecimalNatToString(d.month);
    ParseDecimalNatToString(d.year);
  }

  /** A birth date written in canonical form reads back as that date, day first. */
  lemma BirthDateOfFormat(e: PlayerDumpEntry, d: Rfc3339.DateTime)
    requires Rfc3339.Valid(d) && e.psLabel == Rfc3339.Format(d)
    ensures BirthDateText(e) == DottedDate(d)
  {
    Rfc3339.ParseFormat(d);
  }

  /** Birth dates are written day first and unpadded: 1990-11-30 gives "30.11.1990". */
  lemma BirthDateExample()
    ensures DottedDate(Rfc3339.DateTime(1990, 11, 30, 0, 0, 0, Rfc3339.Utc)) == "30.11.1990"
  {
    assert NatToString(30) == "30" && NatToString(11) == "11" && NatToString(1990) == "1990";
  }

  /** A birth-date row "1990-11-30T00:00:00Z" gives the player the birth date "30.11.1990". */
  lemma BirthDateRowExample()
    ensures BirthDateText(PlayerDumpEntry("X", "date of birth", "1990-11-30T00:00:00Z", None, None)) == "30.11.1990"
  {
    var d := Rfc3339.DateTime(1990, 11, 30, 0, 0, 0, Rfc3339.Utc);
    Rfc3339.FormatExample();
    BirthDateOfFormat(PlayerDumpEntry("X", "date of birth", "1990-11-30T00:00:00Z", None, None), d);
    BirthDateExample();
  }

  lemma ExampleRatings()
    ensures ParseU32("2700") == Some(2700) && ParseU32("2882") == Some(2882) && ParseU32("2650") == Some(2650)
  {
    DigitsValue4("2700");
    DigitsValue4("2882");
    DigitsValue4("2650");
  }

  /** A rating row about "X" whose value parses to `n` feeds `n` to X's peak rating. */
  lemma RatingRow(v: string, n: U32)
    requires ParseU32(v) == Some(n)
    ensures var e := PlayerDumpEntry("X", "Elo rating", v, None, None);
            About(e, "X", PeakRating) && RatingOf(e) == n
  {
  }

  /** The peak is the largest rating stated: 2700, 2882, 2650 give 2882. */
  lemma PeakExample()
    ensures Peak([PlayerDumpEntry("X", "Elo rating", "2700", None, None),
                  PlayerDumpEntry("X", "Elo rating", "2882", None, None),
                  PlayerDumpEntry("X", "Elo rating", "2650", None, None)], "X") == 2882
  {
    var a := PlayerDumpEntry("X", "Elo rating", "2700", None, None);
    var b := PlayerDumpEntry("X", "Elo rating", "2882", None, None);
    var c := PlayerDumpEntry("X", "Elo rating", "2650", None, None);
    ExampleRatings();
    RatingRow("2700", 2700);
    RatingRow("2882", 2882);
    RatingRow("2650", 2650);
    PeakSnoc([], a, "X");
    assert [] + [a] == [a];
    PeakSnoc([a], b, "X");
    assert [a] + [b] == [a, b];
    PeakSnoc([a, b], c, "X");
    assert [a, b] + [c] == [a, b, c];
  }
}
