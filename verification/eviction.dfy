/** The eviction policy of `delete_one`: which snapshot of a world goes
    when room must be made. Names are keyed by `parse`, which the program
    fixes to `Names.ParseKey`; the policy holds for any key function. */
module Eviction {
  import opened Common
  import opened Order
  import opened Fs
  import opened Catalog

  const Zero := Quad(0, 0, 0, 0)

  /** How far `newer` is from `older`: the major difference, the minor
      difference only between equal majors, the patch difference only
      between equal majors and minors, and the time difference. The
      distance is zero exactly between equal keys, and positive in tuple
      order exactly when it is taken in key order. */
  function Distance(older: Quad, newer: Quad): (r: Quad)
    ensures r == Zero <==> older == newer
    ensures Less(older, newer) <==> Less(Zero, r)
  {
    Quad(
      newer.major - older.major,
      if newer.major == older.major then newer.minor - older.minor else 0,
      if newer.major == older.major && newer.minor == older.minor then newer.patch - older.patch else 0,
      newer.time - older.time)
  }

  /** The two distances of a window, sorted ascending. */
  function Sort2(x: Quad, y: Quad): (r: Score)
    ensures (r.low == x && r.high == y) || (r.low == y && r.high == x)
    ensures !Less(r.high, r.low)
  {
    QuadOrderIsTotal();
    if Less(y, x) then Score(y, x) else Score(x, y)
  }

  /** The score of the window `(c[i], c[i + 1], c[i + 2])`. */
  function WindowScore(c: seq<Item>, i: nat): (r: Score)
    requires i + 2 < |c|
    ensures var left := Distance(c[i].key, c[i + 1].key);
            var right := Distance(c[i + 1].key, c[i + 2].key);
            (r.low == left && r.high == right) || (r.low == right && r.high == left)
    ensures !Less(r.high, r.low)
  {
    Sort2(Distance(c[i].key, c[i + 1].key), Distance(c[i + 1].key, c[i + 2].key))
  }

  function Scores(c: seq<Item>): (s: seq<Score>)
    requires |c| >= 3
    ensures |s| == |c| - 2
    ensures forall i :: 0 <= i < |s| ==> s[i] == WindowScore(c, i)
  {
    seq(|c| - 2, i requires 0 <= i < |c| - 2 => WindowScore(c, i))
  }

  /** Position in the catalog of the snapshot to delete. Nothing with
      fewer than two keys; the smaller key with two; with three or more,
      the middle of the first window whose sorted distance pair is least. */
  function VictimIndex(c: seq<Item>): (r: Option<nat>)
    ensures r.None? <==> |c| <= 1
    ensures |c| == 2 ==> r == Some(0)
    ensures |c| >= 3 ==> && r.Some? && 1 <= r.value <= |c| - 2
                         && (forall j :: 0 <= j < |c| - 2 ==> !ScoreLess(WindowScore(c, j), WindowScore(c, r.value - 1)))
                         && (forall j :: 0 <= j < r.value - 1 ==> ScoreLess(WindowScore(c, r.value - 1), WindowScore(c, j)))
  {
    if |c| <= 1 then None
    else if |c| == 2 then Some(0)
    else
      ScoreOrderIsTotal();
      Some(FirstMin(Scores(c), ScoreLess) + 1)
  }

  /** `delete_one`'s decision for a world's listing: fail on a malformed
      name, else the name of the victim, if any. */
  function DeleteOne(parse: string -> Result<Quad>, entries: seq<Entry>): (r: Result<Option<string>>)
    ensures r.Err? <==> !AllParse(parse, entries)
    ensures r.Err? ==> r.error == FilenameFormat
    ensures r.Ok? && r.value.Some? ==> r.value.value in NamesOf(entries)
  {
    match Build(parse, entries)
    case Err(e) => Err(e)
    case Ok(c) =>
      match VictimIndex(c)
      case None => Ok(None)
      case Some(i) =>
        assert c[i] in c;
        Ok(Some(c[i].name))
  }

  /** Every key of the catalog is the key of some listed entry. */
  lemma CatalogKeyListed(parse: string -> Result<Quad>, entries: seq<Entry>, it: Item)
    requires Build(parse, entries).Ok? && it in Build(parse, entries).value
    ensures exists i :: 0 <= i < |entries| && KeyAt(parse, entries, i) == it.key
  {
    var e :| e in entries && e.name == it.name;
    var i :| 0 <= i < |entries| && entries[i] == e;
    assert KeyAt(parse, entries, i) == it.key;
  }

  /** All listed entries share one key. */
  predicate OneKey(parse: string -> Result<Quad>, entries: seq<Entry>)
    requires AllParse(parse, entries)
  {
    forall i, j :: 0 <= i < |entries| && 0 <= j < |entries| ==> KeyAt(parse, entries, i) == KeyAt(parse, entries, j)
  }

  /** Nothing is deleted exactly when every name parses and all of them
      share one key (in particular with zero or one entry). */
  lemma NothingDeletedIffOneKey(parse: string -> Result<Quad>, entries: seq<Entry>)
    ensures DeleteOne(parse, entries) == Ok(None) <==> AllParse(parse, entries) && OneKey(parse, entries)
  {
    if AllParse(parse, entries) {
      var c := Build(parse, entries).value;
      if |c| <= 1 {
        SmallCatalogOneKey(parse, entries);
      } else {
        LargeCatalogTwoKeys(parse, entries);
      }
    }
  }

  lemma SmallCatalogOneKey(parse: string -> Result<Quad>, entries: seq<Entry>)
    requires AllParse(parse, entries) && |Build(parse, entries).value| <= 1
    ensures OneKey(parse, entries)
  {
  }

  lemma LargeCatalogTwoKeys(parse: string -> Result<Quad>, entries: seq<Entry>)
    requires AllParse(parse, entries) && |Build(parse, entries).value| >= 2
    ensures !OneKey(parse, entries)
  {
    var c := Build(parse, entries).value;
    QuadOrderIsTotal();
    assert c[0] in c && c[1] in c;
    CatalogKeyListed(parse, entries, c[0]);
    CatalogKeyListed(parse, entries, c[1]);
    assert Less(c[0].key, c[1].key);
  }

  /** With exactly two distinct keys the snapshot with the smaller key is
      deleted. */
  lemma TwoKeysEvictSmaller(parse: string -> Result<Quad>, entries: seq<Entry>)
    requires AllParse(parse, entries) && |Build(parse, entries).value| == 2
    ensures DeleteOne(parse, entries).Ok? && DeleteOne(parse, entries).value.Some?
    ensures var victim := DeleteOne(parse, entries).value.value;
      && parse(victim).Ok?
      && (forall i :: 0 <= i < |entries| ==> parse(victim).value == KeyAt(parse, entries, i) || Less(parse(victim).value, KeyAt(parse, entries, i)))
      && (exists j :: 0 <= j < |entries| && Less(parse(victim).value, KeyAt(parse, entries, j)))
  {
    var c := Build(parse, entries).value;
    assert c[0] in c && c[1] in c;
    assert DeleteOne(parse, entries) == Ok(Some(c[0].name));
    forall i | 0 <= i < |entries|
      ensures c[0].key == KeyAt(parse, entries, i) || Less(c[0].key, KeyAt(parse, entries, i))
    {
      assert KeyAt(parse, entries, i) in Keys(c);
    }
    CatalogKeyListed(parse, entries, c[1]);
  }

  /** With three or more distinct keys the victim has a smaller and a
      larger key beside it: the oldest and the newest snapshot are never
      deleted. */
  lemma VictimIsInterior(parse: string -> Result<Quad>, entries: seq<Entry>)
    requires AllParse(parse, entries) && |Build(parse, entries).value| >= 3
    ensures DeleteOne(parse, entries).Ok? && DeleteOne(parse, entries).value.Some?
    ensures var victim := DeleteOne(parse, entries).value.value;
      && parse(victim).Ok?
      && (exists i :: 0 <= i < |entries| && Less(KeyAt(parse, entries, i), parse(victim).value))
      && (exists j :: 0 <= j < |entries| && Less(parse(victim).value, KeyAt(parse, entries, j)))
  {
    var c := Build(parse, entries).value;
    var v := VictimIndex(c).value;
    assert c[0] in c && c[v] in c && c[|c| - 1] in c;
    assert DeleteOne(parse, entries) == Ok(Some(c[v].name));
    CatalogKeyListed(parse, entries, c[0]);
    CatalogKeyListed(parse, entries, c[|c| - 1]);
  }
}
