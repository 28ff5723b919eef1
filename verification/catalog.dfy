/** The catalog `delete_one` builds for one world: a `BTreeMap` from
    snapshot key to entry name, modelled as a list of items sorted by key.
    Entries are inserted in listing order, so on a key collision the entry
    listed last wins. The key of a name is given by `parse`; the program's
    is `Names.ParseKey`. */
module Catalog {
  import opened Common
  import opened Order
  import opened Fs

  datatype Item = Item(key: Quad, name: string)

  /** Strictly increasing keys: at most one item per key, in key order. */
  predicate Sorted(c: seq<Item>)
  {
    forall i, j :: 0 <= i < j < |c| ==> Less(c[i].key, c[j].key)
  }

  function Keys(c: seq<Item>): set<Quad>
  {
    set it | it in c :: it.key
  }

  function NamesOf(entries: seq<Entry>): set<string>
  {
    set e | e in entries :: e.name
  }

  /** `BTreeMap::insert`: the key now maps to `name`, replacing any
      previous name, and every other key keeps its item. */
  function Insert(c: seq<Item>, key: Quad, name: string): (r: seq<Item>)
    requires Sorted(c)
    ensures Sorted(r)
    ensures Item(key, name) in r
    ensures forall it :: it in r ==> it == Item(key, name) || (it in c && it.key != key)
    ensures forall it :: it in c && it.key != key ==> it in r
    ensures |r| <= |c| + 1
  {
    QuadOrderIsTotal();
    if |c| == 0 then [Item(key, name)]
    else if key == c[0].key then [Item(key, name)] + c[1..]
    else if Less(key, c[0].key) then [Item(key, name)] + c
    else
      var rest := Insert(c[1..], key, name);
      assert forall it :: it in c[1..] ==> Less(c[0].key, it.key);
      [c[0]] + rest
  }

  predicate AllParse(parse: string -> Result<Quad>, entries: seq<Entry>)
  {
    forall i :: 0 <= i < |entries| ==> parse(entries[i].name).Ok?
  }

  /** The key of the `i`-th entry of a listing whose names all parse. */
  function KeyAt(parse: string -> Result<Quad>, entries: seq<Entry>, i: nat): Quad
    requires AllParse(parse, entries) && i < |entries|
  {
    parse(entries[i].name).value
  }

  /** A listing parses when its first name and the rest do. */
  lemma AllParseCons(parse: string -> Result<Quad>, entries: seq<Entry>)
    requires |entries| > 0
    ensures AllParse(parse, entries) <==> parse(entries[0].name).Ok? && AllParse(parse, entries[1..])
    ensures AllParse(parse, entries) ==> forall i :: 0 < i < |entries| ==> KeyAt(parse, entries, i) == KeyAt(parse, entries[1..], i - 1)
  {
  }

  /** The listing read as `(key, name)` items in listing order; any name
      that does not parse makes the whole listing fail with
      `FilenameFormat`. */
  function ParseAll(parse: string -> Result<Quad>, entries: seq<Entry>): (r: Result<seq<Item>>)
    ensures r.Ok? <==> AllParse(parse, entries)
    ensures r.Err? ==> r.error == FilenameFormat
    ensures r.Ok? ==> |r.value| == |entries|
  {
    if |entries| == 0 then Ok([])
    else
      AllParseCons(parse, entries);
      var head := parse(entries[0].name);
      var tail := ParseAll(parse, entries[1..]);
      if head.Err? || tail.Err? then Err(FilenameFormat)
      else Ok([Item(head.value, entries[0].name)] + tail.value)
  }

  /** Item `i` of a parsed listing is entry `i`'s key and name. */
  lemma {:induction false} ParseAllItems(parse: string -> Result<Quad>, entries: seq<Entry>)
    requires AllParse(parse, entries)
    ensures forall i :: 0 <= i < |entries| ==> ParseAll(parse, entries).value[i] == Item(KeyAt(parse, entries, i), entries[i].name)
  {
    if |entries| > 0 {
      AllParseCons(parse, entries);
      ParseAllItems(parse, entries[1..]);
      var r := ParseAll(parse, entries).value;
      var tail := ParseAll(parse, entries[1..]).value;
      assert r == [Item(KeyAt(parse, entries, 0), entries[0].name)] + tail;
      forall i | 0 < i < |entries| ensures r[i] == Item(KeyAt(parse, entries, i), entries[i].name) {
        assert r[i] == tail[i - 1];
      }
    }
  }

  /** Inserting adds the key to the catalog's keys and removes none. */
  lemma InsertKeys(c: seq<Item>, key: Quad, name: string)
    requires Sorted(c)
    ensures Keys(Insert(c, key, name)) == Keys(c) + {key}
  {
  }

  /** Insert the items one after another, in order. */
  function FromItems(items: seq<Item>): (c: seq<Item>)
    ensures Sorted(c) && |c| <= |items|
    ensures forall it :: it in c ==> it in items
    ensures forall i :: 0 <= i < |items| ==> items[i].key in Keys(c)
  {
    if |items| == 0 then []
    else
      var init := items[..|items| - 1];
      var last := items[|items| - 1];
      assert items == init + [last];
      var c := FromItems(init);
      InsertKeys(c, last.key, last.name);
      Insert(c, last.key, last.name)
  }

  /** In a sorted catalog a key names at most one item. */
  lemma SortedKeyUnique(c: seq<Item>, x: Item, y: Item)
    requires Sorted(c) && x in c && y in c && x.key == y.key
    ensures x == y
  {
  }

  /** The catalog of a world's listing. */
  function Build(parse: string -> Result<Quad>, entries: seq<Entry>): (r: Result<seq<Item>>)
    ensures r.Ok? <==> AllParse(parse, entries)
    ensures r.Err? ==> r.error == FilenameFormat
    ensures r.Ok? ==> Sorted(r.value) && |r.value| <= |entries|
    ensures r.Ok? ==> forall it :: it in r.value ==> it.name in NamesOf(entries) && parse(it.name) == Ok(it.key)
    ensures r.Ok? ==> forall i :: 0 <= i < |entries| ==> KeyAt(parse, entries, i) in Keys(r.value)
  {
    match ParseAll(parse, entries)
    case Err(e) => Err(e)
    case Ok(items) =>
      ParseAllItems(parse, entries);
      var c := FromItems(items);
      assert forall it :: it in c ==> it.name in NamesOf(entries) && parse(it.name) == Ok(it.key) by {
        forall it | it in c ensures it.name in NamesOf(entries) && parse(it.name) == Ok(it.key) {
          var i :| 0 <= i < |items| && items[i] == it;
          assert entries[i] in entries;
        }
      }
      assert forall i :: 0 <= i < |entries| ==> KeyAt(parse, entries, i) == items[i].key;
      Ok(c)
  }

  /** The item inserted last among those sharing a key stays in the
      catalog. */
  lemma {:induction false} LastInsertKept(items: seq<Item>, i: nat)
    requires i < |items|
    requires forall j :: i < j < |items| ==> items[j].key != items[i].key
    ensures items[i] in FromItems(items)
  {
    var init := items[..|items| - 1];
    var last := items[|items| - 1];
    var before := FromItems(init);
    assert FromItems(items) == Insert(before, last.key, last.name);
    if i < |items| - 1 {
      assert init[i] == items[i];
      forall j | i < j < |init|
        ensures init[j].key != init[i].key
      {
        assert init[j] == items[j];
      }
      LastInsertKept(init, i);
      assert items[i] in before && items[i].key != last.key;
    }
  }

  /** Last insert wins: the item listed last among those sharing a key is
      the one the catalog keeps for that key, and it is the only one. */
  lemma LastInsertWins(items: seq<Item>, i: nat)
    requires i < |items|
    requires forall j :: i < j < |items| ==> items[j].key != items[i].key
    ensures items[i] in FromItems(items)
    ensures forall it :: it in FromItems(items) && it.key == items[i].key ==> it == items[i]
  {
    var c := FromItems(items);
    LastInsertKept(items, i);
    forall it | it in c && it.key == items[i].key
      ensures it == items[i]
    {
      SortedKeyUnique(c, it, items[i]);
    }
  }

  /** The same in terms of a world's listing: on a key collision the catalog
      names the entry listed last. */
  lemma ListedLastWins(parse: string -> Result<Quad>, entries: seq<Entry>, i: nat)
    requires AllParse(parse, entries) && i < |entries|
    requires forall j :: i < j < |entries| ==> KeyAt(parse, entries, j) != KeyAt(parse, entries, i)
    ensures Item(KeyAt(parse, entries, i), entries[i].name) in Build(parse, entries).value
    ensures forall it :: it in Build(parse, entries).value && it.key == KeyAt(parse, entries, i) ==> it.name == entries[i].name
  {
    ParseAllItems(parse, entries);
    LastInsertWins(ParseAll(parse, entries).value, i);
  }
}
