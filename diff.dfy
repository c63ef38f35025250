/**
 The differ: two parsed configurations become a report of the keys added
 (only in the second), removed (only in the first) and modified (in both,
 with different values). Each key is reported as the text `key=value`.

 `compare_configs` walks Python sets, whose iteration order is not fixed. Here a
 loop over a set picks its next element with `:|`, so any order may occur,
 and the order taken is returned as a ghost sequence. The report is
 specified by `Describes`: SOME ordering of each key set produces it.
 */
module Diff {
  import opened Text
  import opened Parser

  /** A modified key: its entry in the first configuration and in the second. */
  datatype Change = Change(before: string, after: string)

  datatype DiffReport = DiffReport(added: seq<string>, removed: seq<string>, modified: seq<Change>)

  /** The text `key=value` that reports one key. */
  function Entry(key: string, value: string): (entry: string)
    ensures |entry| == |key| + 1 + |value|
    ensures entry[..|key|] == key && entry[|key|] == '=' && entry[|key| + 1..] == value
  {
    key + "=" + value
  }

  /** The key a reported entry belongs to: the text before its first `=`. */
  function EntryKey(entry: string): string
  {
    entry[..Find(entry, '=')]
  }

  /** The keys only in `d2`: disjoint from `d1`'s keys, and with them making up all keys. */
  function AddedKeys(d1: Config, d2: Config): (keys: set<string>)
    ensures keys !! d1.Keys && keys + d1.Keys == d1.Keys + d2.Keys
  {
    d2.Keys - d1.Keys
  }

  /** The keys only in `d1`: disjoint from `d2`'s keys, and with them making up all keys. */
  function RemovedKeys(d1: Config, d2: Config): (keys: set<string>)
    ensures keys !! d2.Keys && keys + d2.Keys == d1.Keys + d2.Keys
  {
    d1.Keys - d2.Keys
  }

  /** The shared keys whose values differ. */
  function ModifiedKeys(d1: Config, d2: Config): (keys: set<string>)
    ensures keys <= d1.Keys * d2.Keys
    ensures forall k :: k in d1 && k in d2 ==> (k in keys <==> d1[k] != d2[k])
  {
    set k | k in d1 && k in d2 && d1[k] != d2[k]
  }

  function UnchangedKeys(d1: Config, d2: Config): set<string>
  {
    set k | k in d1 && k in d2 && d1[k] == d2[k]
  }

  /** `order` lists every element of `keys` exactly once. */
  predicate IsEnumeration(order: seq<string>, keys: set<string>)
  {
    && (forall i, j :: 0 <= i < j < |order| ==> order[i] != order[j])
    && (forall k :: k in order ==> k in keys)
    && (forall k :: k in keys ==> k in order)
  }

  lemma {:induction false} EnumerationSize(order: seq<string>, keys: set<string>)
    requires IsEnumeration(order, keys)
    ensures |order| == |keys|
  {
    if order != [] {
      var n := |order| - 1;
      var init, last := order[..n], order[n];
      assert order == init + [last];
      assert IsEnumeration(init, keys - {last});
      EnumerationSize(init, keys - {last});
    }
  }

  /** The entries of the keys in `order`, with their values in `config`. */
  function Entries(config: Config, order: seq<string>): seq<string>
    requires forall k :: k in order ==> k in config
  {
    seq(|order|, i requires 0 <= i < |order| => Entry(order[i], config[order[i]]))
  }

  /** The changes of the keys in `order`, from their value in `d1` to their value in `d2`. */
  function Changes(d1: Config, d2: Config, order: seq<string>): seq<Change>
    requires forall k :: k in order ==> k in d1 && k in d2
  {
    seq(|order|, i requires 0 <= i < |order| =>
      Change(Entry(order[i], d1[order[i]]), Entry(order[i], d2[order[i]])))
  }

  /** Each change with its two sides exchanged. */
  function Swapped(changes: seq<Change>): seq<Change>
  {
    seq(|changes|, i requires 0 <= i < |changes| => Change(changes[i].after, changes[i].before))
  }

  /** `report` is the report built from these enumerations of the added, removed and modified keys. */
  ghost predicate Produces(d1: Config, d2: Config, report: DiffReport,
                           added: seq<string>, removed: seq<string>, modified: seq<string>)
  {
    && IsEnumeration(added, AddedKeys(d1, d2))
    && IsEnumeration(removed, RemovedKeys(d1, d2))
    && IsEnumeration(modified, ModifiedKeys(d1, d2))
    && report == DiffReport(Entries(d2, added), Entries(d1, removed), Changes(d1, d2, modified))
  }

  /**
   `report` is a report `compare_configs` can return for `d1` and `d2`, for
   some set iteration order. Each list then has one element per key of its set.
   */
  ghost predicate Describes(d1: Config, d2: Config, report: DiffReport): (b: bool)
    ensures b ==> |report.added| == |AddedKeys(d1, d2)|
    ensures b ==> |report.removed| == |RemovedKeys(d1, d2)|
    ensures b ==> |report.modified| == |ModifiedKeys(d1, d2)|
  {
    if exists added, removed, modified :: Produces(d1, d2, report, added, removed, modified) then
      var added, removed, modified :| Produces(d1, d2, report, added, removed, modified);
      EnumerationSize(added, AddedKeys(d1, d2));
      EnumerationSize(removed, RemovedKeys(d1, d2));
      EnumerationSize(modified, ModifiedKeys(d1, d2));
      true
    else
      false
  }

  /** The entries of the keys of a set, in the order the set is walked. */
  method ListEntries(config: Config, keys: set<string>) returns (entries: seq<string>, ghost order: seq<string>)
    requires keys <= config.Keys
    ensures IsEnumeration(order, keys)
    ensures entries == Entries(config, order)
    ensures |entries| == |keys|
    ensures forall e :: e in entries <==> exists k :: k in keys && e == Entry(k, config[k])
  {
    entries, order := [], [];
    var rest := keys;
    while rest != {}
      invariant rest <= keys
      invariant IsEnumeration(order, keys - rest)
      invariant entries == Entries(config, order)
      decreases rest
    {
      var k :| k in rest;
      entries, order := entries + [Entry(k, config[k])], order + [k];
      rest := rest - {k};
    }
    EntriesOfEnumeration(config, order, keys);
  }

  /** The changes of the shared keys whose values differ, in the order the shared keys are walked. */
  method ListChanges(d1: Config, d2: Config) returns (modified: seq<Change>, ghost order: seq<string>)
    ensures IsEnumeration(order, ModifiedKeys(d1, d2))
    ensures modified == Changes(d1, d2, order)
    ensures |modified| == |ModifiedKeys(d1, d2)|
    ensures forall c :: c in modified <==>
              exists k :: k in d1 && k in d2 && d1[k] != d2[k] && c == Change(Entry(k, d1[k]), Entry(k, d2[k]))
  {
    modified, order := [], [];
    var shared := d1.Keys * d2.Keys;
    var rest := shared;
    while rest != {}
      invariant rest <= shared
      invariant IsEnumeration(order, ModifiedKeys(d1, d2) - rest)
      invariant modified == Changes(d1, d2, order)
      decreases rest
    {
      var k :| k in rest;
      if d1[k] != d2[k] {
        modified := modified + [Change(Entry(k, d1[k]), Entry(k, d2[k]))];
        order := order + [k];
      }
      rest := rest - {k};
    }
    ChangesOfEnumeration(d1, d2, order);
  }

  /** The differ proper: added, removed and modified keys of two parsed configurations. */
  method CompareMaps(d1: Config, d2: Config) returns (report: DiffReport)
    ensures Describes(d1, d2, report)
  {
    var added, removed, modified;
    ghost var addedOrder, removedOrder, modifiedOrder;
    added, addedOrder := ListEntries(d2, d2.Keys - d1.Keys);
    removed, removedOrder := ListEntries(d1, d1.Keys - d2.Keys);
    modified, modifiedOrder := ListChanges(d1, d2);
    report := DiffReport(added, removed, modified);
    assert Produces(d1, d2, report, addedOrder, removedOrder, modifiedOrder);
  }

  /** Parse both text blocks and compare them. */
  method CompareConfigs(config1: string, config2: string) returns (report: DiffReport)
    ensures Describes(Parse(config1), Parse(config2), report)
  {
    var d1 := ParseConfig(config1);
    var d2 := ParseConfig(config2);
    report := CompareMaps(d1, d2);
  }

  /** The entries of an enumeration of `keys` are exactly one entry per key, with the key's value. */
  lemma EntriesOfEnumeration(config: Config, order: seq<string>, keys: set<string>)
    requires keys <= config.Keys && IsEnumeration(order, keys)
    ensures |Entries(config, order)| == |keys|
    ensures forall e :: e in Entries(config, order) <==> exists k :: k in keys && e == Entry(k, config[k])
  {
    EnumerationSize(order, keys);
    forall e | e in Entries(config, order)
      ensures exists k :: k in keys && e == Entry(k, config[k])
    {
      var i :| 0 <= i < |order| && Entries(config, order)[i] == e;
      assert order[i] in order;
    }
    forall k | k in keys
      ensures Entry(k, config[k]) in Entries(config, order)
    {
      var i :| 0 <= i < |order| && order[i] == k;
      assert Entries(config, order)[i] == Entry(k, config[k]);
    }
  }

  /** `added` holds one `key=value` entry for each key only in the second map, with its value there. */
  lemma AddedEntries(d1: Config, d2: Config, report: DiffReport)
    requires Describes(d1, d2, report)
    ensures |report.added| == |d2.Keys - d1.Keys|
    ensures forall e :: e in report.added <==> exists k :: k in d2 && k !in d1 && e == Entry(k, d2[k])
  {
    var a, r, m :| Produces(d1, d2, report, a, r, m);
    EntriesOfEnumeration(d2, a, AddedKeys(d1, d2));
  }

  /** `removed` holds one `key=value` entry for each key only in the first map, with its value there. */
  lemma RemovedEntries(d1: Config, d2: Config, report: DiffReport)
    requires Describes(d1, d2, report)
    ensures |report.removed| == |d1.Keys - d2.Keys|
    ensures forall e :: e in report.removed <==> exists k :: k in d1 && k !in d2 && e == Entry(k, d1[k])
  {
    var a, r, m :| Produces(d1, d2, report, a, r, m);
    EntriesOfEnumeration(d1, r, RemovedKeys(d1, d2));
  }

  /** The changes of an enumeration of the modified keys are exactly one change per modified key. */
  lemma ChangesOfEnumeration(d1: Config, d2: Config, order: seq<string>)
    requires IsEnumeration(order, ModifiedKeys(d1, d2))
    ensures |Changes(d1, d2, order)| == |ModifiedKeys(d1, d2)|
    ensures forall c :: c in Changes(d1, d2, order) <==>
              exists k :: k in d1 && k in d2 && d1[k] != d2[k] && c == Change(Entry(k, d1[k]), Entry(k, d2[k]))
  {
    var changes := Changes(d1, d2, order);
    EnumerationSize(order, ModifiedKeys(d1, d2));
    forall c | c in changes
      ensures exists k :: k in d1 && k in d2 && d1[k] != d2[k] && c == Change(Entry(k, d1[k]), Entry(k, d2[k]))
    {
      var i :| 0 <= i < |order| && changes[i] == c;
      assert order[i] in order;
    }
    forall k | k in d1 && k in d2 && d1[k] != d2[k]
      ensures Change(Entry(k, d1[k]), Entry(k, d2[k])) in changes
    {
      assert k in ModifiedKeys(d1, d2);
      var i :| 0 <= i < |order| && order[i] == k;
      assert changes[i] == Change(Entry(k, d1[k]), Entry(k, d2[k]));
    }
  }

  /**
   `modified` holds one change for each shared key whose values differ,
   from its entry in the first map to its entry in the second.
   */
  lemma ModifiedChanges(d1: Config, d2: Config, report: DiffReport)
    requires Describes(d1, d2, report)
    ensures |report.modified| == |ModifiedKeys(d1, d2)|
    ensures forall c :: c in report.modified <==>
              exists k :: k in d1 && k in d2 && d1[k] != d2[k] && c == Change(Entry(k, d1[k]), Entry(k, d2[k]))
  {
    var a, r, m :| Produces(d1, d2, report, a, r, m);
    ChangesOfEnumeration(d1, d2, m);
  }

  /** Every key of either map is added, removed, modified or unchanged, and in only one of these groups. */
  lemma KeyPartition(d1: Config, d2: Config)
    ensures d1.Keys + d2.Keys == AddedKeys(d1, d2) + RemovedKeys(d1, d2) + ModifiedKeys(d1, d2) + UnchangedKeys(d1, d2)
    ensures AddedKeys(d1, d2) !! RemovedKeys(d1, d2)
    ensures AddedKeys(d1, d2) !! ModifiedKeys(d1, d2)
    ensures AddedKeys(d1, d2) !! UnchangedKeys(d1, d2)
    ensures RemovedKeys(d1, d2) !! ModifiedKeys(d1, d2)
    ensures RemovedKeys(d1, d2) !! UnchangedKeys(d1, d2)
    ensures ModifiedKeys(d1, d2) !! UnchangedKeys(d1, d2)
  {
  }

  /** The key of an entry is recovered from it as long as the key holds no `=`. */
  lemma EntryKeyOf(key: string, value: string)
    requires '=' !in key
    ensures Find(Entry(key, value), '=') == |key|
    ensures EntryKey(Entry(key, value)) == key
    ensures Entry(key, value)[|key| + 1..] == value
  {
    FindFirst(key, '=', value);
    assert Entry(key, value)[..|key|] == key;
  }

  /** An entry of a parsed map parses back to the setting it was formatted from. */
  lemma EntryParsesBack(key: string, value: string)
    requires '=' !in key && IsStripped(key) && IsStripped(value)
    ensures ParseLine(Entry(key, value)) == Some(Setting(key, value))
  {
    var e := Entry(key, value);
    assert IsStripped(e) by {
      assert e[0] == if key == [] then '=' else key[0];
      assert e[|e| - 1] == if value == [] then '=' else value[|value| - 1];
    }
    StripStripped(e);
    EntryKeyOf(key, value);
    StripStripped(key);
    StripStripped(value);
  }

  /** The keys of the entries of an enumeration of `keys`, when no key holds `=`. */
  lemma KeysOfEntries(config: Config, order: seq<string>, keys: set<string>)
    requires keys <= config.Keys && IsEnumeration(order, keys)
    requires forall k :: k in keys ==> '=' !in k
    ensures (set e | e in Entries(config, order) :: EntryKey(e)) == keys
  {
    var entries := Entries(config, order);
    forall e | e in entries
      ensures EntryKey(e) in keys
    {
      var i :| 0 <= i < |order| && entries[i] == e;
      assert order[i] in order;
      EntryKeyOf(order[i], config[order[i]]);
    }
    forall k | k in keys
      ensures k in (set e | e in entries :: EntryKey(e))
    {
      var i :| 0 <= i < |order| && order[i] == k;
      EntryKeyOf(k, config[k]);
      assert EntryKey(entries[i]) == k;
    }
  }

  /** The keys of a run of changes: one per key of `order`, the same on both sides, and the two sides differ. */
  lemma KeysOfChanges(d1: Config, d2: Config, order: seq<string>)
    requires IsEnumeration(order, ModifiedKeys(d1, d2))
    requires forall k :: k in d1 ==> '=' !in k
    ensures (set c | c in Changes(d1, d2, order) :: EntryKey(c.before)) == ModifiedKeys(d1, d2)
    ensures forall c :: c in Changes(d1, d2, order) ==> EntryKey(c.before) == EntryKey(c.after) && c.before != c.after
  {
    var changes := Changes(d1, d2, order);
    forall c | c in changes
      ensures EntryKey(c.before) in ModifiedKeys(d1, d2)
      ensures EntryKey(c.before) == EntryKey(c.after) && c.before != c.after
    {
      var i :| 0 <= i < |order| && changes[i] == c;
      var k := order[i];
      assert k in order;
      EntryKeyOf(k, d1[k]);
      EntryKeyOf(k, d2[k]);
      assert c.before[|k| + 1..] != c.after[|k| + 1..];
    }
    forall k | k in ModifiedKeys(d1, d2)
      ensures k in (set c | c in changes :: EntryKey(c.before))
    {
      var i :| 0 <= i < |order| && order[i] == k;
      EntryKeyOf(k, d1[k]);
      assert EntryKey(changes[i].before) == k;
    }
  }

  /**
   For parsed maps, where no key holds `=`, the keys named by the report's
   entries are exactly the added, removed and modified keys; each change
   names the same key on both sides and its two sides differ.
   */
  lemma ReportKeys(d1: Config, d2: Config, report: DiffReport)
    requires WellFormed(d1) && WellFormed(d2)
    requires Describes(d1, d2, report)
    ensures (set e | e in report.added :: EntryKey(e)) == AddedKeys(d1, d2)
    ensures (set e | e in report.removed :: EntryKey(e)) == RemovedKeys(d1, d2)
    ensures (set c | c in report.modified :: EntryKey(c.before)) == ModifiedKeys(d1, d2)
    ensures forall c :: c in report.modified ==> EntryKey(c.before) == EntryKey(c.after) && c.before != c.after
  {
    var a, r, m :| Produces(d1, d2, report, a, r, m);
    KeysOfEntries(d2, a, AddedKeys(d1, d2));
    KeysOfEntries(d1, r, RemovedKeys(d1, d2));
    KeysOfChanges(d1, d2, m);
  }

  /** A key with equal values in both parsed maps is named by no entry of the report. */
  lemma UnchangedOmitted(d1: Config, d2: Config, report: DiffReport, key: string)
    requires WellFormed(d1) && WellFormed(d2)
    requires Describes(d1, d2, report)
    requires key in d1 && key in d2 && d1[key] == d2[key]
    ensures forall e :: e in report.added ==> EntryKey(e) != key
    ensures forall e :: e in report.removed ==> EntryKey(e) != key
    ensures forall c :: c in report.modified ==> EntryKey(c.before) != key && EntryKey(c.after) != key
  {
    ReportKeys(d1, d2, report);
    assert key !in AddedKeys(d1, d2) && key !in RemovedKeys(d1, d2) && key !in ModifiedKeys(d1, d2);
    forall e | e in report.added ensures EntryKey(e) != key {
      assert EntryKey(e) in (set e | e in report.added :: EntryKey(e));
    }
    forall e | e in report.removed ensures EntryKey(e) != key {
      assert EntryKey(e) in (set e | e in report.removed :: EntryKey(e));
    }
    forall c | c in report.modified ensures EntryKey(c.before) != key && EntryKey(c.after) != key {
      assert EntryKey(c.before) in (set c | c in report.modified :: EntryKey(c.before));
      assert EntryKey(c.before) == EntryKey(c.after);
    }
  }

  /** Comparing a configuration with itself reports nothing. */
  lemma SelfComparison(d: Config, report: DiffReport)
    requires Describes(d, d, report)
    ensures report == DiffReport([], [], [])
  {
    var a, r, m :| Produces(d, d, report, a, r, m);
    assert ModifiedKeys(d, d) == {};
    EnumerationSize(a, {});
    EnumerationSize(r, {});
    EnumerationSize(m, {});
  }

  /** Swapping the two maps swaps added and removed and exchanges the sides of every change. */
  lemma SwapSymmetry(d1: Config, d2: Config, report: DiffReport)
    requires Describes(d1, d2, report)
    ensures Describes(d2, d1, DiffReport(report.removed, report.added, Swapped(report.modified)))
  {
    var a, r, m :| Produces(d1, d2, report, a, r, m);
    assert ModifiedKeys(d2, d1) == ModifiedKeys(d1, d2);
    assert Changes(d2, d1, m) == Swapped(Changes(d1, d2, m));
    assert IsEnumeration(r, AddedKeys(d2, d1)) && IsEnumeration(a, RemovedKeys(d2, d1)) && IsEnumeration(m, ModifiedKeys(d2, d1));
    assert Produces(d2, d1, DiffReport(report.removed, report.added, Swapped(report.modified)), r, a, m);
  }
}
