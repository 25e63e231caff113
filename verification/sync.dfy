/**
  Reconciling a keyed table with a set of keys that should be present: the
  two loops of `scan_photos_folder`, stated for any key and row type.  Rows
  whose key is present are kept as they are, rows whose key vanished are
  deleted, and every new key gets the row `create` makes for it.
 */
module Sync {

  /** The table a reconciliation must produce: one row per present key, the
      old row when there was one and a created row otherwise. */
  function Reconciled<K, V>(table: map<K, V>, present: set<K>, create: K -> V): (r: map<K, V>)
    ensures r.Keys == present
  {
    map k | k in present :: if k in table then table[k] else create(k)
  }

  /** The reference table has the present keys, keeps old rows and creates
      the rest. */
  lemma ReconciledShape<K, V>(table: map<K, V>, present: set<K>, create: K -> V)
    ensures Reconciled(table, present, create).Keys == present
    ensures forall k :: k in present && k in table ==> Reconciled(table, present, create)[k] == table[k]
    ensures forall k :: k in present && k !in table ==> Reconciled(table, present, create)[k] == create(k)
  {
  }

  /** The add loop: every present key missing from the table gets a created
      row, and `added` counts them.  Set iteration order is arbitrary. */
  method AddMissing<K, V>(table: map<K, V>, present: set<K>, create: K -> V)
    returns (grown: map<K, V>, added: nat)
    ensures grown.Keys == table.Keys + present
    ensures forall k :: k in table ==> grown[k] == table[k]
    ensures forall k :: k in grown && k !in table ==> grown[k] == create(k)
    ensures added == |present - table.Keys|
  {
    grown := table;
    added := 0;
    var toVisit := present;
    while toVisit != {}
      invariant toVisit <= present
      invariant forall k :: k in grown <==> k in table || (k in present && k !in toVisit)
      invariant forall k :: k in table ==> grown[k] == table[k]
      invariant forall k :: k in grown && k !in table ==> grown[k] == create(k)
      invariant |grown| == |table| + added
      decreases toVisit
    {
      var k :| k in toVisit;
      if k !in table {
        grown := grown[k := create(k)];
        added := added + 1;
      }
      toVisit := toVisit - {k};
    }
    GrownCount(table.Keys, grown.Keys, present, added);
  }

  /** A key set that grew by `added` keys, exactly the present keys it did
      not have, grew by the number of keys it was missing. */
  lemma GrownCount<K>(known: set<K>, grown: set<K>, present: set<K>, added: nat)
    requires forall k :: k in grown <==> k in known || k in present
    requires |grown| == |known| + added
    ensures grown == known + present
    ensures added == |present - known|
  {
    assert grown == known + (present - known);
    DisjointCount(known, present - known);
  }

  /** The remove loop: every key of `known` (the keys read before the add
      loop) that is not present loses its row, and `removed` counts them. */
  method RemoveVanished<K, V>(grown: map<K, V>, known: set<K>, present: set<K>)
    returns (synced: map<K, V>, removed: nat)
    requires known <= grown.Keys
    ensures synced.Keys == grown.Keys - (known - present)
    ensures forall k :: k in synced ==> synced[k] == grown[k]
    ensures removed == |known - present|
  {
    synced := grown;
    removed := 0;
    var pending := known;
    while pending != {}
      invariant pending <= known
      invariant forall k :: k in synced <==> k in grown && (k in present || k !in known || k in pending)
      invariant forall k :: k in synced ==> synced[k] == grown[k]
      invariant |synced| + removed == |grown|
      decreases pending
    {
      var k :| k in pending;
      if k !in present {
        synced := synced - {k};
        removed := removed + 1;
      }
      pending := pending - {k};
    }
    ShrunkCount(grown.Keys, synced.Keys, known - present, removed);
  }

  /** A key set that shrank by `removed` keys, exactly the vanished ones,
      shrank by the number of vanished keys. */
  lemma ShrunkCount<K>(grown: set<K>, synced: set<K>, vanished: set<K>, removed: nat)
    requires vanished <= grown
    requires forall k :: k in synced <==> k in grown && k !in vanished
    requires |synced| + removed == |grown|
    ensures synced == grown - vanished
    ensures removed == |vanished|
  {
    assert grown == synced + vanished;
    DisjointCount(synced, vanished);
  }

  /** The sizes of disjoint sets add up. */
  lemma DisjointCount<K>(a: set<K>, b: set<K>)
    requires a !! b
    ensures |a + b| == |a| + |b|
  {
  }

  /** Both loops in source order: add against the table as read, then
      remove among the keys read before adding. */
  method Reconcile<K, V>(table: map<K, V>, present: set<K>, create: K -> V)
    returns (synced: map<K, V>, added: nat, removed: nat)
    ensures synced == Reconciled(table, present, create)
    ensures added == |synced.Keys - table.Keys|
    ensures removed == |table.Keys - synced.Keys|
  {
    var grown;
    grown, added := AddMissing(table, present, create);
    synced, removed := RemoveVanished(grown, table.Keys, present);
    ReconciledShape(table, present, create);
    SameRows(synced, Reconciled(table, present, create));
  }

  /** Tables with the same keys and the same row under each key are equal. */
  lemma SameRows<K, V>(a: map<K, V>, b: map<K, V>)
    requires a.Keys == b.Keys
    requires forall k :: k in a ==> a[k] == b[k]
    ensures a == b
  {
  }

  /** Reconciling a reconciled table against the same keys changes nothing,
      whatever rows `create` would make this time. */
  lemma ReconcileIdempotent<K, V>(table: map<K, V>, present: set<K>, create: K -> V, again: K -> V)
    ensures var once := Reconciled(table, present, create);
      && Reconciled(once, present, again) == once
      && present - once.Keys == {}
      && once.Keys - present == {}
  {
    var once := Reconciled(table, present, create);
    ReconciledShape(table, present, create);
    ReconciledShape(once, present, again);
  }
}
