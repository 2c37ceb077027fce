/** The direct-mapped cache from page numbers to size classes. An entry packs a value and as much of the key as its
    position, the low bits of the key, does not already determine. Shifts and masks are written as multiplication,
    division and remainder by powers of two. */
module PackedCaches {
  import opened Common

  /** 64-bit entries hold whole keys; 16-bit entries hold the upper three bits of 19-bit keys. */
  datatype Layout = WholeKeys | UpperBits

  const SIZE: nat := 65536       // 16 hash bits
  const VALUES: nat := 128       // 7 value bits
  const UPPERS: nat := 8         // 3 key bits above the hash in the narrow layout

  /** Keys are below this: 35 or 19 bits. */
  function KeyLimit(m: Layout): nat { if m == WholeKeys then 0x8_0000_0000 else 0x8_0000 }

  function Hash(key: nat): (i: nat)
    ensures i < SIZE
  {
    key % SIZE
  }

  /** The part of the key an entry stores, shifted above the value. */
  function KeyToUpper(m: Layout, key: nat): nat {
    if m == WholeKeys then key * VALUES else key / 512 / VALUES % UPPERS * VALUES
  }

  /** Does the entry match the relevant part of the key? */
  predicate KeyMatch(m: Layout, entry: nat, key: nat) {
    if m == WholeKeys then entry / VALUES == key
    else entry / VALUES % UPPERS == KeyToUpper(m, key) / VALUES % UPPERS
  }

  function EntryToValue(entry: nat): nat { entry % VALUES }

  function Pack(m: Layout, key: nat, value: nat): nat { KeyToUpper(m, key) + value }

  /** In either layout, among keys with the same position a packed entry matches exactly the key it was made for, and
      it gives its value back. */
  lemma PackedEntry(m: Layout, key: nat, other: nat, value: nat)
    requires key < KeyLimit(m) && other < KeyLimit(m) && value < VALUES && Hash(key) == Hash(other)
    ensures KeyMatch(m, Pack(m, key, value), other) <==> key == other
    ensures EntryToValue(Pack(m, key, value)) == value
  {
    if m == UpperBits {
      assert key / 512 / VALUES == key / SIZE < UPPERS && other / 512 / VALUES == other / SIZE < UPPERS;
      assert Pack(m, key, value) / VALUES == key / SIZE;
    }
  }

  // ----- the table

  type Table = a: seq<nat> | |a| == SIZE witness seq(SIZE, _ => 0)

  /** What the table says about a key. */
  function Lookup(m: Layout, a: Table, key: nat): Option<nat> {
    var entry := a[Hash(key)];
    if KeyMatch(m, entry, key) then Some(EntryToValue(entry)) else None
  }

  function Written(m: Layout, a: Table, key: nat, value: nat): Table {
    a[Hash(key) := Pack(m, key, value)]
  }

  /** A write is seen by a later read of the same key; for any other key it changes nothing, unless it evicts it. */
  lemma WriteThenRead(m: Layout, a: Table, key: nat, value: nat, other: nat)
    requires key < KeyLimit(m) && other < KeyLimit(m) && value < VALUES
    ensures Lookup(m, Written(m, a, key, value), key) == Some(value)
    ensures other != key ==>
              Lookup(m, Written(m, a, key, value), other)
              == if Hash(other) == Hash(key) then None else Lookup(m, a, other)
  {
    PackedEntry(m, key, key, value);
    if Hash(other) == Hash(key) {
      PackedEntry(m, key, other, value);
    }
  }

  /** Every entry holds the value for the key that is its own position. */
  ghost predicate Cleared(m: Layout, a: Table, value: nat) {
    forall i :: 0 <= i < SIZE ==> a[i] == Pack(m, i, value)
  }

  /** A cleared table holds the given value for the keys below the number of entries and nothing else. */
  lemma ClearedHolds(m: Layout, a: Table, value: nat, key: nat)
    requires Cleared(m, a, value) && value < VALUES && key < KeyLimit(m)
    ensures Lookup(m, a, key) == if key < SIZE then Some(value) else None
  {
    PackedEntry(m, Hash(key), key, value);
  }

  class PackedCache {
    const layout: Layout
    const entries: array<nat>

    ghost predicate Valid() {
      entries.Length == SIZE
    }

    constructor (layout: Layout, initialValue: nat)
      requires initialValue < VALUES
      ensures Valid() && fresh(entries) && this.layout == layout && Cleared(layout, entries[..], initialValue)
    {
      this.layout := layout;
      entries := new nat[SIZE](_ => 0);
      new;
      Clear(initialValue);
    }

    method Put(key: nat, value: nat)
      requires Valid() && key < KeyLimit(layout) && value < VALUES
      modifies entries
      ensures entries[..] == Written(layout, old(entries[..]), key, value)
      ensures Lookup(layout, entries[..], key) == Some(value)
    {
      WriteThenRead(layout, entries[..], key, value, key);
      entries[Hash(key)] := KeyToUpper(layout, key) + value;
    }

    method Has(key: nat) returns (r: bool)
      requires Valid() && key < KeyLimit(layout)
      ensures r <==> Lookup(layout, entries[..], key).Some?
    {
      r := KeyMatch(layout, entries[Hash(key)], key);
    }

    method GetOrDefault(key: nat, default: nat) returns (v: nat)
      requires Valid() && key < KeyLimit(layout)
      ensures v == match Lookup(layout, entries[..], key) case Some(x) => x case None => default
    {
      var entry := entries[Hash(key)];
      v := if KeyMatch(layout, entry, key) then EntryToValue(entry) else default;
    }

    method Clear(value: nat)
      requires Valid() && value < VALUES
      modifies entries
      ensures Cleared(layout, entries[..], value)
    {
      var i := 0;
      while i < SIZE
        invariant 0 <= i <= SIZE
        invariant forall j :: 0 <= j < i ==> entries[j] == Pack(layout, j, value)
      {
        entries[i] := if layout == WholeKeys then value + KeyToUpper(layout, i) else value;
        i := i + 1;
      }
    }
  }
}
