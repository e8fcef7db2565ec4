/** The Cache interface: a map from keys to reference-counted entries. Insert
    and Lookup hand out handles, each released exactly once; Erase takes a
    key out of the map while its entry lives on for the handles that still
    point at it; an entry whose last reference goes away is passed to its
    deleter. NewId hands out fresh numeric ids, and the default Prune does
    nothing.

    A handle is an entry: Insert and Lookup return the entry's number and
    raise its reference count, Release lowers it. No cache implementation is
    part of this model, so the class below is the reference reading of the
    interface comments: it never evicts. */
module Caches {
  import opened Slices
  import opened Options

  type Key = seq<byte>

  /** An entry: its key, its value, its charge against the capacity, and
      the number of handles to it that are not yet released. */
  datatype Entry<V> = Entry(key: Key, value: V, charge: nat, refs: nat)

  /** Some key of a non-empty map. */
  ghost function Pick(m: map<Key, nat>): (k: Key)
    requires m != map[]
    ensures k in m
  {
    var k :| k in m; k
  }

  /** The sum of the charges in a map. */
  ghost function Sum(m: map<Key, nat>): nat
    decreases m.Keys
  {
    if m == map[] then 0 else m[Pick(m)] + Sum(m - {Pick(m)})
  }

  /** Any key can be taken out of the sum first. */
  lemma {:induction false} SumRemove(m: map<Key, nat>, y: Key)
    requires y in m
    ensures Sum(m) == m[y] + Sum(m - {y})
    decreases m.Keys
  {
    var x := Pick(m);
    if x != y {
      SumRemove(m - {x}, y);
      SumRemove(m - {y}, x);
      assert m - {x} - {y} == m - {y} - {x};
    }
  }

  /** Storing under a key after taking it out is storing under it. */
  lemma RemoveThenStore<K, W>(m: map<K, W>, k: K, w: W)
    ensures (m - {k})[k := w] == m[k := w]
  {
  }

  /** The state of a cache: the live entries by entry number, the stored keys
      with their entry numbers, the combined charge of the stored entries,
      the next entry number, the last id handed out, and the deleter calls
      made so far (each entry's key and value, in order). The ghost parts are
      what the cache presents: its key-to-value map, each stored key's
      charge, the handles handed out and not yet released (with
      multiplicity) and the ids handed out. */
  datatype State<V> = State(
    entries: map<nat, Entry<V>>, table: map<Key, nat>, usage: nat, nextEntry: nat,
    lastId: nat, deleted: seq<(Key, V)>,
    ghost contents: map<Key, V>, ghost charges: map<Key, nat>,
    ghost outstanding: multiset<nat>, ghost issuedIds: set<nat>)

  /** The presented map and the charges hold only stored keys (Linked says
      the converse). */
  ghost predicate KeysAgree<V>(s: State<V>) {
    && (forall k :: k in s.contents ==> k in s.table)
    && (forall k :: k in s.charges ==> k in s.table)
  }

  /** A stored key leads to a live entry that carries the key, the value the
      cache presents for it and its charge. */
  ghost predicate Linked<V>(s: State<V>) {
    forall k :: k in s.table ==>
      && k in s.contents && k in s.charges
      && s.table[k] in s.entries && s.entries[s.table[k]].key == k
      && s.entries[s.table[k]].value == s.contents[k] && s.entries[s.table[k]].charge == s.charges[k]
  }

  /** Entry numbers are below the next one, and an entry's reference count is
      the number of its outstanding handles. */
  ghost predicate Counted<V>(s: State<V>) {
    forall id :: id in s.entries ==> id < s.nextEntry && s.entries[id].refs == s.outstanding[id]
  }

  /** No entry is leaked: one that no handle refers to is still stored. */
  ghost predicate NoLeak<V>(s: State<V>) {
    forall id :: id in s.entries && s.entries[id].refs == 0 ==>
      s.entries[id].key in s.table && s.table[s.entries[id].key] == id
  }

  /** Every outstanding handle refers to a live entry. */
  ghost predicate HandlesLive<V>(s: State<V>) {
    forall id :: id in s.outstanding ==> id in s.entries
  }

  /** Every id handed out is at most the last one. */
  ghost predicate IdsIssued<V>(s: State<V>) {
    forall i :: i in s.issuedIds ==> i <= s.lastId
  }

  /** The combined charge is the sum of the stored charges. */
  ghost predicate UsageIsSum<V>(s: State<V>) {
    s.usage == Sum(s.charges)
  }

  ghost predicate Inv<V>(s: State<V>) {
    && KeysAgree(s) && Linked(s) && Counted(s) && NoLeak(s) && HandlesLive(s) && IdsIssued(s)
    && UsageIsSum(s)
  }

  /** Erase of a stored key: the key leaves the table, and its entry is
      passed to the deleter at once when no handle refers to it. */
  function Unlinked<V>(s: State<V>, k: Key): State<V>
    requires Inv(s) && k in s.table
  {
    var id := s.table[k];
    var e := s.entries[id];
    SumRemove(s.charges, k);
    s.(entries := if e.refs == 0 then s.entries - {id} else s.entries,
       table := s.table - {k}, usage := s.usage - e.charge,
       deleted := s.deleted + if e.refs == 0 then [(k, e.value)] else [],
       contents := s.contents - {k}, charges := s.charges - {k})
  }

  /** Insert of a key the table does not hold: a new entry, stored and with
      one handle, the one returned. */
  function Added<V>(s: State<V>, k: Key, value: V, charge: nat): State<V>
  {
    var h := s.nextEntry;
    s.(entries := s.entries[h := Entry(k, value, charge, 1)], table := s.table[k := h],
       usage := s.usage + charge, nextEntry := h + 1,
       contents := s.contents[k := value], charges := s.charges[k := charge],
       outstanding := s.outstanding + multiset{h})
  }

  /** A successful Lookup: one more handle to the entry. */
  function Referenced<V>(s: State<V>, id: nat): State<V>
    requires id in s.entries
  {
    s.(entries := s.entries[id := s.entries[id].(refs := s.entries[id].refs + 1)],
       outstanding := s.outstanding + multiset{id})
  }

  /** Release of a handle: the entry loses a reference, and is passed to the
      deleter when that was its last one and it is no longer stored. */
  function Released<V>(s: State<V>, h: nat): State<V>
    requires Inv(s) && h in s.outstanding
  {
    var e := s.entries[h];
    var last := e.refs == 1 && !(e.key in s.table && s.table[e.key] == h);
    s.(entries := if last then s.entries - {h} else s.entries[h := e.(refs := e.refs - 1)],
       deleted := if last then s.deleted + [(e.key, e.value)] else s.deleted,
       outstanding := s.outstanding - multiset{h})
  }

  // Each transition keeps each part of the invariant.

  lemma UnlinkedKeepsLinks<V>(s: State<V>, k: Key)
    requires Inv(s) && k in s.table
    ensures Linked(Unlinked(s, k))
  {
    var id := s.table[k];
    // No other key is stored under id, since the entry's key is k.
    assert forall k' :: k' in s.table && k' != k ==> s.table[k'] != id;
  }

  lemma UnlinkedKeepsHandles<V>(s: State<V>, k: Key)
    requires Inv(s) && k in s.table
    ensures NoLeak(Unlinked(s, k)) && HandlesLive(Unlinked(s, k))
  {
    assert s.entries[s.table[k]].refs == s.outstanding[s.table[k]];
  }

  lemma UnlinkedKeeps<V>(s: State<V>, k: Key)
    requires Inv(s) && k in s.table
    ensures Inv(Unlinked(s, k))
  {
    UnlinkedKeepsLinks(s, k);
    UnlinkedKeepsHandles(s, k);
    SumRemove(s.charges, k);
  }

  lemma AddedKeepsLinks<V>(s: State<V>, k: Key, value: V, charge: nat)
    requires Linked(s) && Counted(s) && k !in s.table
    ensures Linked(Added(s, k, value, charge))
  {
  }

  lemma AddedKeepsCounts<V>(s: State<V>, k: Key, value: V, charge: nat)
    requires Counted(s) && HandlesLive(s)
    ensures Counted(Added(s, k, value, charge))
  {
    assert s.outstanding[s.nextEntry] == 0;
  }

  lemma AddedKeepsHandles<V>(s: State<V>, k: Key, value: V, charge: nat)
    requires Counted(s) && NoLeak(s) && HandlesLive(s) && k !in s.table
    ensures NoLeak(Added(s, k, value, charge)) && HandlesLive(Added(s, k, value, charge))
  {
  }

  lemma AddedKeepsSum<V>(s: State<V>, k: Key, value: V, charge: nat)
    requires UsageIsSum(s) && k !in s.charges
    ensures UsageIsSum(Added(s, k, value, charge))
  {
    SumRemove(s.charges[k := charge], k);
    assert s.charges[k := charge] - {k} == s.charges;
  }

  lemma AddedKeeps<V>(s: State<V>, k: Key, value: V, charge: nat)
    requires Inv(s) && k !in s.table
    ensures Inv(Added(s, k, value, charge))
  {
    AddedKeepsLinks(s, k, value, charge);
    AddedKeepsCounts(s, k, value, charge);
    AddedKeepsHandles(s, k, value, charge);
    AddedKeepsSum(s, k, value, charge);
  }

  /** Insert of any key: an entry stored under it before is erased first. */
  function Inserted<V>(s: State<V>, k: Key, value: V, charge: nat): State<V>
    requires Inv(s)
  {
    Added(if k in s.table then Unlinked(s, k) else s, k, value, charge)
  }

  lemma InsertedKeeps<V>(s: State<V>, k: Key, value: V, charge: nat)
    requires Inv(s)
    ensures Inv(Inserted(s, k, value, charge))
  {
    if k in s.table {
      UnlinkedKeeps(s, k);
      AddedKeeps(Unlinked(s, k), k, value, charge);
    } else {
      AddedKeeps(s, k, value, charge);
    }
  }

  lemma InsertedContents<V>(s: State<V>, k: Key, value: V, charge: nat)
    requires Inv(s)
    ensures var t := Inserted(s, k, value, charge);
      && t.contents == s.contents[k := value] && t.charges == s.charges[k := charge]
      && t.table == s.table[k := s.nextEntry] && t.issuedIds == s.issuedIds
      && t.deleted == s.deleted + (if k in s.table && s.entries[s.table[k]].refs == 0
                                   then [(k, s.contents[k])] else [])
  {
    if k in s.table {
      RemoveThenStore(s.contents, k, value);
      RemoveThenStore(s.charges, k, charge);
      RemoveThenStore(s.table, k, s.nextEntry);
    }
  }

  lemma InsertedHandles<V>(s: State<V>, k: Key, value: V, charge: nat)
    requires Inv(s)
    ensures var t := Inserted(s, k, value, charge);
      && s.nextEntry !in s.outstanding && t.outstanding == s.outstanding + multiset{s.nextEntry}
      && s.nextEntry in t.entries && t.entries[s.nextEntry].value == value
  {
    assert s.nextEntry !in s.entries;
  }

  lemma InsertedKeepsValues<V>(s: State<V>, k: Key, value: V, charge: nat)
    requires Inv(s)
    ensures var t := Inserted(s, k, value, charge);
      forall h :: h in s.outstanding ==>
        h in t.entries && t.entries[h].key == s.entries[h].key && t.entries[h].value == s.entries[h].value
  {
    if k in s.table {
      UnlinkedKeeps(s, k);
    }
  }

  lemma ReferencedKeeps<V>(s: State<V>, id: nat)
    requires Inv(s) && id in s.entries
    ensures Inv(Referenced(s, id))
  {
  }

  lemma ReleasedKeepsLinks<V>(s: State<V>, h: nat)
    requires Inv(s) && h in s.outstanding
    ensures Linked(Released(s, h)) && NoLeak(Released(s, h))
  {
  }

  lemma ReleasedKeepsCounts<V>(s: State<V>, h: nat)
    requires Inv(s) && h in s.outstanding
    ensures Counted(Released(s, h)) && HandlesLive(Released(s, h))
  {
  }

  lemma ReleasedKeeps<V>(s: State<V>, h: nat)
    requires Inv(s) && h in s.outstanding
    ensures Inv(Released(s, h))
  {
    ReleasedKeepsLinks(s, h);
    ReleasedKeepsCounts(s, h);
  }

  class Cache<V> {
    var st: State<V>

    ghost predicate Valid()
      reads this
    {
      Inv(st)
    }

    constructor ()
      ensures Valid() && st.contents == map[] && st.outstanding == multiset{} && st.deleted == []
      ensures st.issuedIds == {}
    {
      st := State(map[], map[], 0, 0, 0, [], map[], map[], multiset{}, {});
    }

    /** The value of the entry a handle refers to: while the entry is still
        stored, the value stored under its key. */
    function Value(h: nat): (v: V)
      reads this
      requires Valid() && h in st.outstanding
      ensures h in st.entries
      ensures var k := st.entries[h].key;
        k in st.table && st.table[k] == h ==> k in st.contents && v == st.contents[k]
    {
      st.entries[h].value
    }

    /** The combined charge of the stored entries. */
    function TotalCharge(): (n: nat)
      reads this
      requires Valid()
      ensures n == Sum(st.charges)
    {
      st.usage
    }

    /** Takes the entry stored under key, if any, out of the cache. An entry
        no handle refers to is passed to its deleter at once; one that
        handles still refer to lives on, with its value, until they are
        released. */
    method Erase(key: Slice)
      requires Valid() && key.Valid()
      modifies this
      ensures Valid()
      ensures st.contents == old(st.contents) - {key.View()} && st.charges == old(st.charges) - {key.View()}
      ensures st.outstanding == old(st.outstanding) && st.issuedIds == old(st.issuedIds)
      ensures st.table == old(st.table) - {key.View()}
      ensures forall h :: h in st.outstanding ==> Value(h) == old(Value(h))
      ensures forall h :: h in st.outstanding ==> st.entries[h].key == old(st.entries[h].key)
      ensures var k := key.View();
        st.deleted == old(st.deleted) + (if k in old(st.table) && old(st.entries[st.table[k]].refs) == 0
                                         then [(k, old(st.contents[k]))] else [])
    {
      var k := key.ToString();
      if k in st.table {
        UnlinkedKeeps(st, k);
        st := Unlinked(st, k);
      }
    }

    /** Stores value under key with the given charge, erasing any entry
        stored there before, and returns a handle to the new entry. */
    method Insert(key: Slice, value: V, charge: nat) returns (h: nat)
      requires Valid() && key.Valid()
      modifies this
      ensures Valid()
      ensures st.contents == old(st.contents)[key.View() := value]
      ensures st.charges == old(st.charges)[key.View() := charge]
      ensures h !in old(st.outstanding) && st.outstanding == old(st.outstanding) + multiset{h}
      ensures Value(h) == value && st.entries[h].key == key.View()
      ensures st.table == old(st.table)[key.View() := h]
      ensures forall h' :: h' in old(st.outstanding) ==> Value(h') == old(Value(h'))
      ensures forall h' :: h' in old(st.outstanding) ==> st.entries[h'].key == old(st.entries[h'].key)
      ensures st.issuedIds == old(st.issuedIds)
      ensures var k := key.View();
        st.deleted == old(st.deleted) + (if k in old(st.table) && old(st.entries[st.table[k]].refs) == 0
                                         then [(k, old(st.contents[k]))] else [])
    {
      var k := key.ToString();
      InsertedKeeps(st, k, value, charge);
      InsertedContents(st, k, value, charge);
      InsertedHandles(st, k, value, charge);
      InsertedKeepsValues(st, k, value, charge);
      h := st.nextEntry;
      st := Inserted(st, k, value, charge);
    }

    /** A handle to the entry stored under key, or None when the cache holds
        no entry for key. */
    method Lookup(key: Slice) returns (h: Option<nat>)
      requires Valid() && key.Valid()
      modifies this
      ensures Valid()
      ensures st.contents == old(st.contents) && st.charges == old(st.charges)
      ensures h.None? <==> key.View() !in st.contents
      ensures h.Some? ==> st.outstanding == old(st.outstanding) + multiset{h.value}
                          && Value(h.value) == st.contents[key.View()]
      ensures h.None? ==> st.outstanding == old(st.outstanding)
      ensures h.Some? ==> key.View() in st.table && st.table[key.View()] == h.value
      ensures st.table == old(st.table)
      ensures forall h' :: h' in old(st.outstanding) ==> Value(h') == old(Value(h'))
      ensures forall h' :: h' in old(st.outstanding) ==> st.entries[h'].key == old(st.entries[h'].key)
      ensures st.deleted == old(st.deleted) && st.issuedIds == old(st.issuedIds)
    {
      var k := key.ToString();
      if k !in st.table {
        return None;
      }
      var id := st.table[k];
      ReferencedKeeps(st, id);
      st := Referenced(st, id);
      h := Some(id);
    }

    /** Gives back a handle that is not yet released. Releasing it once more
        than it was handed out violates the precondition. An entry that is
        no longer stored and that no handle refers to any more is passed to
        its deleter. */
    method Release(h: nat)
      requires Valid() && h in st.outstanding
      modifies this
      ensures Valid()
      ensures st.outstanding == old(st.outstanding) - multiset{h}
      ensures st.contents == old(st.contents) && st.charges == old(st.charges)
      ensures st.table == old(st.table)
      ensures forall h' :: h' in st.outstanding ==> Value(h') == old(Value(h'))
      ensures forall h' :: h' in st.outstanding ==> st.entries[h'].key == old(st.entries[h'].key)
      ensures st.issuedIds == old(st.issuedIds)
      ensures var e := old(st.entries[h]);
        st.deleted == old(st.deleted) + (if (e.key in old(st.table) && old(st.table[e.key]) == h) || h in st.outstanding
                                         then [] else [(e.key, e.value)])
    {
      ReleasedKeeps(st, h);
      st := Released(st, h);
    }

    /** A numeric id this cache has not returned before. */
    method NewId() returns (id: nat)
      requires Valid()
      modifies this
      ensures Valid()
      ensures id !in old(st.issuedIds) && st.issuedIds == old(st.issuedIds) + {id}
      ensures st.entries == old(st.entries) && st.table == old(st.table)
      ensures st.outstanding == old(st.outstanding) && st.deleted == old(st.deleted)
    {
      id := st.lastId + 1;
      st := st.(lastId := id, issuedIds := st.issuedIds + {id});
    }

    /** The default Prune: it does nothing. */
    method Prune()
      requires Valid()
      ensures Valid() && st.contents == old(st.contents) && st.outstanding == old(st.outstanding)
    {
    }
  }
  /** An erased entry that a handle still refers to reaches the deleter only
      when that handle is released: Insert, Erase, then Release. */
  method EraseDefersDeleter(key: Slice) returns (afterErase: seq<(Key, int)>, afterRelease: seq<(Key, int)>)
    requires key.Valid()
    ensures afterErase == []
    ensures afterRelease == [(key.View(), 7)]
  {
    var cache := new Cache<int>();
    var k := key.View();
    var h := cache.Insert(key, 7, 3);
    assert cache.st.outstanding == multiset{h};
    assert Counted(cache.st);
    assert cache.st.entries[h].refs == 1;
    cache.Erase(key);
    afterErase := cache.st.deleted;
    assert k !in cache.st.table && cache.st.entries[h].key == k && cache.Value(h) == 7;
    cache.Release(h);
    assert cache.st.outstanding == multiset{};
    afterRelease := cache.st.deleted;
  }
}
