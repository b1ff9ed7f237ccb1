/** The search result cache (pkg/cache/lru.go). */
module LruCache {
  import opened Collections
  import opened Common

  datatype Entry = Entry(value: string, indexes: seq<string>)

  /** The fields of the cache; order has the least recently used key first. */
  datatype Cached = Cached(capacity: nat, data: map<string, Entry>, order: seq<string>,
                           indexKeys: map<string, set<string>>,
                           hits: nat, misses: nat)

  const DEFAULT_CAPACITY: nat := 1000

  function New(capacity: int): Cached {
    Cached(if capacity <= 0 then DEFAULT_CAPACITY else capacity, map[], [], map[], 0, 0)
  }

  // ------------------------------------------------------------------
  // The operations
  // ------------------------------------------------------------------

  function RemoveFrom(order: seq<string>, key: string): seq<string> {
    if order == [] then [] else if order[0] == key then order[1..] else [order[0]] + RemoveFrom(order[1..], key)
  }

  function KeysUnder(m: map<string, set<string>>, index: string): set<string> { if index in m then m[index] else {} }

  function AddTags(m: map<string, set<string>>, indexes: seq<string>, key: string): map<string, set<string>> {
    map i | i in m.Keys + (set x | x in indexes) :: if i in indexes then KeysUnder(m, i) + {key} else m[i]
  }

  function DropTags(m: map<string, set<string>>, indexes: seq<string>, key: string): map<string, set<string>> {
    map i | i in m && (i in indexes ==> m[i] - {key} != {}) :: if i in indexes then m[i] - {key} else m[i]
  }

  function Evict(c: Cached): Cached {
    if c.order == [] then c
    else
      var oldest := c.order[0];
      if oldest in c.data then
        c.(order := c.order[1..], data := c.data - {oldest},
           indexKeys := DropTags(c.indexKeys, c.data[oldest].indexes, oldest))
      else c.(order := c.order[1..])
  }

  function Get(c: Cached, key: string): Cached {
    if key in c.data then c.(hits := c.hits + 1, order := RemoveFrom(c.order, key) + [key])
    else c.(misses := c.misses + 1)
  }

  function Set(c: Cached, key: string, e: Entry): Cached {
    var room := if |c.data| >= c.capacity && key !in c.data then Evict(c) else c;
    room.(data := room.data[key := e], order := RemoveFrom(room.order, key) + [key],
          indexKeys := AddTags(room.indexKeys, e.indexes, key))
  }

  function InvalidateIndex(c: Cached, index: string): Cached {
    if index !in c.indexKeys then c
    else
      var keys := c.indexKeys[index];
      c.(data := c.data - keys, order := RemoveAll(c.order, keys), indexKeys := c.indexKeys - {index})
  }

  function RemoveAll(order: seq<string>, keys: set<string>): seq<string> {
    if order == [] then [] else (if order[0] in keys then [] else [order[0]]) + RemoveAll(order[1..], keys)
  }

  function InvalidateAll(c: Cached): Cached { c.(data := map[], order := [], indexKeys := map[]) }

  // ------------------------------------------------------------------
  // What every operation keeps
  // ------------------------------------------------------------------

  /** The order lists the stored keys, each once; the capacity is kept; every entry is listed under each of its indices,
      though an index may list keys that are gone. */
  ghost predicate Valid(c: Cached) {
    && Listing(c.order, c.data.Keys)
    && |c.data| <= c.capacity && c.capacity > 0
    && forall k, i :: k in c.data && i in c.data[k].indexes ==> k in KeysUnder(c.indexKeys, i)
  }

  lemma {:induction false} ConsDistinct(x: string, order: seq<string>)
    requires NoRepeats(order) && x !in order
    ensures NoRepeats([x] + order) && forall k :: k in [x] + order <==> k == x || k in order
  {
  }

  lemma {:induction false} RemoveFromMembers(order: seq<string>, key: string)
    requires NoRepeats(order)
    ensures NoRepeats(RemoveFrom(order, key)) && forall k :: k in RemoveFrom(order, key) <==> k in order && k != key
  {
    if order != [] {
      RemoveFromMembers(order[1..], key);
      assert order == [order[0]] + order[1..];
      if order[0] != key {
        ConsDistinct(order[0], RemoveFrom(order[1..], key));
      }
    }
  }

  lemma {:induction false} RemoveAllMembers(order: seq<string>, keys: set<string>)
    requires NoRepeats(order)
    ensures NoRepeats(RemoveAll(order, keys)) && forall k :: k in RemoveAll(order, keys) <==> k in order && k !in keys
  {
    if order != [] {
      RemoveAllMembers(order[1..], keys);
      assert order == [order[0]] + order[1..];
      if order[0] !in keys {
        ConsDistinct(order[0], RemoveAll(order[1..], keys));
      }
    }
  }

  lemma {:induction false} AppendDistinct(order: seq<string>, key: string)
    requires NoRepeats(order) && key !in order
    ensures NoRepeats(order + [key]) && forall k :: k in order + [key] <==> k in order || k == key
  {
  }

  lemma {:induction false} GetKeepsValid(c: Cached, key: string)
    requires Valid(c)
    ensures Valid(Get(c, key))
  {
    hide Get, RemoveFrom, NoRepeats, KeysUnder;
    GetShape(c, key);
    if key in c.data {
      RemoveFromMembers(c.order, key);
      AppendDistinct(RemoveFrom(c.order, key), key);
    }
  }

  lemma {:induction false} GetShape(c: Cached, key: string)
    ensures var c' := Get(c, key);
      && c'.data == c.data && c'.capacity == c.capacity && c'.indexKeys == c.indexKeys
      && c'.order == if key in c.data then RemoveFrom(c.order, key) + [key] else c.order
  {
  }

  lemma {:induction false} EvictKeepsValid(c: Cached)
    requires Valid(c)
    ensures Valid(Evict(c)) && (c.data != map[] ==> |Evict(c).data| == |c.data| - 1)
  {
    hide Evict, KeysUnder, NoRepeats;
    EmptyOrMember(c.order);
    EvictShape(c);
    if c.order == [] {
      assert c.data.Keys == {};
    } else {
      OneLess(c.data, c.order[0]);
      TailMembers(c.order);
      TagsAfterEviction(c);
    }
  }

  lemma {:induction false} EvictShape(c: Cached)
    ensures c.order == [] ==> Evict(c) == c
    ensures c.order != [] && c.order[0] in c.data ==>
      var c' := Evict(c);
      c'.order == c.order[1..] && c'.data == c.data - {c.order[0]} && c'.capacity == c.capacity
  {
  }

  lemma {:induction false} TailMembers(order: seq<string>)
    requires NoRepeats(order) && order != []
    ensures NoRepeats(order[1..]) && forall k :: k in order[1..] <==> k in order && k != order[0]
  {
    assert order == [order[0]] + order[1..];
  }

  lemma {:induction false} OneLess(data: map<string, Entry>, key: string)
    requires key in data
    ensures |data - {key}| == |data| - 1
  {
    assert (data - {key}).Keys == data.Keys - {key};
  }

  lemma {:induction false} TagsAfterEviction(c: Cached)
    requires c.order != [] && c.order[0] in c.data
    requires forall k, i :: k in c.data && i in c.data[k].indexes ==> k in KeysUnder(c.indexKeys, i)
    ensures var c' := Evict(c);
      forall k, i :: k in c'.data && i in c'.data[k].indexes ==> k in KeysUnder(c'.indexKeys, i)
  {
    var c' := Evict(c);
    forall k, i | k in c'.data && i in c'.data[k].indexes ensures k in KeysUnder(c'.indexKeys, i) {
      assert k in KeysUnder(c.indexKeys, i) && k != c.order[0];
    }
  }

  lemma {:induction false} StoreKeepsValid(c: Cached, key: string, e: Entry)
    requires Valid(c) && (key in c.data || |c.data| < c.capacity)
    ensures Valid(c.(data := c.data[key := e], order := RemoveFrom(c.order, key) + [key],
                     indexKeys := AddTags(c.indexKeys, e.indexes, key)))
  {
    RemoveFromMembers(c.order, key);
    AppendDistinct(RemoveFrom(c.order, key), key);
    OneMore(c.data, key, e);
    TagsAfterStore(c, key, e);
    hide RemoveFrom, NoRepeats, KeysUnder, AddTags;
  }

  lemma {:induction false} OneMore(data: map<string, Entry>, key: string, e: Entry)
    ensures |data[key := e]| == if key in data then |data| else |data| + 1
  {
    assert data[key := e].Keys == data.Keys + {key};
    if key in data {
      assert data[key := e].Keys == data.Keys;
    }
  }

  lemma {:induction false} TagsAfterStore(c: Cached, key: string, e: Entry)
    requires forall k, i :: k in c.data && i in c.data[k].indexes ==> k in KeysUnder(c.indexKeys, i)
    ensures var data, m := c.data[key := e], AddTags(c.indexKeys, e.indexes, key);
      forall k, i :: k in data && i in data[k].indexes ==> k in KeysUnder(m, i)
  {
    var data, m := c.data[key := e], AddTags(c.indexKeys, e.indexes, key);
    forall k, i | k in data && i in data[k].indexes ensures k in KeysUnder(m, i) {
      if k != key {
        assert k in KeysUnder(c.indexKeys, i);
      }
    }
  }

  lemma {:induction false} SetKeepsValid(c: Cached, key: string, e: Entry)
    requires Valid(c)
    ensures Valid(Set(c, key, e))
  {
    hide Evict, AddTags, Valid;
    if |c.data| >= c.capacity && key !in c.data {
      EvictKeepsValid(c);
      FullHasRoom(c);
      StoreKeepsValid(Evict(c), key, e);
    } else {
      StoreKeepsValid(c, key, e);
    }
  }

  lemma {:induction false} FullHasRoom(c: Cached)
    requires Valid(c) && |c.data| >= c.capacity && Valid(Evict(c))
    ensures |Evict(c).data| < Evict(c).capacity
  {
    EvictKeepsValid(c);
  }

  lemma {:induction false} InvalidateKeepsValid(c: Cached, index: string)
    requires Valid(c)
    ensures Valid(InvalidateIndex(c, index))
  {
    if index in c.indexKeys {
      var keys := c.indexKeys[index];
      RemoveAllMembers(c.order, keys);
      hide RemoveAll, NoRepeats;
      WithoutSmaller(c.data, keys);
      TagsWithout(c, index);
    }
  }

  lemma {:induction false} WithoutSmaller(data: map<string, Entry>, keys: set<string>)
    ensures |data - keys| <= |data|
  {
    assert (data - keys).Keys <= data.Keys;
    SubsetSize((data - keys).Keys, data.Keys);
  }

  lemma {:induction false} TagsWithout(c: Cached, index: string)
    requires index in c.indexKeys
    requires forall k, i :: k in c.data && i in c.data[k].indexes ==> k in KeysUnder(c.indexKeys, i)
    ensures var keys := c.indexKeys[index];
      forall k, i :: k in c.data - keys && i in (c.data - keys)[k].indexes ==> k in KeysUnder(c.indexKeys - {index}, i)
  {
    var keys := c.indexKeys[index];
    forall k, i | k in c.data - keys && i in (c.data - keys)[k].indexes
      ensures k in KeysUnder(c.indexKeys - {index}, i)
    {
      assert k in KeysUnder(c.indexKeys, i);
    }
  }

  /** After invalidating an index no entry tagged with it is left, though other indices may still list removed keys. */
  lemma {:induction false} NoTaggedEntryLeft(c: Cached, index: string)
    requires Valid(c)
    ensures forall k :: k in InvalidateIndex(c, index).data ==> index !in InvalidateIndex(c, index).data[k].indexes
    ensures forall k :: k in InvalidateIndex(c, index).data ==>
              k in c.data && InvalidateIndex(c, index).data[k] == c.data[k]
  {
    forall k | k in c.data && index in c.data[k].indexes ensures k !in InvalidateIndex(c, index).data {
      assert k in KeysUnder(c.indexKeys, index);
    }
  }

  // ------------------------------------------------------------------
  // The abstract cache: a list of entries, least recently used first
  // ------------------------------------------------------------------

  type Recency = seq<(string, Entry)>

  predicate Has(l: Recency, key: string) { exists p :: p in l && p.0 == key }

  function Forget(l: Recency, key: string): Recency {
    if l == [] then [] else (if l[0].0 == key then [] else [l[0]]) + Forget(l[1..], key)
  }

  function Untagged(l: Recency, index: string): Recency {
    if l == [] then [] else (if index in l[0].1.indexes then [] else [l[0]]) + Untagged(l[1..], index)
  }

  /** The entries in order. */
  function Listed(order: seq<string>, data: map<string, Entry>): Recency
    requires forall k :: k in order ==> k in data
  {
    if order == [] then [] else [(order[0], data[order[0]])] + Listed(order[1..], data)
  }

  lemma {:induction false} ListedSame(order: seq<string>, a: map<string, Entry>, b: map<string, Entry>)
    requires forall k :: k in order ==> k in a && k in b && a[k] == b[k]
    ensures Listed(order, a) == Listed(order, b)
  {
    if order != [] {
      ListedSame(order[1..], a, b);
    }
  }

  lemma {:induction false} ListedSnoc(order: seq<string>, key: string, data: map<string, Entry>)
    requires key in data && forall k :: k in order ==> k in data
    ensures forall k :: k in order + [key] ==> k in data
    ensures Listed(order + [key], data) == Listed(order, data) + [(key, data[key])]
  {
    if order == [] {
      assert [] + [key] == [key] && [key][1..] == [];
    } else {
      ListedSnoc(order[1..], key, data);
      assert (order + [key])[1..] == order[1..] + [key];
    }
  }

  lemma {:induction false} ListedForget(order: seq<string>, key: string, data: map<string, Entry>)
    requires NoRepeats(order) && forall k :: k in order ==> k in data
    ensures (forall k :: k in RemoveFrom(order, key) ==> k in data)
    ensures Listed(RemoveFrom(order, key), data) == Forget(Listed(order, data), key)
  {
    RemoveFromMembers(order, key);
    if order != [] {
      var l := Listed(order, data);
      assert l[1..] == Listed(order[1..], data);
      if order[0] == key {
        ForgetAbsent(order[1..], key, data);
        assert order == [order[0]] + order[1..];
      } else {
        ListedForget(order[1..], key, data);
        assert RemoveFrom(order, key)[1..] == RemoveFrom(order[1..], key);
      }
    }
  }

  lemma {:induction false} ForgetAbsent(order: seq<string>, key: string, data: map<string, Entry>)
    requires key !in order && forall k :: k in order ==> k in data
    ensures Forget(Listed(order, data), key) == Listed(order, data)
  {
    if order != [] {
      ForgetAbsent(order[1..], key, data);
      assert Listed(order, data)[1..] == Listed(order[1..], data);
    }
  }

  lemma {:induction false} ListedUntagged(order: seq<string>, keys: set<string>, index: string,
                                          data: map<string, Entry>)
    requires NoRepeats(order) && forall k :: k in order ==> k in data && (k in keys <==> index in data[k].indexes)
    ensures (forall k :: k in RemoveAll(order, keys) ==> k in data)
    ensures Listed(RemoveAll(order, keys), data) == Untagged(Listed(order, data), index)
  {
    RemoveAllMembers(order, keys);
    if order != [] {
      ListedUntagged(order[1..], keys, index, data);
      var l, r := Listed(order, data), RemoveAll(order[1..], keys);
      assert l[1..] == Listed(order[1..], data);
      if order[0] !in keys {
        assert ([order[0]] + r)[1..] == r;
      } else {
        assert [] + r == r && [] + Untagged(l[1..], index) == Untagged(l[1..], index);
      }
    }
  }

  ghost function Abstract(c: Cached): Recency
    requires Valid(c)
  {
    Listed(c.order, c.data)
  }

  lemma {:induction false} HasListed(order: seq<string>, data: map<string, Entry>, key: string)
    requires forall k :: k in order ==> k in data
    ensures Has(Listed(order, data), key) <==> key in order
    ensures |Listed(order, data)| == |order|
    ensures key in order ==> (key, data[key]) in Listed(order, data)
  {
    if order != [] {
      HasListed(order[1..], data, key);
      var l := Listed(order, data);
      assert l == [l[0]] + l[1..] && l[1..] == Listed(order[1..], data);
      assert order == [order[0]] + order[1..];
      assert l[0] in l;
      if p :| p in l[1..] && p.0 == key {
        assert p in l;
      }
    }
  }

  /** A hit moves the entry to the end; a miss changes nothing. */
  lemma {:induction false} GetRefines(c: Cached, key: string)
    requires Valid(c)
    ensures Valid(Get(c, key))
    ensures Abstract(Get(c, key))
         == if key in c.data then Forget(Abstract(c), key) + [(key, c.data[key])] else Abstract(c)
  {
    GetKeepsValid(c, key);
    if key in c.data {
      ListedForget(c.order, key, c.data);
      ListedSnoc(RemoveFrom(c.order, key), key, c.data);
    }
  }

  /** Setting forgets the key's old entry, or when a new key finds the cache full the first entry, and appends the new
      one. */
  lemma {:induction false} SetRefines(c: Cached, key: string, e: Entry)
    requires Valid(c)
    ensures Valid(Set(c, key, e))
    ensures Abstract(Set(c, key, e))
         == (if !Has(Abstract(c), key) && |Abstract(c)| >= c.capacity then Abstract(c)[1..]
             else Forget(Abstract(c), key))
            + [(key, e)]
  {
    SetKeepsValid(c, key, e);
    HasListed(c.order, c.data, key);
    OrderLength(c);
    if |c.data| >= c.capacity && key !in c.data {
      EvictKeepsValid(c);
      AbstractEvicted(c, key);
      hide Evict, Has, Forget, Listed, RemoveFrom, AddTags;
      ListedAfterStore(Evict(c), key, e);
    } else {
      hide Evict, Has, Forget, Listed, RemoveFrom, AddTags;
      ListedAfterStore(c, key, e);
    }
  }

  lemma {:induction false} AbstractEvicted(c: Cached, key: string)
    requires Valid(c) && Valid(Evict(c)) && c.data != map[] && key !in c.data
    ensures |Abstract(c)| > 0 && Forget(Abstract(Evict(c)), key) == Abstract(c)[1..]
  {
    EmptyOrMember(c.order);
    var k :| k in c.data;
    assert k in c.order;
    assert c.order == [c.order[0]] + c.order[1..];
    ListedSame(c.order[1..], c.data, Evict(c).data);
    ForgetAbsent(c.order[1..], key, Evict(c).data);
  }

  lemma {:induction false} ListedAfterStore(c: Cached, key: string, e: Entry)
    requires Valid(c)
    ensures var order := RemoveFrom(c.order, key);
      && (forall k :: k in order + [key] ==> k in c.data[key := e])
      && Listed(order + [key], c.data[key := e]) == Forget(Abstract(c), key) + [(key, e)]
  {
    var order, data := RemoveFrom(c.order, key), c.data[key := e];
    RemoveFromMembers(c.order, key);
    ListedForget(c.order, key, c.data);
    ListedSame(order, c.data, data);
    ListedSnoc(order, key, data);
  }

  lemma {:induction false} OrderLength(c: Cached)
    requires Valid(c)
    ensures |c.order| == |c.data|
  {
    ListingSize(c.order, c.data.Keys);
  }

  /** Invalidation removes exactly the entries of the index if and only if every stored key listed under it still
      carries its tag. */
  lemma {:induction false} InvalidateExactlyWhen(c: Cached, index: string)
    requires Valid(c)
    ensures Valid(InvalidateIndex(c, index))
    ensures Abstract(InvalidateIndex(c, index)) == Untagged(Abstract(c), index) <==>
            forall k :: k in KeysUnder(c.indexKeys, index) && k in c.data ==> index in c.data[k].indexes
  {
    InvalidateKeepsValid(c, index);
    var keys, c' := KeysUnder(c.indexKeys, index), InvalidateIndex(c, index);
    if forall k :: k in keys && k in c.data ==> index in c.data[k].indexes {
      forall k | k in c.order ensures k in c.data && (k in keys <==> index in c.data[k].indexes) {
        assert k in c.data;
      }
      hide Valid, InvalidateIndex, Listed, Untagged;
      AbstractWithout(c, index, keys);
    } else {
      var k :| k in keys && k in c.data && index !in c.data[k].indexes;
      hide RemoveAll, Untagged, Listed;
      assert k in c.order && k !in c'.order;
      HasListed(c.order, c.data, k);
      HasListed(c'.order, c'.data, k);
      UntaggedKeeps(Abstract(c), index, (k, c.data[k]));
    }
  }

  /** Filtering the list keeps an entry without the tag. */
  lemma {:induction false} UntaggedKeeps(l: Recency, index: string, p: (string, Entry))
    requires p in l && index !in p.1.indexes
    ensures p in Untagged(l, index)
  {
    if p != l[0] {
      UntaggedKeeps(l[1..], index, p);
    }
  }

  /** Keys always set with the same indices: then an index lists no stored key that is not tagged with it. */
  ghost predicate TagsFixed(c: Cached, tags: string -> set<string>) {
    && (forall k, i :: k in c.data ==> (i in c.data[k].indexes <==> i in tags(k)))
    && (forall k, i :: k in KeysUnder(c.indexKeys, i) ==> i in tags(k))
  }

  lemma {:induction false} TagsFixedWithout(c: Cached, index: string, tags: string -> set<string>)
    requires TagsFixed(c, tags)
    ensures TagsFixed(InvalidateIndex(c, index), tags)
  {
    hide RemoveAll;
    var c' := InvalidateIndex(c, index);
    forall k, i | k in KeysUnder(c'.indexKeys, i) ensures i in tags(k) {
      assert k in KeysUnder(c.indexKeys, i);
    }
  }

  lemma {:induction false} AbstractWithout(c: Cached, index: string, keys: set<string>)
    requires Valid(c) && Valid(InvalidateIndex(c, index)) && keys == KeysUnder(c.indexKeys, index)
    requires forall k :: k in c.order ==> k in c.data && (k in keys <==> index in c.data[k].indexes)
    ensures Abstract(InvalidateIndex(c, index)) == Untagged(Abstract(c), index)
  {
    var c' := InvalidateIndex(c, index);
    ListedUntagged(c.order, keys, index, c.data);
    RemoveAllNone(c.order);
    assert c'.order == RemoveAll(c.order, keys);
    hide RemoveAll, Listed, Untagged;
    ListedSame(c'.order, c.data, c'.data);
  }

  lemma {:induction false} RemoveAllNone(order: seq<string>)
    ensures RemoveAll(order, {}) == order
  {
    if order != [] {
      RemoveAllNone(order[1..]);
      assert order == [order[0]] + order[1..];
    }
  }

  lemma {:induction false} SetKeepsTagsFixed(c: Cached, key: string, e: Entry, tags: string -> set<string>)
    requires TagsFixed(c, tags) && forall i :: i in e.indexes <==> i in tags(key)
    ensures TagsFixed(Set(c, key, e), tags)
  {
    EvictKeepsTagsFixed(c, tags);
    hide Evict, RemoveFrom, TagsFixed, AddTags;
    var room := if |c.data| >= c.capacity && key !in c.data then Evict(c) else c;
    StoreKeepsTagsFixed(room, Set(c, key, e), key, e, tags);
  }

  lemma {:induction false} StoreKeepsTagsFixed(c: Cached, c': Cached, key: string, e: Entry,
                                               tags: string -> set<string>)
    requires TagsFixed(c, tags) && forall i :: i in e.indexes <==> i in tags(key)
    requires c'.data == c.data[key := e] && c'.indexKeys == AddTags(c.indexKeys, e.indexes, key)
    ensures TagsFixed(c', tags)
  {
    forall k, i | k in KeysUnder(c'.indexKeys, i) ensures i in tags(k) {
      assert k in KeysUnder(c.indexKeys, i) || (k == key && i in e.indexes);
    }
  }

  lemma {:induction false} EvictKeepsTagsFixed(c: Cached, tags: string -> set<string>)
    requires TagsFixed(c, tags)
    ensures TagsFixed(Evict(c), tags)
  {
    var c' := Evict(c);
    forall k, i | k in KeysUnder(c'.indexKeys, i) ensures i in tags(k) {
      assert k in KeysUnder(c.indexKeys, i);
    }
  }

  // ------------------------------------------------------------------
  // Histories
  // ------------------------------------------------------------------

  datatype Op = Lookup(key: string) | Store(key: string, entry: Entry) | Drop(index: string) | DropAll

  function Apply(c: Cached, op: Op): Cached {
    match op
    case Lookup(key) => Get(c, key)
    case Store(key, e) => Set(c, key, e)
    case Drop(index) => InvalidateIndex(c, index)
    case DropAll => InvalidateAll(c)
  }

  function Run(capacity: int, ops: seq<Op>): Cached {
    if ops == [] then New(capacity) else Apply(Run(capacity, ops[..|ops|-1]), ops[|ops|-1])
  }

  lemma {:induction false} ApplyKeepsValid(c: Cached, op: Op)
    requires Valid(c)
    ensures Valid(Apply(c, op))
  {
    hide Get, Set, InvalidateIndex;
    match op
    case Lookup(key) => GetKeepsValid(c, key);
    case Store(key, e) => SetKeepsValid(c, key, e);
    case Drop(index) => InvalidateKeepsValid(c, index);
    case DropAll =>
  }

  lemma {:induction false} RunsAreValid(capacity: int, ops: seq<Op>)
    ensures Valid(Run(capacity, ops))
  {
    if ops != [] {
      RunsAreValid(capacity, ops[..|ops|-1]);
      hide Valid, Apply;
      ApplyKeepsValid(Run(capacity, ops[..|ops|-1]), ops[|ops|-1]);
    }
  }

  /** Every store of a key names the same indices, as stores of search results do: the key tells them. */
  ghost predicate Agreed(ops: seq<Op>, tags: string -> set<string>) {
    forall op, i :: op in ops && op.Store? ==> (i in op.entry.indexes <==> i in tags(op.key))
  }

  lemma {:induction false} ApplyKeepsTagsFixed(c: Cached, op: Op, tags: string -> set<string>)
    requires TagsFixed(c, tags) && (op.Store? ==> tags(op.key) == set i | i in op.entry.indexes)
    ensures TagsFixed(Apply(c, op), tags)
  {
    hide Set, InvalidateIndex;
    match op
    case Lookup(key) =>
    case Store(key, e) => SetKeepsTagsFixed(c, key, e, tags);
    case Drop(index) => TagsFixedWithout(c, index, tags);
    case DropAll =>
  }

  lemma {:induction false} AgreedRunsFixTags(capacity: int, ops: seq<Op>, tags: string -> set<string>)
    requires Agreed(ops, tags)
    ensures TagsFixed(Run(capacity, ops), tags)
  {
    if ops != [] {
      var n := |ops| - 1;
      var c := Run(capacity, ops[..n]);
      assert ops[n] in ops && forall op :: op in ops[..n] ==> op in ops;
      AgreedRunsFixTags(capacity, ops[..n], tags);
      hide Apply, TagsFixed;
      ApplyKeepsTagsFixed(c, ops[n], tags);
    }
  }

  /** Then, after every run, invalidation removes exactly the entries of the index. */
  lemma {:induction false} AgreedRunsInvalidateExactly(capacity: int, ops: seq<Op>, tags: string -> set<string>,
                                                       index: string)
    requires Agreed(ops, tags)
    ensures Valid(Run(capacity, ops)) && Valid(Run(capacity, ops + [Drop(index)]))
    ensures Abstract(Run(capacity, ops + [Drop(index)])) == Untagged(Abstract(Run(capacity, ops)), index)
  {
    RunsAreValid(capacity, ops);
    AgreedRunsFixTags(capacity, ops, tags);
    var c := Run(capacity, ops);
    assert (ops + [Drop(index)])[..|ops|] == ops;
    forall k | k in KeysUnder(c.indexKeys, index) && k in c.data ensures index in c.data[k].indexes {
      assert index in tags(k);
    }
    hide Valid, Listed, Untagged, InvalidateIndex;
    InvalidateExactlyWhen(c, index);
  }

  /** Otherwise a key set again without an index stays listed under it, in any cache, and invalidating that index takes
      the new entry along. */
  lemma {:induction false} StaleListingTakesMore(c: Cached, key: string, e: Entry, again: Entry, index: string)
    requires index in e.indexes && index !in again.indexes
    ensures var d := Set(Set(c, key, e), key, again);
      key in d.data && d.data[key] == again && key !in InvalidateIndex(d, index).data
  {
    hide Evict, RemoveFrom, RemoveAll;
    var first := Set(c, key, e);
    assert key in first.data && key in KeysUnder(first.indexKeys, index);
    assert key in KeysUnder(Set(first, key, again).indexKeys, index);
  }

  /** The operation uses the key: it stores it, or looks it up and finds it. */
  predicate Touches(c: Cached, op: Op, key: string) {
    match op
    case Lookup(k) => k == key && key in c.data
    case Store(k, _) => k == key
    case _ => false
  }

  /** When the key was last used; -1 if never. */
  function LastTouch(capacity: int, ops: seq<Op>, key: string): (t: int)
    ensures -1 <= t < |ops|
  {
    if ops == [] then -1
    else
      var n := |ops| - 1;
      if Touches(Run(capacity, ops[..n]), ops[n], key) then n else LastTouch(capacity, ops[..n], key)
  }

  /** Keys in the order they were last used. */
  ghost predicate ByLastTouch(order: seq<string>, capacity: int, ops: seq<Op>) {
    forall i, j :: 0 <= i < j < |order| ==> LastTouch(capacity, ops, order[i]) < LastTouch(capacity, ops, order[j])
  }

  lemma {:induction false} ConsOrdered(x: string, order: seq<string>, capacity: int, ops: seq<Op>)
    requires ByLastTouch(order, capacity, ops)
    requires forall k :: k in order ==> LastTouch(capacity, ops, x) < LastTouch(capacity, ops, k)
    ensures ByLastTouch([x] + order, capacity, ops)
  {
    hide LastTouch;
    assert forall i :: 0 <= i < |order| ==> order[i] in order;
  }

  lemma {:induction false} RemoveFromKeepsOrder(order: seq<string>, key: string, capacity: int, ops: seq<Op>)
    requires NoRepeats(order) && ByLastTouch(order, capacity, ops)
    ensures ByLastTouch(RemoveFrom(order, key), capacity, ops)
  {
    hide LastTouch;
    if order != [] {
      RemoveFromKeepsOrder(order[1..], key, capacity, ops);
      RemoveFromMembers(order[1..], key);
      if order[0] != key {
        ConsOrdered(order[0], RemoveFrom(order[1..], key), capacity, ops);
      }
    }
  }

  lemma {:induction false} RemoveAllKeepsOrder(order: seq<string>, keys: set<string>, capacity: int, ops: seq<Op>)
    requires NoRepeats(order) && ByLastTouch(order, capacity, ops)
    ensures ByLastTouch(RemoveAll(order, keys), capacity, ops)
  {
    hide LastTouch;
    if order != [] {
      RemoveAllKeepsOrder(order[1..], keys, capacity, ops);
      RemoveAllMembers(order[1..], keys);
      var r := RemoveAll(order[1..], keys);
      if order[0] !in keys {
        ConsOrdered(order[0], r, capacity, ops);
      } else {
        assert [] + r == r;
      }
    }
  }

  /** An operation that does not touch the keys of a list leaves its order by last use. */
  lemma {:induction false} UntouchedKeepOrder(order: seq<string>, capacity: int, ops: seq<Op>, op: Op)
    requires ByLastTouch(order, capacity, ops)
    requires forall k :: k in order ==> !Touches(Run(capacity, ops), op, k)
    ensures ByLastTouch(order, capacity, ops + [op])
  {
    assert (ops + [op])[..|ops|] == ops;
    hide Touches, Run;
    forall i | 0 <= i < |order|
      ensures LastTouch(capacity, ops + [op], order[i]) == LastTouch(capacity, ops, order[i])
    {
      assert order[i] in order;
    }
  }

  /** A touched key goes last. */
  lemma {:induction false} TouchedGoesLast(order: seq<string>, capacity: int, ops: seq<Op>, op: Op, key: string)
    requires ByLastTouch(order, capacity, ops) && key !in order
    requires forall k :: Touches(Run(capacity, ops), op, k) <==> k == key
    ensures ByLastTouch(order + [key], capacity, ops + [op])
  {
    UntouchedKeepOrder(order, capacity, ops, op);
    assert (ops + [op])[..|ops|] == ops;
    assert LastTouch(capacity, ops + [op], key) == |ops|;
    hide Touches, Run;
    forall i | 0 <= i < |order| ensures LastTouch(capacity, ops + [op], order[i]) < |ops| {
      assert order[i] in order && order[i] != key;
    }
  }

  /** On every run the order is a listing of the stored keys by when they were last used. */
  lemma {:induction false} OrderIsByLastTouch(capacity: int, ops: seq<Op>)
    ensures ByLastTouch(Run(capacity, ops).order, capacity, ops)
  {
    if ops != [] {
      var n := |ops| - 1;
      var c, op := Run(capacity, ops[..n]), ops[n];
      OrderIsByLastTouch(capacity, ops[..n]);
      RunsAreValid(capacity, ops[..n]);
      assert ops[..n] + [op] == ops;
      hide Run, LastTouch, Valid;
      StepKeepsOrder(c, capacity, ops[..n], op);
      RunLast(capacity, ops);
    }
  }

  lemma {:induction false} RunLast(capacity: int, ops: seq<Op>)
    requires ops != []
    ensures Run(capacity, ops) == Apply(Run(capacity, ops[..|ops|-1]), ops[|ops|-1])
  {
  }

  lemma {:induction false} StepKeepsOrder(c: Cached, capacity: int, ops: seq<Op>, op: Op)
    requires Valid(c) && c == Run(capacity, ops) && ByLastTouch(c.order, capacity, ops)
    ensures ByLastTouch(Apply(c, op).order, capacity, ops + [op])
  {
    hide Run, ByLastTouch;
    match op
    case Lookup(key) =>
      if key in c.data {
        KeyMovesLast(c.order, capacity, ops, op, key);
      } else {
        UntouchedKeepOrder(c.order, capacity, ops, op);
      }
    case Store(key, e) =>
      if |c.data| >= c.capacity && key !in c.data {
        EvictKeepsValid(c);
        EmptyOrMember(c.order);
        TailKeepsOrder(c, capacity, ops);
        KeyMovesLast(Evict(c).order, capacity, ops, op, key);
      } else {
        KeyMovesLast(c.order, capacity, ops, op, key);
      }
    case Drop(index) =>
      var keys := KeysUnder(c.indexKeys, index);
      RemoveAllNone(c.order);
      RemoveAllKeepsOrder(c.order, keys, capacity, ops);
      UntouchedKeepOrder(RemoveAll(c.order, keys), capacity, ops, op);
    case DropAll =>
      NothingToOrder(capacity, ops + [op]);
  }

  lemma {:induction false} TailKeepsOrder(c: Cached, capacity: int, ops: seq<Op>)
    requires ByLastTouch(c.order, capacity, ops)
    ensures ByLastTouch(Evict(c).order, capacity, ops)
  {
    hide LastTouch;
  }

  lemma {:induction false} NothingToOrder(capacity: int, ops: seq<Op>)
    ensures ByLastTouch([], capacity, ops)
  {
  }

  lemma {:induction false} KeyMovesLast(order: seq<string>, capacity: int, ops: seq<Op>, op: Op, key: string)
    requires NoRepeats(order) && ByLastTouch(order, capacity, ops)
    requires forall k :: Touches(Run(capacity, ops), op, k) <==> k == key
    ensures ByLastTouch(RemoveFrom(order, key) + [key], capacity, ops + [op])
  {
    hide Run, ByLastTouch, Touches;
    RemoveFromMembers(order, key);
    RemoveFromKeepsOrder(order, key, capacity, ops);
    TouchedGoesLast(RemoveFrom(order, key), capacity, ops, op, key);
  }

  /** On every run, storing a new key in a full cache removes exactly the stored key that was used least recently. */
  lemma {:induction false} VictimIsLeastRecentlyUsed(capacity: int, ops: seq<Op>, key: string, e: Entry)
    requires var c := Run(capacity, ops); |c.data| >= c.capacity && key !in c.data
    ensures var c := Run(capacity, ops);
      && c.order != [] && c.order[0] in c.data
      && (forall k :: k in c.data && k != c.order[0] ==>
            LastTouch(capacity, ops, c.order[0]) < LastTouch(capacity, ops, k))
      && Set(c, key, e).data == (c.data - {c.order[0]})[key := e]
  {
    var c := Run(capacity, ops);
    RunsAreValid(capacity, ops);
    OrderIsByLastTouch(capacity, ops);
    hide Run, LastTouch;
    OrderLength(c);
    EmptyOrMember(c.order);
    assert c.order != [] && Set(c, key, e).data == (c.data - {c.order[0]})[key := e];
    forall k | k in c.data && k != c.order[0]
      ensures LastTouch(capacity, ops, c.order[0]) < LastTouch(capacity, ops, k)
    {
      assert k in c.order;
      var j :| 0 <= j < |c.order| && c.order[j] == k;
    }
  }

  /** What was last stored under the key. */
  function LastStored(ops: seq<Op>, key: string): Option<Entry> {
    if ops == [] then None
    else
      var op := ops[|ops|-1];
      if op.Store? && op.key == key then Some(op.entry) else LastStored(ops[..|ops|-1], key)
  }

  /** On every run a stored key holds what was last stored under it. */
  lemma {:induction false} HoldsLastStored(capacity: int, ops: seq<Op>, key: string)
    ensures var c := Run(capacity, ops); key in c.data ==> Some(c.data[key]) == LastStored(ops, key)
  {
    if ops != [] {
      HoldsLastStored(capacity, ops[..|ops|-1], key);
      hide RemoveFrom, RemoveAll, DropTags, AddTags;
    }
  }

  // ------------------------------------------------------------------
  // Which keys are kept
  // ------------------------------------------------------------------

  function Members(order: seq<string>): set<string> { set k | k in order }

  /** The keys used more recently. */
  function Behind(order: seq<string>, key: string): set<string> {
    if order == [] then {} else if order[0] == key then Members(order[1..]) else Behind(order[1..], key)
  }

  function Used(c: Cached, op: Op): set<string> {
    match op
    case Lookup(k) => if k in c.data then {k} else {}
    case Store(k, _) => {k}
    case _ => {}
  }

  /** The other keys used since the key was used last. */
  function UsedSince(capacity: int, ops: seq<Op>, key: string): set<string> {
    if ops == [] then {}
    else
      var n := |ops| - 1;
      var c := Run(capacity, ops[..n]);
      if Touches(c, ops[n], key) then {} else UsedSince(capacity, ops[..n], key) + Used(c, ops[n])
  }

  lemma {:induction false} BehindMembers(order: seq<string>, key: string)
    requires NoRepeats(order)
    ensures Behind(order, key) <= Members(order) - {key}
    ensures order != [] && order[0] == key ==> Behind(order, key) == Members(order) - {key}
  {
    if order != [] && order[0] != key {
      BehindMembers(order[1..], key);
    }
  }

  lemma {:induction false} BehindAppended(order: seq<string>, x: string, key: string)
    requires x != key && key in order
    ensures Behind(order + [x], key) == Behind(order, key) + {x}
  {
    assert (order + [x])[1..] == order[1..] + [x];
    if order[0] != key {
      BehindAppended(order[1..], x, key);
    }
  }

  lemma {:induction false} BehindLast(order: seq<string>, key: string)
    requires key !in order
    ensures Behind(order + [key], key) == {}
  {
    if order != [] {
      assert (order + [key])[1..] == order[1..] + [key];
      BehindLast(order[1..], key);
    }
  }

  lemma {:induction false} BehindRemoved(order: seq<string>, x: string, key: string)
    requires NoRepeats(order) && x != key
    ensures Behind(RemoveFrom(order, x), key) == Behind(order, key) - {x}
  {
    if order != [] {
      BehindRemoved(order[1..], x, key);
      if order[0] == key {
        RemoveFromMembers(order[1..], x);
      } else if order[0] == x {
        BehindMembers(order[1..], key);
      }
    }
  }

  lemma {:induction false} BehindMoved(order: seq<string>, x: string, key: string)
    requires NoRepeats(order) && (x != key ==> key in order)
    ensures Behind(RemoveFrom(order, x) + [x], key) == if x == key then {} else Behind(order, key) + {x}
  {
    RemoveFromMembers(order, x);
    if x == key {
      BehindLast(RemoveFrom(order, x), x);
    } else {
      BehindAppended(RemoveFrom(order, x), x, key);
      BehindRemoved(order, x, key);
    }
  }

  /** What the cache knows of a key: it is kept with those used since behind it, or as many others were used as there is
      room for. */
  ghost predicate Remembered(c: Cached, key: string, ever: bool, since: set<string>) {
    if key in c.data then ever && since == Behind(c.order, key) else ever ==> |since| >= c.capacity
  }

  lemma {:induction false} MoreUsed(since: set<string>, more: set<string>, n: nat)
    requires |since| >= n
    ensures |since + more| >= n
  {
    SubsetSize(since, since + more);
  }

  lemma {:induction false} LookupRemembers(c: Cached, x: string, key: string, ever: bool, since: set<string>)
    requires Valid(c) && Remembered(c, key, ever, since)
    ensures var op := Lookup(x);
      Remembered(Get(c, x), key, ever || Touches(c, op, key), if Touches(c, op, key) then {} else since + Used(c, op))
  {
    if x in c.data {
      if key in c.data {
        BehindMoved(c.order, x, key);
      } else if ever {
        MoreUsed(since, {x}, c.capacity);
      }
    }
  }

  lemma {:induction false} SetShape(c: Cached, x: string, e: Entry)
    requires Valid(c)
    ensures var c', full := Set(c, x, e), |c.data| >= c.capacity && x !in c.data;
      && c'.capacity == c.capacity
      && (full ==> c.order != [] && c'.order == RemoveFrom(c.order[1..], x) + [x]
                   && c'.data == (c.data - {c.order[0]})[x := e])
      && (!full ==> c'.order == RemoveFrom(c.order, x) + [x] && c'.data == c.data[x := e])
  {
    EmptyOrMember(c.order);
    EvictShape(c);
    hide Evict, AddTags, RemoveFrom, KeysUnder, NoRepeats;
    if c.order == [] {
      assert c.data.Keys == {};
    }
  }

  lemma {:induction false} StoreRemembers(c: Cached, x: string, e: Entry, key: string, ever: bool, since: set<string>)
    requires Valid(c) && Remembered(c, key, ever, since)
    ensures Remembered(Set(c, x, e), key, ever || x == key, if x == key then {} else since + {x})
  {
    SetShape(c, x, e);
    hide Set, KeysUnder, RemoveFrom, Behind;
    var full := |c.data| >= c.capacity && x !in c.data;
    var order := if full then c.order[1..] else c.order;
    if full {
      TailMembers(c.order);
    }
    if x == key || (key in c.data && !(full && key == c.order[0])) {
      BehindMoved(order, x, key);
      if full && x != key {
        BehindTail(c.order, key);
      }
    } else if key in c.data {
      OldestForgotten(c, x, since);
    } else if ever {
      MoreUsed(since, {x}, c.capacity);
    }
  }

  lemma {:induction false} BehindTail(order: seq<string>, key: string)
    requires order != [] && order[0] != key
    ensures Behind(order, key) == Behind(order[1..], key)
  {
  }

  /** When the oldest key goes, all others have been used since, and a new one takes its place. */
  lemma {:induction false} OldestForgotten(c: Cached, x: string, since: set<string>)
    requires Valid(c) && c.order != [] && |c.data| >= c.capacity && x !in c.data
    requires since == Behind(c.order, c.order[0])
    ensures |since + {x}| >= c.capacity
  {
    hide Behind, KeysUnder;
    BehindMembers(c.order, c.order[0]);
    assert c.data.Keys == Members(c.order) && |c.data.Keys| == |c.data|;
    assert since + {x} == c.data.Keys - {c.order[0]} + {x};
    assert c.order[0] in c.data.Keys && x !in c.data.Keys - {c.order[0]};
  }

  predicate OnlyUses(ops: seq<Op>) { forall op :: op in ops ==> op.Lookup? || op.Store? }

  lemma {:induction false} RunsRemember(capacity: int, ops: seq<Op>, key: string)
    requires OnlyUses(ops)
    ensures Remembered(Run(capacity, ops), key, LastTouch(capacity, ops, key) >= 0, UsedSince(capacity, ops, key))
    ensures Run(capacity, ops).capacity == if capacity > 0 then capacity else DEFAULT_CAPACITY
  {
    if ops != [] {
      var n := |ops| - 1;
      var c := Run(capacity, ops[..n]);
      assert ops[n] in ops && forall op :: op in ops[..n] ==> op in ops;
      RunsRemember(capacity, ops[..n], key);
      RunsAreValid(capacity, ops[..n]);
      RunLast(capacity, ops);
      UseStep(c, ops[n]);
      var ever, since := LastTouch(capacity, ops[..n], key) >= 0, UsedSince(capacity, ops[..n], key);
      hide Run, Valid, Remembered, Get, Set;
      match ops[n]
      case Lookup(x) => LookupRemembers(c, x, key, ever, since);
      case Store(x, e) => StoreRemembers(c, x, e, key, ever, since);
    }
  }

  lemma {:induction false} UseStep(c: Cached, op: Op)
    ensures Apply(c, op).capacity == c.capacity
  {
  }

  /** With lookups and stores only, a key is kept if and only if fewer other keys than the capacity have been used since
      it was. */
  lemma {:induction false} KeptExactlyWhen(capacity: int, ops: seq<Op>, key: string)
    requires OnlyUses(ops)
    ensures key in Run(capacity, ops).data <==>
            LastTouch(capacity, ops, key) >= 0
            && |UsedSince(capacity, ops, key)| < if capacity > 0 then capacity else DEFAULT_CAPACITY
  {
    RunsRemember(capacity, ops, key);
    RunsAreValid(capacity, ops);
    var c := Run(capacity, ops);
    hide Run, LastTouch, UsedSince, KeysUnder, Behind;
    if key in c.data {
      BehindMembers(c.order, key);
      assert Members(c.order) == c.data.Keys;
      SubsetSize(Behind(c.order, key), c.data.Keys - {key});
    }
  }

  function LookupCount(ops: seq<Op>): nat {
    if ops == [] then 0 else LookupCount(ops[..|ops|-1]) + (if ops[|ops|-1].Lookup? then 1 else 0)
  }

  /** The lookups that found their key. */
  function FoundCount(capacity: int, ops: seq<Op>): nat {
    if ops == [] then 0
    else
      var n := |ops| - 1;
      var op := ops[n];
      FoundCount(capacity, ops[..n]) + if op.Lookup? && op.key in Run(capacity, ops[..n]).data then 1 else 0
  }

  /** On every run the counters say how many lookups found their key and how many did not. */
  lemma {:induction false} CountersCount(capacity: int, ops: seq<Op>)
    ensures var c := Run(capacity, ops); c.hits == FoundCount(capacity, ops) && c.hits + c.misses == LookupCount(ops)
  {
    if ops != [] {
      CountersCount(capacity, ops[..|ops|-1]);
      hide RemoveFrom, RemoveAll, DropTags, AddTags;
    }
  }

  /** Removing one more key from the order, where it occurs at most once. */
  lemma {:induction false} RemoveOneMore(order: seq<string>, keys: set<string>, k: string)
    requires NoRepeats(order)
    ensures RemoveFrom(RemoveAll(order, keys), k) == RemoveAll(order, keys + {k})
  {
    if order != [] {
      RemoveOneMore(order[1..], keys, k);
      var r := RemoveAll(order[1..], keys);
      if order[0] in keys {
        assert [] + r == r && [] + RemoveAll(order[1..], keys + {k}) == RemoveAll(order[1..], keys + {k});
      } else if order[0] == k {
        assert ([k] + r)[1..] == r && k !in order[1..];
        RemoveAllAbsent(order[1..], keys, k);
        assert [] + RemoveAll(order[1..], keys + {k}) == RemoveAll(order[1..], keys + {k});
      } else {
        assert ([order[0]] + r)[1..] == r;
      }
    }
  }

  lemma {:induction false} RemoveAllAbsent(order: seq<string>, keys: set<string>, k: string)
    requires k !in order
    ensures RemoveAll(order, keys + {k}) == RemoveAll(order, keys)
  {
    if order != [] {
      assert order == [order[0]] + order[1..];
      RemoveAllAbsent(order[1..], keys, k);
    }
  }

  lemma {:induction false} RemoveFromAt(order: seq<string>, i: nat)
    requires i < |order| && order[i] !in order[..i]
    ensures RemoveFrom(order, order[i]) == order[..i] + order[i+1..]
  {
    if i > 0 {
      var tail := order[1..];
      assert tail[..i-1] == order[1..i] && order[..i] == [order[0]] + order[1..i];
      RemoveFromAt(tail, i - 1);
      assert tail[i..] == order[i+1..];
      assert [order[0]] + (order[1..i] + order[i+1..]) == order[..i] + order[i+1..];
    } else {
      assert order[..0] + order[1..] == order[1..];
    }
  }

  lemma {:induction false} RemoveFromAbsent(order: seq<string>, key: string)
    requires key !in order
    ensures RemoveFrom(order, key) == order
  {
    if order != [] {
      assert order == [order[0]] + order[1..];
      RemoveFromAbsent(order[1..], key);
    }
  }

  // ------------------------------------------------------------------
  // The object
  // ------------------------------------------------------------------

  class Cache {
    var capacity: nat
    var data: map<string, Entry>
    var order: seq<string>
    var indexKeys: map<string, set<string>>
    var hits: nat
    var misses: nat

    constructor (cap: int)
      ensures Value() == New(cap)
    {
      capacity := if cap <= 0 then DEFAULT_CAPACITY else cap;
      data, order, indexKeys, hits, misses := map[], [], map[], 0, 0;
    }

    function Value(): Cached
      reads this
    {
      Cached(capacity, data, order, indexKeys, hits, misses)
    }

    method RemoveFromOrder(key: string)
      modifies this`order
      ensures order == RemoveFrom(old(order), key)
    {
      var i := 0;
      while i < |order|
        invariant i <= |order| && order == old(order) && key !in order[..i]
      {
        if order[i] == key {
          RemoveFromAt(order, i);
          order := order[..i] + order[i+1..];
          return;
        }
        assert order[..i+1] == order[..i] + [order[i]];
        i := i + 1;
      }
      assert order[..i] == order;
      RemoveFromAbsent(order, key);
    }

    method Lookup(key: string) returns (r: Option<string>)
      modifies this
      ensures Value() == Get(old(Value()), key)
      ensures r == if key in old(data) then Some(old(data)[key].value) else None
    {
      if key !in data {
        misses := misses + 1;
        return None;
      }
      hits := hits + 1;
      RemoveFromOrder(key);
      order := order + [key];
      r := Some(data[key].value);
    }

    method EvictOldest()
      modifies this
      ensures Value() == Evict(old(Value()))
    {
      if |order| == 0 {
        return;
      }
      var oldest := order[0];
      order := order[1..];
      if oldest in data {
        indexKeys := WithoutTags(indexKeys, data[oldest].indexes, oldest);
        data := data - {oldest};
      }
    }

    method Store(key: string, value: string, indexes: seq<string>)
      modifies this
      ensures Value() == Set(old(Value()), key, Entry(value, indexes))
    {
      if |data| >= capacity && key !in data {
        EvictOldest();
      }
      data := data[key := Entry(value, indexes)];
      RemoveFromOrder(key);
      order := order + [key];
      indexKeys := WithTags(indexKeys, indexes, key);
    }

    method DropIndex(index: string)
      requires NoRepeats(order)
      modifies this
      ensures Value() == InvalidateIndex(old(Value()), index)
    {
      if index !in indexKeys {
        return;
      }
      var keys := indexKeys[index];
      var todo := keys;
      RemoveAllNone(order);
      assert keys - todo == {} && data - {} == data;
      while todo != {}
        invariant todo <= keys
        invariant data == old(data) - (keys - todo) && order == RemoveAll(old(order), keys - todo)
        invariant Value() == old(Value()).(data := data, order := order)
        decreases todo
      {
        var k :| k in todo;
        RemoveOneMore(old(order), keys - todo, k);
        assert keys - (todo - {k}) == (keys - todo) + {k};
        data := data - {k};
        RemoveFromOrder(k);
        todo := todo - {k};
      }
      assert keys - {} == keys;
      indexKeys := indexKeys - {index};
    }

    method DropAll()
      modifies this
      ensures Value() == InvalidateAll(old(Value()))
    {
      data, order, indexKeys := map[], [], map[];
    }
  }

  method WithTags(m: map<string, set<string>>, indexes: seq<string>, key: string) returns (r: map<string, set<string>>)
    ensures r == AddTags(m, indexes, key)
  {
    r := m;
    for i := 0 to |indexes|
      invariant r == AddTags(m, indexes[..i], key)
    {
      assert indexes[..i+1] == indexes[..i] + [indexes[i]];
      r := r[indexes[i] := KeysUnder(r, indexes[i]) + {key}];
    }
    assert indexes[..|indexes|] == indexes;
  }

  method WithoutTags(m: map<string, set<string>>, indexes: seq<string>, key: string)
    returns (r: map<string, set<string>>)
    ensures r == DropTags(m, indexes, key)
  {
    r := m;
    for i := 0 to |indexes|
      invariant forall x :: x in r <==> x in m && (x in indexes[..i] ==> m[x] - {key} != {})
      invariant forall x :: x in r ==> r[x] == if x in indexes[..i] then m[x] - {key} else m[x]
    {
      assert indexes[..i+1] == indexes[..i] + [indexes[i]];
      var x := indexes[i];
      if x in r {
        var keys := r[x] - {key};
        assert keys == m[x] - {key};
        r := if keys == {} then r - {x} else r[x := keys];
      }
    }
    assert indexes[..|indexes|] == indexes;
  }
}
