/** The model cache (internal/grpc/cache.go): a map and a list that share their entries. */
module LruCache {

  datatype Option<T> = None | Some(value: T)

  datatype Result<T> = Ok(value: T) | Err(message: string)

  /** A cache's contents, most recently used first. */
  type Recency<V> = seq<(string, V)>

  // ----- The cache on contents -----

  function Find<V>(r: Recency<V>, key: string): Option<V> {
    if r == [] then None else if r[0].0 == key then Some(r[0].1) else Find(r[1..], key)
  }

  function Without<V>(r: Recency<V>, key: string): Recency<V> {
    if r == [] then [] else if r[0].0 == key then r[1..] else [r[0]] + Without(r[1..], key)
  }

  /** After a Get. */
  function Touched<V>(r: Recency<V>, key: string): Recency<V> {
    match Find(r, key)
    case None => r
    case Some(v) => [(key, v)] + Without(r, key)
  }

  /** After a Put. */
  function Stored<V>(r: Recency<V>, maxSize: nat, key: string, value: V): Recency<V> {
    if Find(r, key).Some? then [(key, value)] + Without(r, key)
    else [(key, value)] + (if r != [] && |r| >= maxSize then r[..|r| - 1] else r)
  }

  // ----- The cache as it is -----

  /** What a list element and the map both point to. */
  class Entry<V> {
    const key: string
    var value: V

    constructor (key: string, value: V)
      ensures this.key == key && this.value == value
    {
      this.key, this.value := key, value;
    }
  }

  /** container/list without an element. */
  function Removed<V>(l: seq<Entry<V>>, e: Entry<V>): seq<Entry<V>> {
    if l == [] then [] else if l[0] == e then l[1..] else [l[0]] + Removed(l[1..], e)
  }

  ghost function ContentsOf<V>(l: seq<Entry<V>>): Recency<V>
    reads l
  {
    if l == [] then [] else [(l[0].key, l[0].value)] + ContentsOf(l[1..])
  }

  ghost predicate Unrepeated<V>(l: seq<Entry<V>>) {
    forall i, j | 0 <= i < j < |l| :: l[i].key != l[j].key
  }

  /** Map and list are in bijection. */
  ghost predicate Linked<V>(items: map<string, Entry<V>>, l: seq<Entry<V>>) {
    && (forall k | k in items :: items[k] in l && items[k].key == k)
    && (forall e | e in l :: e.key in items && items[e.key] == e)
    && Unrepeated(l)
  }

  lemma {:induction false} RemovedKeeps<V>(l: seq<Entry<V>>, e: Entry<V>)
    requires e in l && Unrepeated(l)
    ensures |Removed(l, e)| == |l| - 1
    ensures forall i | 0 <= i < |Removed(l, e)| :: Removed(l, e)[i] in l && Removed(l, e)[i].key != e.key
    ensures forall i | 0 <= i < |l| && l[i] != e :: l[i] in Removed(l, e)
    ensures Unrepeated(Removed(l, e))
  {
    var at :| 0 <= at < |l| && l[at] == e;
    if at > 0 {
      var tail := l[1..];
      assert tail[at - 1] == e;
      RemovedKeeps(tail, e);
      var rest := Removed(tail, e);
      assert Removed(l, e) == [l[0]] + rest;
      forall i | 0 <= i < |rest| ensures rest[i] in l && rest[i].key != l[0].key {
        var j :| 0 <= j < |tail| && tail[j] == rest[i];
        assert l[j + 1] == rest[i];
      }
      UnrepeatedFront(l[0], rest);
      forall i | 0 <= i < |l| && l[i] != e ensures l[i] in [l[0]] + rest {
        assert i > 0 ==> tail[i - 1] == l[i];
      }
    }
  }

  lemma {:induction false} RemovedContents<V>(l: seq<Entry<V>>, e: Entry<V>)
    requires e in l && Unrepeated(l)
    ensures ContentsOf(Removed(l, e)) == Without(ContentsOf(l), e.key)
  {
    var at :| 0 <= at < |l| && l[at] == e;
    assert l == [l[0]] + l[1..];
    ContentsFront(l[0], l[1..]);
    if at > 0 {
      assert l[1..][at - 1] == e;
      RemovedContents(l[1..], e);
      ContentsFront(l[0], Removed(l[1..], e));
    }
  }

  lemma {:induction false} RemovedSome<V>(l: seq<Entry<V>>, e: Entry<V>)
    ensures forall x | x in Removed(l, e) :: x in l
  {
    if l != [] {
      RemovedSome(l[1..], e);
    }
  }

  lemma UnrepeatedFront<V>(e: Entry<V>, l: seq<Entry<V>>)
    requires Unrepeated(l) && forall i | 0 <= i < |l| :: l[i].key != e.key
    ensures Unrepeated([e] + l)
  {
  }

  lemma {:induction false} FindEntry<V>(l: seq<Entry<V>>, e: Entry<V>)
    requires e in l && Unrepeated(l)
    ensures Find(ContentsOf(l), e.key) == Some(e.value)
  {
    assert ContentsOf(l) == [(l[0].key, l[0].value)] + ContentsOf(l[1..]);
    if l[0] != e {
      FindEntry(l[1..], e);
      assert l[0].key != e.key by {
        var j :| 0 <= j < |l| && l[j] == e;
      }
    }
  }

  lemma {:induction false} FindNoEntry<V>(l: seq<Entry<V>>, key: string)
    requires forall e | e in l :: e.key != key
    ensures Find(ContentsOf(l), key) == None
  {
    if l != [] {
      assert ContentsOf(l) == [(l[0].key, l[0].value)] + ContentsOf(l[1..]);
      FindNoEntry(l[1..], key);
    }
  }

  lemma {:induction false} ContentsShorter<V>(l: seq<Entry<V>>)
    ensures |ContentsOf(l)| == |l|
    ensures l != [] ==> ContentsOf(l[..|l| - 1]) == ContentsOf(l)[..|l| - 1]
  {
    if l != [] {
      ContentsShorter(l[1..]);
      if |l| > 1 {
        assert l[..|l| - 1][1..] == l[1..][..|l| - 2];
        assert ContentsOf(l)[..|l| - 1] == [ContentsOf(l)[0]] + ContentsOf(l[1..])[..|l| - 2];
      }
    }
  }

  lemma ContentsFront<V>(e: Entry<V>, l: seq<Entry<V>>)
    ensures ContentsOf([e] + l) == [(e.key, e.value)] + ContentsOf(l)
  {
    assert ([e] + l)[1..] == l;
  }

  lemma LinkedEvict<V>(items: map<string, Entry<V>>, l: seq<Entry<V>>)
    requires Linked(items, l) && l != []
    ensures var n := |l| - 1;
      Linked(items - {l[n].key}, l[..n])
  {
    var n := |l| - 1;
    var fewer := items - {l[n].key};
    forall k | k in fewer ensures fewer[k] in l[..n] {
      var j :| 0 <= j < |l| && l[j] == items[k];
      assert j != n;
      assert l[..n][j] == items[k];
    }
  }

  lemma LinkedMore<V>(items: map<string, Entry<V>>, l: seq<Entry<V>>, e: Entry<V>)
    requires Linked(items, l) && e.key !in items
    ensures Linked(items[e.key := e], [e] + l)
  {
    UnrepeatedFront(e, l);
  }

  lemma LinkedMoved<V>(items: map<string, Entry<V>>, l: seq<Entry<V>>, e: Entry<V>)
    requires Linked(items, l) && e in l
    ensures |Removed(l, e)| == |l| - 1 && e !in Removed(l, e) && Linked(items, [e] + Removed(l, e))
    ensures ContentsOf(Removed(l, e)) == Without(ContentsOf(l), e.key)
  {
    hide Removed, ContentsOf;
    RemovedKeeps(l, e);
    RemovedContents(l, e);
    UnrepeatedFront(e, Removed(l, e));
    var moved := [e] + Removed(l, e);
    forall k | k in items ensures items[k] in moved {
      var i :| 0 <= i < |l| && l[i] == items[k];
    }
  }

  /** Looking a key up in the map is looking it up in the contents. */
  lemma LinkedFinds<V>(items: map<string, Entry<V>>, l: seq<Entry<V>>, key: string)
    requires Linked(items, l)
    ensures Find(ContentsOf(l), key) == if key in items then Some(items[key].value) else None
    ensures key in items ==> items[key] in l && items[key].key == key
  {
    hide Find, ContentsOf;
    if key in items {
      FindEntry(l, items[key]);
    } else {
      FindNoEntry(l, key);
    }
  }

  class Cache<V> {
    const maxSize: nat
    var items: map<string, Entry<V>>
    var lruList: seq<Entry<V>>

    /** Map and list are in bijection, within the capacity. */
    ghost predicate Valid()
      reads this
    {
      0 < maxSize && |lruList| <= maxSize && Linked(items, lruList)
    }

    ghost function Contents(): Recency<V>
      reads this, lruList
    {
      ContentsOf(lruList)
    }

    /** NewCache, once the size is accepted. */
    constructor (maxSize: nat)
      requires maxSize > 0
      ensures Valid() && this.maxSize == maxSize && Contents() == []
    {
      this.maxSize, items, lruList := maxSize, map[], [];
    }

    /** NewCache: a size that is not positive is refused. */
    static method New(maxSize: int) returns (cache: Result<Cache<V>>)
      ensures cache.Err? <==> maxSize <= 0
      ensures cache.Ok? ==> fresh(cache.value) && cache.value.Valid() && cache.value.maxSize == maxSize && cache.value.Contents() == []
    {
      if maxSize <= 0 {
        return Err("cache maxSize must be positive");
      }
      var c := new Cache(maxSize);
      return Ok(c);
    }

    /** list.MoveToFront. */
    method MoveToFront(elem: Entry<V>)
      requires Valid() && elem in lruList
      modifies this`lruList
      ensures Valid() && lruList == [elem] + Removed(old(lruList), elem)
      ensures forall e | e in lruList :: e in old(lruList)
      ensures Contents() == [(elem.key, elem.value)] + Without(old(Contents()), elem.key)
    {
      hide Linked, Removed, ContentsOf, Without;
      LinkedMoved(items, lruList, elem);
      RemovedSome(lruList, elem);
      ContentsFront(elem, Removed(lruList, elem));
      lruList := [elem] + Removed(lruList, elem);
    }

    method Get(hash: string) returns (found: Option<V>)
      requires Valid()
      modifies this`lruList
      ensures Valid() && (forall e | e in lruList :: e in old(lruList)) && (found.None? ==> lruList == old(lruList))
      ensures found == Find(old(Contents()), hash)
      ensures Contents() == Touched(old(Contents()), hash)
    {
      hide Linked, ContentsOf, Find, Without, Removed;
      LinkedFinds(items, lruList, hash);
      if hash !in items {
        return None;
      }
      var elem := items[hash];
      MoveToFront(elem);
      found := Some(elem.value);
    }

    method Put(hash: string, model: V)
      requires Valid()
      modifies this, lruList
      ensures Valid() && forall e | e in lruList :: e in old(lruList) || fresh(e)
      ensures Contents() == Stored(old(Contents()), maxSize, hash, model)
    {
      hide Linked, ContentsOf, Find, Without, Removed;
      LinkedFinds(items, lruList, hash);
      if hash in items {
        var elem := items[hash];
        LinkedMoved(items, lruList, elem);
        RemovedSome(lruList, elem);
        ghost var rest, after := Removed(lruList, elem), ContentsOf(Removed(lruList, elem));
        MoveToFront(elem);
        elem.value := model;
        assert ContentsOf(rest) == after;
        ContentsFront(elem, rest);
        return;
      }
      ContentsShorter(lruList);
      if |lruList| >= maxSize {
        LinkedEvict(items, lruList);
        var oldest := lruList[|lruList| - 1];
        lruList := lruList[..|lruList| - 1];
        items := items - {oldest.key};
      }
      ghost var kept := ContentsOf(lruList);
      var entry := new Entry(hash, model);
      assert ContentsOf(lruList) == kept;
      LinkedMore(items, lruList, entry);
      ContentsFront(entry, lruList);
      lruList := [entry] + lruList;
      items := items[hash := entry];
    }
  }
}
