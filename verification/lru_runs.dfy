/** Runs of the model cache: what it holds after any sequence of operations, and after any sequence of
    requests that put what they did not get (internal/grpc/service.go). */
module LruRuns {
  import opened LruCache

  // ----- Any operations -----

  datatype Op<V> = GetOp(key: string) | PutOp(key: string, value: V)

  function Apply<V>(r: Recency<V>, maxSize: nat, op: Op<V>): Recency<V> {
    match op
    case GetOp(key) => Touched(r, key)
    case PutOp(key, value) => Stored(r, maxSize, key, value)
  }

  function After<V>(ops: seq<Op<V>>, maxSize: nat): Recency<V> {
    if ops == [] then [] else Apply(After(ops[..|ops| - 1], maxSize), maxSize, ops[|ops| - 1])
  }

  /** The value last put under a key. */
  function LastPut<V>(ops: seq<Op<V>>, key: string): Option<V> {
    if ops == [] then None
    else
      var op := ops[|ops| - 1];
      if op.PutOp? && op.key == key then Some(op.value) else LastPut(ops[..|ops| - 1], key)
  }

  function Keys<V>(r: Recency<V>): seq<string> {
    if r == [] then [] else [r[0].0] + Keys(r[1..])
  }

  ghost predicate Distinct(keys: seq<string>) {
    forall i, j | 0 <= i < j < |keys| :: keys[i] != keys[j]
  }

  lemma {:induction false} FindIsKey<V>(r: Recency<V>, key: string)
    ensures Find(r, key).Some? <==> key in Keys(r)
  {
    if r != [] {
      FindIsKey(r[1..], key);
    }
  }

  lemma {:induction false} FindWithout<V>(r: Recency<V>, key: string, other: string)
    requires key != other
    ensures Find(Without(r, key), other) == Find(r, other)
  {
    if r != [] && r[0].0 != key {
      FindWithout(r[1..], key, other);
      assert Without(r, key)[1..] == Without(r[1..], key);
    }
  }

  lemma {:induction false} FindShorter<V>(r: Recency<V>, n: nat, key: string)
    requires n <= |r|
    ensures Find(r[..n], key) == None || Find(r[..n], key) == Find(r, key)
  {
    if n > 0 {
      FindShorter(r[1..], n - 1, key);
      assert r[..n][1..] == r[1..][..n - 1];
    }
  }

  lemma FindFront<V>(k: string, v: V, r: Recency<V>, key: string)
    ensures Find([(k, v)] + r, key) == if k == key then Some(v) else Find(r, key)
  {
    assert ([(k, v)] + r)[1..] == r;
  }

  /** One operation keeps what is found to what was put. */
  lemma {:induction false} ApplyFinds<V>(r: Recency<V>, maxSize: nat, op: Op<V>, key: string)
    ensures var t := Apply(r, maxSize, op);
      && (op.PutOp? && op.key == key ==> Find(t, key) == Some(op.value))
      && (!(op.PutOp? && op.key == key) ==> Find(t, key) == None || Find(t, key) == Find(r, key))
  {
    hide Find, Without;
    var rest := Without(r, op.key);
    if op.key != key {
      FindWithout(r, op.key, key);
    }
    match op
    case GetOp(k) =>
      if Find(r, k).Some? {
        FindFront(k, Find(r, k).value, rest, key);
      }
    case PutOp(k, v) =>
      FindFront(k, v, rest, key);
      FindFront(k, v, r, key);
      if r != [] {
        FindShorter(r, |r| - 1, key);
        FindFront(k, v, r[..|r| - 1], key);
      }
  }

  /** A hit returns the value last put under its key, whatever the operations and their order. */
  lemma {:induction false} HitReturnsLastPut<V>(ops: seq<Op<V>>, maxSize: nat, key: string)
    ensures var found := Find(After(ops, maxSize), key);
      found == None || found == LastPut(ops, key)
  {
    hide Apply, Find;
    if ops == [] {
      assert Find<V>([], key) == None by { FindNothing<V>(key); }
    } else {
      HitReturnsLastPut(ops[..|ops| - 1], maxSize, key);
      ApplyFinds(After(ops[..|ops| - 1], maxSize), maxSize, ops[|ops| - 1], key);
    }
  }

  lemma FindNothing<V>(key: string)
    ensures Find<V>([], key) == None
  {
  }

  // ----- A larger cache under the same operations -----

  /** a is a subsequence of b. */
  ghost predicate Sub<V>(a: Recency<V>, b: Recency<V>) {
    a == [] || (b != [] && ((a[0] == b[0] && Sub(a[1..], b[1..])) || Sub(a, b[1..])))
  }

  /** No key twice. */
  ghost predicate OnceEach<V>(r: Recency<V>) {
    forall i, j | 0 <= i < j < |r| :: r[i].0 != r[j].0
  }

  lemma {:induction false} SubItself<V>(a: Recency<V>)
    ensures Sub(a, a)
  {
    if a != [] {
      SubItself(a[1..]);
    }
  }

  lemma SubFront<V>(x: (string, V), a: Recency<V>, b: Recency<V>)
    requires Sub(a, b)
    ensures Sub([x] + a, [x] + b)
  {
    assert ([x] + a)[1..] == a && ([x] + b)[1..] == b;
  }

  lemma SubBehind<V>(x: (string, V), a: Recency<V>, b: Recency<V>)
    requires Sub(a, b)
    ensures Sub(a, [x] + b)
  {
    assert ([x] + b)[1..] == b;
  }

  lemma {:induction false} FindMember<V>(r: Recency<V>, key: string)
    ensures Find(r, key).None? <==> forall i | 0 <= i < |r| :: r[i].0 != key
  {
    if r != [] {
      FindMember(r[1..], key);
      assert forall i | 0 < i < |r| :: r[i] == r[1..][i - 1];
      assert forall i | 0 <= i < |r[1..]| :: r[1..][i] == r[i + 1];
    }
  }

  /** What a subsequence finds is found. */
  lemma {:induction false} SubFind<V>(a: Recency<V>, b: Recency<V>, key: string)
    requires Sub(a, b) && OnceEach(b) && Find(a, key).Some?
    ensures Find(b, key) == Find(a, key)
  {
    if a[0] == b[0] && Sub(a[1..], b[1..]) {
      if a[0].0 != key {
        SubFind(a[1..], b[1..], key);
      }
    } else {
      SubFind(a, b[1..], key);
      FindMember(b[1..], key);
      var i :| 0 <= i < |b[1..]| && b[1..][i].0 == key;
      assert b[i + 1].0 == key;
    }
  }

  lemma {:induction false} SubWithout<V>(a: Recency<V>, b: Recency<V>, key: string)
    requires Sub(a, b) && OnceEach(b)
    ensures Sub(Without(a, key), Without(b, key))
  {
    if a != [] {
      var tail := b[1..];
      if a[0] == b[0] && Sub(a[1..], tail) {
        if a[0].0 != key {
          SubWithout(a[1..], tail, key);
          SubFront(a[0], Without(a[1..], key), Without(tail, key));
        }
      } else if b[0].0 == key {
        FindMember(tail, key);
        assert Find(tail, key).None? by {
          forall i | 0 <= i < |tail| ensures tail[i].0 != key {
            assert tail[i] == b[i + 1];
          }
        }
        if Find(a, key).Some? {
          SubFind(a, tail, key);
        }
        WithoutNone(a, key);
      } else {
        SubWithout(a, tail, key);
        SubBehind(b[0], Without(a, key), Without(tail, key));
      }
    }
  }

  lemma {:induction false} WithoutNone<V>(r: Recency<V>, key: string)
    requires Find(r, key).None?
    ensures Without(r, key) == r
  {
    if r != [] {
      WithoutNone(r[1..], key);
    }
  }

  lemma {:induction false} SubFewer<V>(a: Recency<V>, b: Recency<V>)
    requires Sub(a, b) && a != []
    ensures b != [] && Sub(a[..|a| - 1], b[..|b| - 1]) && Sub(a[..|a| - 1], b)
  {
    var fewer, shorter := a[..|a| - 1], b[..|b| - 1];
    if a[0] == b[0] && Sub(a[1..], b[1..]) {
      if |a| > 1 {
        SubFewer(a[1..], b[1..]);
        assert fewer == [a[0]] + a[1..][..|a| - 2] && shorter == [b[0]] + b[1..][..|b| - 2] && b == [b[0]] + b[1..];
        SubFront(a[0], a[1..][..|a| - 2], b[1..][..|b| - 2]);
        SubFront(a[0], a[1..][..|a| - 2], b[1..]);
      }
    } else {
      SubFewer(a, b[1..]);
      assert shorter == [b[0]] + b[1..][..|b| - 2] && b == [b[0]] + b[1..];
      SubBehind(b[0], fewer, b[1..][..|b| - 2]);
      SubBehind(b[0], fewer, b[1..]);
    }
  }

  lemma {:induction false} WithoutKeeps<V>(r: Recency<V>, key: string)
    requires OnceEach(r)
    ensures OnceEach(Without(r, key)) && Find(Without(r, key), key).None?
    ensures forall i | 0 <= i < |Without(r, key)| :: Without(r, key)[i] in r
    ensures |Without(r, key)| == if Find(r, key).Some? then |r| - 1 else |r|
  {
    if r != [] {
      var tail := r[1..];
      assert OnceEach(tail);
      if r[0].0 == key {
        FindMember(tail, key);
        assert forall i | 0 <= i < |tail| :: tail[i] == r[i + 1];
      } else {
        WithoutKeeps(tail, key);
        var rest := Without(tail, key);
        assert ([r[0]] + rest)[1..] == rest;
        forall i | 0 <= i < |rest| ensures rest[i].0 != r[0].0 && rest[i] in r {
          var j :| 0 <= j < |tail| && tail[j] == rest[i];
          assert r[j + 1] == rest[i];
        }
      }
    }
  }

  lemma OnceEachFront<V>(x: (string, V), r: Recency<V>)
    requires OnceEach(r) && Find(r, x.0).None?
    ensures OnceEach([x] + r)
  {
    FindMember(r, x.0);
  }

  /** What holds of a cache of size maxSize after any operations. */
  ghost predicate Proper<V>(r: Recency<V>, maxSize: nat) {
    OnceEach(r) && |r| <= maxSize
  }

  lemma {:induction false} ApplyKeepsProper<V>(r: Recency<V>, maxSize: nat, op: Op<V>)
    requires maxSize > 0 && Proper(r, maxSize)
    ensures Proper(Apply(r, maxSize, op), maxSize)
    ensures |Apply(r, maxSize, op)| == if op.GetOp? || Find(r, op.key).Some? || |r| == maxSize then |r| else |r| + 1
  {
    hide Find, Without;
    var rest := Without(r, op.key);
    WithoutKeeps(r, op.key);
    if Find(r, op.key).Some? {
      OnceEachFront((op.key, Find(r, op.key).value), rest);
      if op.PutOp? {
        OnceEachFront((op.key, op.value), rest);
      }
    } else if op.PutOp? {
      OnceEachFront((op.key, op.value), r);
      if r != [] {
        FindShorter(r, |r| - 1, op.key);
        OnceEachFront((op.key, op.value), r[..|r| - 1]);
      }
    }
  }

  /** The smaller cache is a subsequence of the larger, and equal to it until it is full. */
  ghost predicate Included<V>(s: Recency<V>, small: nat, l: Recency<V>) {
    Sub(s, l) && (|s| < small ==> s == l)
  }

  lemma {:induction false} ApplyKeepsIncluded<V>(s: Recency<V>, small: nat, l: Recency<V>, large: nat, op: Op<V>)
    requires 0 < small <= large && Proper(s, small) && Proper(l, large) && Included(s, small, l)
    ensures Included(Apply(s, small, op), small, Apply(l, large, op))
  {
    hide Find, Without, Sub, OnceEach;
    var key := op.key;
    ApplyKeepsProper(s, small, op);
    SubWithout(s, l, key);
    if Find(s, key).Some? {
      SubFind(s, l, key);
      SubFront((key, Find(s, key).value), Without(s, key), Without(l, key));
      if op.PutOp? {
        SubFront((key, op.value), Without(s, key), Without(l, key));
      }
    } else {
      WithoutNone(s, key);
      if Find(l, key).Some? {
        SubBehind((key, Find(l, key).value), s, Without(l, key));
      }
      if op.PutOp? {
        PutKeepsIncluded(s, small, l, large, key, op.value);
      }
    }
  }

  /** Putting a key the smaller cache lacks. */
  lemma PutKeepsIncluded<V>(s: Recency<V>, small: nat, l: Recency<V>, large: nat, key: string, value: V)
    requires 0 < small <= large && |s| <= small && |l| <= large && Included(s, small, l)
    requires Find(s, key).None? && Sub(s, Without(l, key))
    ensures Sub(Stored(s, small, key, value), Stored(l, large, key, value))
    ensures |s| < small ==> Stored(s, small, key, value) == Stored(l, large, key, value)
  {
    hide Find, Without, Sub;
    if |s| < small {
      SubItself(Stored(s, small, key, value));
    } else {
      var there := if Find(l, key).Some? then Without(l, key) else l;
      SubFewer(s, there);
      SubFront((key, value), s[..|s| - 1], there);
      SubFront((key, value), s[..|s| - 1], there[..|there| - 1]);
    }
  }

  /** After any operations, gets and puts in any order, a larger cache holds whatever a smaller one
      holds, with the same values and in the same order. */
  lemma {:induction false} OperationsInclude<V>(ops: seq<Op<V>>, small: nat, large: nat)
    requires 0 < small <= large
    ensures Proper(After(ops, small), small) && Proper(After(ops, large), large)
    ensures Included(After(ops, small), small, After(ops, large))
    ensures forall key :: Find(After(ops, small), key).Some? ==> Find(After(ops, large), key) == Find(After(ops, small), key)
  {
    hide Find, Apply, OnceEach, Sub;
    if ops == [] {
      NothingIncluded<V>(small);
    } else {
      var n := |ops| - 1;
      OperationsInclude(ops[..n], small, large);
      ApplyKeepsProper(After(ops[..n], small), small, ops[n]);
      ApplyKeepsProper(After(ops[..n], large), large, ops[n]);
      ApplyKeepsIncluded(After(ops[..n], small), small, After(ops[..n], large), large, ops[n]);
    }
    forall key ensures Find(After(ops, small), key).Some? ==> Find(After(ops, large), key) == Find(After(ops, small), key) {
      if Find(After(ops, small), key).Some? {
        SubFind(After(ops, small), After(ops, large), key);
      }
    }
  }

  lemma NothingIncluded<V>(small: nat)
    ensures OnceEach<V>([]) && Sub<V>([], [])
  {
  }

  // ----- Requests -----

  /** What a request leaves: it gets, and puts the model it built if it missed. */
  function Requested<V>(r: Recency<V>, maxSize: nat, key: string, built: V): Recency<V> {
    if Find(r, key).Some? then Touched(r, key) else Stored(r, maxSize, key, built)
  }

  method Request<V>(cache: Cache<V>, key: string, built: V) returns (served: V)
    requires cache.Valid()
    modifies cache, cache.lruList
    ensures cache.Valid()
    ensures cache.Contents() == Requested(old(cache.Contents()), cache.maxSize, key, built)
    ensures served == match Find(old(cache.Contents()), key) case Some(v) => v case None => built
  {
    hide Find, Touched, Stored, ContentsOf, Linked;
    TouchedMissing(cache.Contents(), key);
    var found := cache.Get(key);
    if found.Some? {
      return found.value;
    }
    cache.Put(key, built);
    return built;
  }

  lemma TouchedMissing<V>(r: Recency<V>, key: string)
    ensures Find(r, key) == None ==> Touched(r, key) == r
  {
  }

  /** The cache after serving requests in order. */
  function Served<V>(keys: seq<string>, maxSize: nat, model: string -> V): Recency<V> {
    if keys == [] then []
    else
      var n := |keys| - 1;
      Requested(Served(keys[..n], maxSize, model), maxSize, keys[n], model(keys[n]))
  }

  function Minus(keys: seq<string>, key: string): seq<string> {
    if keys == [] then [] else if keys[0] == key then keys[1..] else [keys[0]] + Minus(keys[1..], key)
  }

  /** The distinct keys requested, the most recent first. */
  function Recent(keys: seq<string>): seq<string> {
    if keys == [] then []
    else
      var n := |keys| - 1;
      [keys[n]] + Minus(Recent(keys[..n]), keys[n])
  }

  function Take(keys: seq<string>, n: nat): seq<string> {
    if n == 0 || keys == [] then [] else [keys[0]] + Take(keys[1..], n - 1)
  }

  lemma {:induction false} KeysWithout<V>(r: Recency<V>, key: string)
    ensures Keys(Without(r, key)) == Minus(Keys(r), key)
  {
    if r != [] {
      assert Keys(r)[1..] == Keys(r[1..]);
      if r[0].0 != key {
        KeysWithout(r[1..], key);
        assert Without(r, key)[1..] == Without(r[1..], key);
      }
    }
  }

  lemma KeysFront<V>(k: string, v: V, r: Recency<V>)
    ensures Keys([(k, v)] + r) == [k] + Keys(r)
  {
    assert ([(k, v)] + r)[1..] == r;
  }

  lemma {:induction false} KeysShorter<V>(r: Recency<V>)
    ensures |Keys(r)| == |r|
    ensures r != [] ==> Keys(r[..|r| - 1]) == Keys(r)[..|r| - 1]
  {
    if r != [] {
      KeysShorter(r[1..]);
      if |r| > 1 {
        assert r[..|r| - 1][1..] == r[1..][..|r| - 2];
        assert Keys(r)[..|r| - 1] == [r[0].0] + Keys(r[1..])[..|r| - 2];
      }
    }
  }

  lemma {:induction false} TakeShape(keys: seq<string>, n: nat)
    ensures Take(keys, n) == keys[..if n < |keys| then n else |keys|]
  {
    if n > 0 && keys != [] {
      TakeShape(keys[1..], n - 1);
      assert keys == [keys[0]] + keys[1..];
    }
  }

  lemma TakeNothing(keys: seq<string>, n: nat)
    ensures n == 0 || keys == [] ==> Take(keys, n) == []
  {
  }

  lemma MinusFront(first: string, keys: seq<string>, key: string)
    ensures Minus([first] + keys, key) == if first == key then keys else [first] + Minus(keys, key)
  {
    assert ([first] + keys)[1..] == keys;
  }

  lemma {:induction false} TakeMinusIn(keys: seq<string>, n: nat, key: string)
    requires key in Take(keys, n)
    ensures n > 0 && Minus(Take(keys, n), key) == Take(Minus(keys, key), n - 1)
  {
    hide Take, Minus;
    TakeNothing(keys, n);
    var first, tail, rest := keys[0], keys[1..], Take(keys[1..], n - 1);
    assert keys == [first] + tail;
    TakeFront(first, tail, n);
    MinusFront(first, rest, key);
    MinusFront(first, tail, key);
    if first != key {
      assert key in rest;
      TakeMinusIn(tail, n - 1, key);
      TakeFront(first, Minus(tail, key), n - 1);
    }
  }

  lemma {:induction false} TakeMinusOut(keys: seq<string>, n: nat, key: string)
    requires key !in Take(keys, n) && n > 0
    ensures Take(keys, n - 1) == Take(Minus(keys, key), n - 1)
  {
    if n > 1 && keys != [] {
      assert Take(keys, n) == [keys[0]] + Take(keys[1..], n - 1);
      assert key !in Take(keys[1..], n - 1);
      TakeMinusOut(keys[1..], n - 1, key);
      assert Minus(keys, key)[1..] == Minus(keys[1..], key);
    }
  }

  lemma TakeFront(key: string, keys: seq<string>, n: nat)
    requires n > 0
    ensures Take([key] + keys, n) == [key] + Take(keys, n - 1)
  {
    assert ([key] + keys)[1..] == keys;
  }

  /** One request on the most recent keys. */
  lemma RequestKeys<V>(r: Recency<V>, maxSize: nat, key: string, built: V, recent: seq<string>)
    requires maxSize > 0 && Keys(r) == Take(recent, maxSize)
    ensures Keys(Requested(r, maxSize, key, built)) == Take([key] + Minus(recent, key), maxSize)
  {
    hide Keys, Take, Minus, Find, Without;
    FindIsKey(r, key);
    TakeFront(key, Minus(recent, key), maxSize);
    if key in Keys(r) {
      TakeMinusIn(recent, maxSize, key);
      KeysWithout(r, key);
      KeysFront(key, Find(r, key).value, Without(r, key));
    } else {
      TakeMinusOut(recent, maxSize, key);
      KeysShorter(r);
      TakeShape(recent, maxSize);
      TakeShape(recent, maxSize - 1);
      KeysFront(key, built, r);
      if r != [] {
        KeysFront(key, built, r[..|r| - 1]);
      }
    }
  }

  /** After any requests the cache holds exactly the most recently requested distinct keys, as many as fit. */
  lemma {:induction false} HoldsMostRecent<V>(keys: seq<string>, maxSize: nat, model: string -> V)
    requires maxSize > 0
    ensures Keys(Served(keys, maxSize, model)) == Take(Recent(keys), maxSize)
  {
    hide Requested, Take, Minus;
    if keys == [] {
      TakeShape([], maxSize);
    } else {
      var n := |keys| - 1;
      HoldsMostRecent(keys[..n], maxSize, model);
      RequestKeys(Served(keys[..n], maxSize, model), maxSize, keys[n], model(keys[n]), Recent(keys[..n]));
    }
  }

  /** What a larger cache holds after the same requests begins with what a smaller one holds. */
  lemma LargerIncludesSmaller<V>(keys: seq<string>, small: nat, large: nat, model: string -> V)
    requires 0 < small <= large
    ensures Keys(Served(keys, small, model)) <= Keys(Served(keys, large, model))
    ensures forall key :: Find(Served(keys, small, model), key).Some? ==> Find(Served(keys, large, model), key).Some?
  {
    hide Served, Take, Recent, Keys, Find;
    HoldsMostRecent(keys, small, model);
    HoldsMostRecent(keys, large, model);
    TakeShape(Recent(keys), small);
    TakeShape(Recent(keys), large);
    forall key ensures Find(Served(keys, small, model), key).Some? ==> Find(Served(keys, large, model), key).Some? {
      FindIsKey(Served(keys, small, model), key);
      FindIsKey(Served(keys, large, model), key);
    }
  }

  // ----- What Recent lists -----

  /** Where a key was last requested; -1 if never. */
  function LastAt(keys: seq<string>, key: string): int {
    if keys == [] then -1 else if keys[|keys| - 1] == key then |keys| - 1 else LastAt(keys[..|keys| - 1], key)
  }

  lemma {:induction false} LastAtBounds(keys: seq<string>, key: string)
    ensures -1 <= LastAt(keys, key) < |keys| && (LastAt(keys, key) >= 0 <==> key in keys)
  {
    if keys != [] {
      LastAtBounds(keys[..|keys| - 1], key);
    }
  }

  ghost predicate ByRecency(keys: seq<string>, some: seq<string>) {
    forall i, j | 0 <= i < j < |some| :: LastAt(keys, some[i]) > LastAt(keys, some[j])
  }

  lemma DistinctFront(key: string, keys: seq<string>)
    requires Distinct(keys) && key !in keys
    ensures Distinct([key] + keys)
  {
  }

  lemma {:induction false} MinusMembers(some: seq<string>, key: string)
    requires Distinct(some)
    ensures Distinct(Minus(some, key)) && forall k :: k in Minus(some, key) <==> k in some && k != key
  {
    if some != [] {
      var rest := some[1..];
      assert some == [some[0]] + rest;
      assert some[0] !in rest;
      if some[0] != key {
        MinusMembers(rest, key);
        DistinctFront(some[0], Minus(rest, key));
      }
    }
  }

  lemma ByRecencyFront(keys: seq<string>, key: string, some: seq<string>)
    requires ByRecency(keys, some) && forall k | k in some :: LastAt(keys, key) > LastAt(keys, k)
    ensures ByRecency(keys, [key] + some)
  {
    hide LastAt;
  }

  lemma {:induction false} MinusOrdered(keys: seq<string>, some: seq<string>, key: string)
    requires ByRecency(keys, some)
    ensures ByRecency(keys, Minus(some, key)) && forall k | k in Minus(some, key) :: k in some
  {
    hide LastAt;
    if some != [] {
      var rest := some[1..];
      assert some == [some[0]] + rest;
      forall k | k in rest ensures LastAt(keys, some[0]) > LastAt(keys, k) {
        var j :| 0 <= j < |rest| && rest[j] == k;
        assert some[j + 1] == k;
      }
      MinusOrdered(keys, rest, key);
      ByRecencyFront(keys, some[0], Minus(rest, key));
    }
  }

  /** Recent lists the requested keys, each once, the one requested last first. */
  lemma {:induction false} RecentMeaning(keys: seq<string>)
    ensures ByRecency(keys, Recent(keys)) && Distinct(Recent(keys)) && forall k :: k in Recent(keys) <==> k in keys
  {
    hide LastAt, Minus;
    if keys != [] {
      var n := |keys| - 1;
      var before, rest := Recent(keys[..n]), Minus(Recent(keys[..n]), keys[n]);
      RecentMeaning(keys[..n]);
      MinusMembers(before, keys[n]);
      MinusOrdered(keys[..n], before, keys[n]);
      forall i | 0 <= i < |rest| ensures LastAt(keys, rest[i]) == LastAt(keys[..n], rest[i]) < n == LastAt(keys, keys[n]) {
        LastAtNext(keys, rest[i]);
        LastAtNext(keys, keys[n]);
        LastAtBounds(keys[..n], rest[i]);
        assert rest[i] in rest;
      }
      forall k ensures k in Recent(keys) <==> k in keys {
        assert k in keys <==> k in keys[..n] || k == keys[n];
      }
    }
  }

  lemma LastAtNext(keys: seq<string>, key: string)
    requires keys != []
    ensures LastAt(keys, key) == if keys[|keys| - 1] == key then |keys| - 1 else LastAt(keys[..|keys| - 1], key)
  {
  }
}
