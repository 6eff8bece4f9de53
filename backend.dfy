/** The backend canister: a map from post identifiers to posts, behind the
    query calls `get`, `get_posts` and the update calls `insert`, `vote`,
    `remove` (backend/src/lib.rs). */
module Backend {
  import opened Wrappers

  /** Rust's `u32` and `i32`. */
  type u32 = x: int | 0 <= x < 0x1_0000_0000
  type i32 = x: int | -0x8000_0000 <= x < 0x8000_0000

  predicate InI32(x: int) {
    -0x8000_0000 <= x < 0x8000_0000
  }

  /** The stored record `Item`. */
  datatype Item = Item(id: u32, content: string, votes: i32)

  type Items = map<u32, Item>

  /** The structural invariant of the store: every item sits under its own id. */
  ghost predicate KeyedById(m: Items) {
    forall k :: k in m ==> m[k].id == k
  }

  /** What a lookup of `key` in `m` yields. */
  function Lookup(m: Items, key: u32): (r: Option<Item>)
    ensures r.Some? <==> key in m
    ensures r.Some? ==> r.value == m[key]
  {
    if key in m then Some(m[key]) else None
  }

  /** The identifiers that occur in a list of items. */
  ghost function Ids(r: seq<Item>): set<u32> {
    set i | 0 <= i < |r| :: r[i].id
  }

  /** `r` lists the values of `m` in ascending key order, one entry per key
      (the iteration order of a B-tree map whose items are keyed by id). */
  ghost predicate InKeyOrder(r: seq<Item>, m: Items) {
    && (forall i, j :: 0 <= i < j < |r| ==> r[i].id < r[j].id)
    && (forall i :: 0 <= i < |r| ==> r[i].id in m && m[r[i].id] == r[i])
    && Ids(r) == m.Keys
  }

  /** The least element of a non-empty set of keys. */
  ghost function LeastKey(s: set<u32>): (k: u32)
    requires s != {}
    ensures k in s && forall j :: j in s ==> k <= j
  {
    var x :| x in s;
    if s - {x} == {} then
      assert forall j :: j in s ==> j == x || j in s - {x};
      x
    else
      var k := LeastKey(s - {x});
      assert forall j :: j in s ==> j == x || j in s - {x};
      if x < k then x else k
  }

  lemma IdsSnoc(r: seq<Item>, x: Item)
    ensures Ids(r + [x]) == Ids(r) + {x.id}
  {
    var r' := r + [x];
    forall k | k in Ids(r') ensures k in Ids(r) + {x.id} {
      var i :| 0 <= i < |r'| && r'[i].id == k;
      if i < |r| { assert r[i] == r'[i]; }
    }
    forall k | k in Ids(r) + {x.id} ensures k in Ids(r') {
      if k == x.id {
        assert r'[|r|].id == k;
      } else {
        var i :| 0 <= i < |r| && r[i].id == k;
        assert r'[i].id == k;
      }
    }
  }

  /** The head of an in-order listing carries the least key, and dropping it
      leaves an in-order listing of the rest of the map. */
  lemma InKeyOrderUncons(r: seq<Item>, m: Items)
    requires InKeyOrder(r, m) && r != []
    ensures forall k :: k in m ==> r[0].id <= k
    ensures InKeyOrder(r[1..], m - {r[0].id})
  {
    forall k | k in m ensures r[0].id <= k {
      assert k in Ids(r);
      var i :| 0 <= i < |r| && r[i].id == k;
    }
    var t := r[1..];
    var m' := m - {r[0].id};
    forall i | 0 <= i < |t| ensures t[i].id in m' && m'[t[i].id] == t[i] {
      assert t[i] == r[i + 1];
    }
    forall k | k in Ids(t) ensures k in m'.Keys {
      var i :| 0 <= i < |t| && t[i].id == k;
      assert t[i] == r[i + 1];
    }
    forall k | k in m'.Keys ensures k in Ids(t) {
      assert k in Ids(r);
      var i :| 0 <= i < |r| && r[i].id == k;
      assert i != 0;
      assert t[i - 1].id == k;
    }
  }

  /** Two in-order listings of the same map agree on their first entries. */
  lemma InKeyOrderSameHead(r1: seq<Item>, r2: seq<Item>, m: Items)
    requires InKeyOrder(r1, m) && InKeyOrder(r2, m)
    ensures r1 == [] <==> r2 == []
    ensures r1 != [] ==> r1[0] == r2[0]
  {
    if r1 != [] {
      assert r1[0].id in Ids(r1);
    }
    if r2 != [] {
      assert r2[0].id in Ids(r2);
    }
    if r1 != [] && r2 != [] {
      InKeyOrderUncons(r1, m);
      InKeyOrderUncons(r2, m);
    }
  }

  /** The in-order listing of a map is unique: whatever produces one
      produces exactly the same sequence. */
  lemma {:induction false} InKeyOrderUnique(r1: seq<Item>, r2: seq<Item>, m: Items)
    requires InKeyOrder(r1, m) && InKeyOrder(r2, m)
    ensures r1 == r2
    decreases |r1|
  {
    InKeyOrderSameHead(r1, r2, m);
    if r1 != [] {
      InKeyOrderUncons(r1, m);
      InKeyOrderUncons(r2, m);
      InKeyOrderUnique(r1[1..], r2[1..], m - {r1[0].id});
      assert r1 == [r1[0]] + r1[1..] && r2 == [r2[0]] + r2[1..];
    }
  }

  /** An in-order listing has exactly one entry per key. */
  lemma {:induction false} InKeyOrderLength(r: seq<Item>, m: Items)
    requires InKeyOrder(r, m)
    ensures |r| == |m|
    decreases |r|
  {
    if r == [] {
      assert m.Keys == {};
      assert m == map[];
    } else {
      InKeyOrderUncons(r, m);
      InKeyOrderLength(r[1..], m - {r[0].id});
      assert r[0].id in Ids(r);
      assert (m - {r[0].id}).Keys == m.Keys - {r[0].id};
    }
  }

  /** The canister's stable `ITEMS` map. */
  class PostStore {
    var items: Items

    ghost predicate Valid()
      reads this
    {
      KeyedById(items)
    }

    /** A freshly installed canister starts with an empty map. */
    constructor ()
      ensures Valid() && items == map[]
    {
      items := map[];
    }

    /** Query `get`: the item stored under `key`, if any. */
    method Get(key: u32) returns (r: Option<Item>)
      ensures r.Some? <==> key in items
      ensures r.Some? ==> r.value == items[key]
    {
      r := if key in items then Some(items[key]) else None;
    }

    /** Query `get_posts`: all stored items, in ascending key order. */
    method GetPosts() returns (r: seq<Item>)
      requires Valid()
      ensures InKeyOrder(r, items)
    {
      r := [];
      var rest := items.Keys;
      while rest != {}
        invariant rest <= items.Keys
        invariant forall i, j :: 0 <= i < j < |r| ==> r[i].id < r[j].id
        invariant forall i :: 0 <= i < |r| ==> r[i].id in items && items[r[i].id] == r[i]
        invariant forall i, k :: 0 <= i < |r| && k in rest ==> r[i].id < k
        invariant Ids(r) == items.Keys - rest
        decreases rest
      {
        ghost var least := LeastKey(rest);
        var k :| k in rest && forall j :: j in rest ==> k <= j;
        IdsSnoc(r, items[k]);
        r := r + [items[k]];
        rest := rest - {k};
      }
    }

    /** Update `insert`: stores `value` under its own id and returns what was
        stored there before. */
    method Insert(value: Item) returns (prev: Option<Item>)
      requires Valid()
      modifies this
      ensures Valid()
      ensures prev == Lookup(old(items), value.id)
      ensures items == old(items)[value.id := value]
      ensures Lookup(items, value.id) == Some(value)
      ensures forall k :: k != value.id ==> Lookup(items, k) == Lookup(old(items), k)
    {
      var key := value.id;
      prev := Lookup(items, key);
      items := items[key := value];
    }

    /** Update `vote`: adds `increment` to the votes of the item under `key`,
        stores the bumped copy under the same key and returns it. The source
        unwraps the lookup, so a missing key traps; `votes += increment` on an
        `i32` is only defined while the sum stays in range. */
    method Vote(key: u32, increment: i32) returns (r: Option<Item>)
      requires Valid()
      requires key in items
      requires InI32(items[key].votes + increment)
      modifies this
      ensures Valid()
      ensures var p := old(items)[key];
        r == Some(Item(p.id, p.content, p.votes + increment))
      ensures items == old(items)[key := r.value]
      ensures forall k :: k != key ==> Lookup(items, k) == Lookup(old(items), k)
    {
      var post := items[key];
      post := post.(votes := post.votes + increment);
      items := items[key := post];
      r := Some(post);
    }

    /** Update `remove`: deletes the entry under `key` and returns it. */
    method Remove(key: u32) returns (r: Option<Item>)
      requires Valid()
      modifies this
      ensures Valid()
      ensures r == Lookup(old(items), key)
      ensures items == old(items) - {key}
      ensures key !in items
      ensures forall k :: k != key ==> Lookup(items, k) == Lookup(old(items), k)
    {
      r := Lookup(items, key);
      items := items - {key};
    }
  }

  /** Two `remove` calls on the same key: the second returns nothing and
      changes nothing. */
  method RemoveTwice(store: PostStore, key: u32) returns (first: Option<Item>, second: Option<Item>)
    requires store.Valid()
    modifies store
    ensures first == Lookup(old(store.items), key)
    ensures second == None
    ensures store.Valid() && store.items == old(store.items) - {key}
  {
    first := store.Remove(key);
    second := store.Remove(key);
  }
}
