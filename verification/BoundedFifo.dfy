/** A FIFO of keys with lazy deletion (gpu/boundedfifo.go).
    The owner keeps the values, each stamped with the number its insertion was given;
    a position counts only while the owner still holds its key under its number. */
module BoundedFifo {
  import opened Machine

  datatype Position<K> = Position(key: K, num: nat)

  /** A value in its owner's map. */
  datatype Stamped<V> = Stamped(num: nat, value: V)

  datatype Item<K, V> = Item(key: K, value: V)

  predicate Live<K(==), V>(p: Position<K>, owner: map<K, Stamped<V>>) {
    p.key in owner && owner[p.key].num == p.num
  }

  /** The plain queue behind the positions: what the live ones stand for, oldest first. */
  function Alive<K(==), V>(ps: seq<Position<K>>, owner: map<K, Stamped<V>>): seq<Item<K, V>> {
    if ps == [] then []
    else if Live(ps[0], owner) then [Item(ps[0].key, owner[ps[0].key].value)] + Alive(ps[1..], owner)
    else Alive(ps[1..], owner)
  }

  /** Every key the owner holds has its position. */
  ghost predicate Covered<K(!new), V(!new)>(ps: seq<Position<K>>, owner: map<K, Stamped<V>>) {
    forall k :: k in owner ==> Position(k, owner[k].num) in ps
  }

  /** Numbers only grow along the positions, up to the last one handed out. */
  ghost predicate Rising<K(!new)>(ps: seq<Position<K>>, last: nat) {
    && (forall p :: p in ps ==> p.num <= last)
    && (ps == [] || ((forall p :: p in ps[1..] ==> p.num > ps[0].num) && Rising(ps[1..], last)))
  }

  ghost predicate Tracks<K(!new), V(!new)>(ps: seq<Position<K>>, last: nat, owner: map<K, Stamped<V>>) {
    Rising(ps, last) && Covered(ps, owner)
  }

  function SkipDead<K(==), V>(ps: seq<Position<K>>, owner: map<K, Stamped<V>>): seq<Position<K>> {
    if ps == [] || Live(ps[0], owner) then ps else SkipDead(ps[1..], owner)
  }

  // ----- Plain queues.

  predicate Holds<K(==), V>(q: seq<Item<K, V>>, key: K) {
    exists i :: 0 <= i < |q| && q[i].key == key
  }

  ghost predicate Distinct<K, V>(q: seq<Item<K, V>>) {
    forall i, j :: 0 <= i < j < |q| ==> q[i].key != q[j].key
  }

  function Without<K(==), V>(q: seq<Item<K, V>>, key: K): seq<Item<K, V>> {
    if q == [] then []
    else if q[0].key == key then Without(q[1..], key)
    else [q[0]] + Without(q[1..], key)
  }

  /** The value held for one key changed where it stands. */
  function Revalued<K(==), V>(q: seq<Item<K, V>>, key: K, value: V): (r: seq<Item<K, V>>)
    ensures |r| == |q|
    ensures forall i :: 0 <= i < |q| ==> r[i].key == q[i].key
    ensures forall i :: 0 <= i < |q| ==> r[i].value == if q[i].key == key then value else q[i].value
  {
    if q == [] then []
    else [if q[0].key == key then Item(key, value) else q[0]] + Revalued(q[1..], key, value)
  }

  lemma {:induction false} WithoutDrops<K(!new), V(!new)>(q: seq<Item<K, V>>, key: K)
    ensures forall x :: x in Without(q, key) <==> x in q && x.key != key
    ensures !Holds(q, key) ==> Without(q, key) == q
  {
    if q != [] {
      WithoutDrops(q[1..], key);
      assert q == [q[0]] + q[1..];
      assert Holds(q[1..], key) ==> Holds(q, key) by {
        assert forall i :: 0 <= i < |q[1..]| ==> q[1..][i] == q[i + 1];
      }
    }
  }

  lemma {:induction false} WithoutDistinct<K(!new), V(!new)>(q: seq<Item<K, V>>, key: K)
    requires Distinct(q)
    ensures Distinct(Without(q, key))
    ensures |Without(q, key)| == |q| - if Holds(q, key) then 1 else 0
  {
    if q != [] {
      assert q == [q[0]] + q[1..];
      WithoutDistinct(q[1..], key);
      WithoutDrops(q[1..], key);
      if q[0].key == key {
        assert !Holds(q[1..], key) by {
          assert forall i :: 0 <= i < |q[1..]| ==> q[1..][i] == q[i + 1];
        }
      } else {
        var r := Without(q[1..], key);
        forall i | 0 <= i < |r| ensures r[i].key != q[0].key {
          assert r[i] in r;
        }
        assert Holds(q, key) <==> Holds(q[1..], key) by {
          assert forall i :: 0 <= i < |q[1..]| ==> q[1..][i] == q[i + 1];
        }
      }
    }
  }

  // ----- The queue behind the positions.

  lemma {:induction false} AliveHolds<K(!new), V(!new)>(ps: seq<Position<K>>, owner: map<K, Stamped<V>>, k: K)
    ensures Holds(Alive(ps, owner), k) <==> k in owner && Position(k, owner[k].num) in ps
    ensures forall i :: 0 <= i < |Alive(ps, owner)| ==>
      var x := Alive(ps, owner)[i]; x.key in owner && owner[x.key].value == x.value
  {
    if ps != [] {
      AliveHolds(ps[1..], owner, k);
      assert ps == [ps[0]] + ps[1..];
      var q, r := Alive(ps, owner), Alive(ps[1..], owner);
      if Live(ps[0], owner) {
        assert q[0].key == ps[0].key;
        assert forall i :: 0 <= i < |r| ==> q[i + 1] == r[i];
      }
    }
  }

  lemma {:induction false} AliveAppend<K(!new), V(!new)>(ps: seq<Position<K>>, qs: seq<Position<K>>,
                                                         owner: map<K, Stamped<V>>)
    ensures Alive(ps + qs, owner) == Alive(ps, owner) + Alive(qs, owner)
  {
    if ps == [] {
      assert ps + qs == qs;
    } else {
      assert (ps + qs)[1..] == ps[1..] + qs;
      AliveAppend(ps[1..], qs, owner);
    }
  }

  /** Stamping a key anew kills its earlier positions and no others. */
  lemma {:induction false} RestampKills<K(!new), V(!new)>(ps: seq<Position<K>>, owner: map<K, Stamped<V>>, key: K,
                                                          e: Stamped<V>)
    requires forall p :: p in ps ==> p.num < e.num
    ensures Alive(ps, owner[key := e]) == Without(Alive(ps, owner), key)
  {
    if ps != [] {
      assert ps == [ps[0]] + ps[1..];
      RestampKills(ps[1..], owner, key, e);
    }
  }

  lemma AliveOne<K(!new), V(!new)>(p: Position<K>, owner: map<K, Stamped<V>>)
    requires Live(p, owner)
    ensures Alive([p], owner) == [Item(p.key, owner[p.key].value)]
  {
    assert [p][1..] == [];
  }

  lemma {:induction false} InsertRises<K(!new)>(ps: seq<Position<K>>, last: nat, key: K)
    requires Rising(ps, last)
    ensures Rising(ps + [Position(key, last + 1)], last + 1)
  {
    var grown := ps + [Position(key, last + 1)];
    if ps == [] {
      assert Rising(grown[1..], last + 1);
    } else {
      InsertRises(ps[1..], last, key);
      assert grown[1..] == ps[1..] + [Position(key, last + 1)];
      assert ps == [ps[0]] + ps[1..];
    }
  }

  lemma InsertTracks<K(!new), V(!new)>(ps: seq<Position<K>>, last: nat, owner: map<K, Stamped<V>>, key: K, value: V)
    requires Tracks(ps, last, owner)
    ensures Tracks(ps + [Position(key, last + 1)], last + 1, owner[key := Stamped(last + 1, value)])
  {
    InsertRises(ps, last, key);
  }

  /** Inserting puts the key at the back of the queue, wherever it stood before. */
  lemma InsertQueues<K(!new), V(!new)>(ps: seq<Position<K>>, last: nat, owner: map<K, Stamped<V>>, key: K, value: V)
    requires Rising(ps, last)
    ensures Alive(ps + [Position(key, last + 1)], owner[key := Stamped(last + 1, value)])
      == Without(Alive(ps, owner), key) + [Item(key, value)]
  {
    var p, e := Position(key, last + 1), Stamped(last + 1, value);
    RestampKills(ps, owner, key, e);
    AliveAppend(ps, [p], owner[key := e]);
    AliveOne(p, owner[key := e]);
  }

  /** Changing a held value under its own number changes it in the queue, in place. */
  lemma {:induction false} UpdateRevalues<K(!new), V(!new)>(ps: seq<Position<K>>, owner: map<K, Stamped<V>>, key: K,
                                                            value: V)
    requires key in owner
    ensures Alive(ps, owner[key := Stamped(owner[key].num, value)]) == Revalued(Alive(ps, owner), key, value)
  {
    if ps != [] {
      UpdateRevalues(ps[1..], owner, key, value);
    }
  }

  lemma UpdateTracks<K(!new), V(!new)>(ps: seq<Position<K>>, last: nat, owner: map<K, Stamped<V>>, key: K, value: V)
    requires key in owner && Tracks(ps, last, owner)
    ensures Tracks(ps, last, owner[key := Stamped(owner[key].num, value)])
  {
  }

  /** Deleting a key the remaining positions do not carry changes nothing for them. */
  lemma {:induction false} DropUnseen<K(!new), V(!new)>(ps: seq<Position<K>>, owner: map<K, Stamped<V>>, key: K)
    requires key in owner && Position(key, owner[key].num) !in ps
    ensures Alive(ps, owner - {key}) == Alive(ps, owner)
  {
    if ps != [] {
      assert ps == [ps[0]] + ps[1..];
      DropUnseen(ps[1..], owner, key);
    }
  }

  /** Deleting a key whose position stays behind takes it out of the queue. */
  lemma {:induction false} DropSkips<K(!new), V(!new)>(ps: seq<Position<K>>, owner: map<K, Stamped<V>>, key: K)
    ensures Alive(ps, owner - {key}) == Without(Alive(ps, owner), key)
  {
    if ps != [] {
      DropSkips(ps[1..], owner, key);
    }
  }

  lemma {:induction false} SkipKeeps<K(!new), V(!new)>(ps: seq<Position<K>>, last: nat, owner: map<K, Stamped<V>>)
    requires Tracks(ps, last, owner)
    ensures Tracks(SkipDead(ps, owner), last, owner)
    ensures Alive(SkipDead(ps, owner), owner) == Alive(ps, owner)
    ensures SkipDead(ps, owner) != [] ==> Live(SkipDead(ps, owner)[0], owner)
  {
    if ps != [] && !Live(ps[0], owner) {
      assert ps == [ps[0]] + ps[1..];
      SkipKeeps(ps[1..], last, owner);
    }
  }

  /** Taking the oldest live position and deleting its key takes the front of the queue. */
  lemma TakeFront<K(!new), V(!new)>(ps: seq<Position<K>>, last: nat, owner: map<K, Stamped<V>>)
    requires Tracks(ps, last, owner) && ps != [] && Live(ps[0], owner)
    ensures var key := ps[0].key;
      && Tracks(ps[1..], last, owner - {key})
      && Alive(ps, owner) == [Item(key, owner[key].value)] + Alive(ps[1..], owner - {key})
      && Position(key, owner[key].num) !in ps[1..]
  {
    var key := ps[0].key;
    assert ps == [ps[0]] + ps[1..];
    assert Position(key, owner[key].num) !in ps[1..];
    DropUnseen(ps[1..], owner, key);
  }

  /** The queue has one item for each key held: eviction cannot come up empty while the
      owner holds anything. */
  lemma {:induction false} QueueSize<K(!new), V(!new)>(ps: seq<Position<K>>, last: nat, owner: map<K, Stamped<V>>)
    requires Tracks(ps, last, owner)
    ensures |Alive(ps, owner)| == |owner|
  {
    if ps == [] {
      assert forall k :: k in owner ==> Position(k, owner[k].num) in ps;
      assert owner == map[];
    } else if Live(ps[0], owner) {
      TakeFront(ps, last, owner);
      QueueSize(ps[1..], last, owner - {ps[0].key});
      SizeWithout(owner, ps[0].key);
    } else {
      assert ps == [ps[0]] + ps[1..];
      QueueSize(ps[1..], last, owner);
    }
  }

  lemma {:induction false} QueueDistinct<K(!new), V(!new)>(ps: seq<Position<K>>, last: nat, owner: map<K, Stamped<V>>)
    requires Tracks(ps, last, owner)
    ensures Distinct(Alive(ps, owner))
  {
    if ps != [] {
      assert ps == [ps[0]] + ps[1..];
      if Live(ps[0], owner) {
        TakeFront(ps, last, owner);
        QueueDistinct(ps[1..], last, owner - {ps[0].key});
        AliveHolds(ps[1..], owner - {ps[0].key}, ps[0].key);
      } else {
        QueueDistinct(ps[1..], last, owner);
      }
    }
  }

  /** One eviction, as its owner sees it: the front of the queue, and only that, is gone. */
  lemma EvictStep<K(!new), V(!new)>(ps: seq<Position<K>>, last: nat, owner: map<K, Stamped<V>>)
    requires Tracks(ps, last, owner)
    ensures var a := SkipDead(ps, owner);
      && Tracks(a, last, owner)
      && Alive(a, owner) == Alive(ps, owner)
      && (a == [] <==> |owner| == 0)
      && (a != [] ==>
            && Live(a[0], owner)
            && SkipDead(a, owner) == a
            && |owner - {a[0].key}| == |owner| - 1
            && Tracks(a[1..], last, owner - {a[0].key})
            && Alive(ps, owner) == [Item(a[0].key, owner[a[0].key].value)] + Alive(a[1..], owner - {a[0].key}))
  {
    SkipKeeps(ps, last, owner);
    QueueSize(ps, last, owner);
    var a := SkipDead(ps, owner);
    if a != [] {
      TakeFront(a, last, owner);
      SizeWithout(owner, a[0].key);
    }
  }

  class OrderedFIFO<K(==)> {
    var order: seq<Position<K>>
    var head: nat
    var num: nat

    ghost predicate Valid() reads this { head <= |order| }

    /** The positions not yet passed: all that an owner can observe. */
    ghost function Rest(): seq<Position<K>>
      requires Valid()
      reads this
    {
      order[head..]
    }

    constructor ()
      ensures Valid() && Rest() == [] && num == 0
    {
      order, head, num := [], 0, 0;
    }

    method Insert(key: K) returns (stamp: nat)
      requires Valid()
      modifies this
      ensures Valid() && stamp == num == old(num) + 1
      ensures Rest() == old(Rest()) + [Position(key, stamp)]
    {
      num := num + 1;
      order := order + [Position(key, num)];
      stamp := num;
    }

    /** Pops the oldest live position; the owner then deletes its key. */
    method EvictOldestLive<V>(owner: map<K, Stamped<V>>) returns (key: Option<K>)
      requires Valid()
      modifies this
      ensures Valid() && num == old(num)
      ensures var alive := SkipDead(old(Rest()), owner);
        if alive == [] then key == None && Rest() == []
        else key == Some(alive[0].key) && Rest() == alive[1..]
    {
      while head < |order|
        invariant Valid() && num == old(num) && order == old(order)
        invariant SkipDead(Rest(), owner) == SkipDead(old(Rest()), owner)
      {
        var p := order[head];
        ghost var was := Rest();
        head := head + 1;
        assert Rest() == was[1..];
        if Live(p, owner) {
          Compact();
          return Some(p.key);
        }
      }
      Compact();
      key := None;
    }

    /** Passes the dead positions only. */
    method PeekOldestLive<V>(owner: map<K, Stamped<V>>) returns (key: Option<K>)
      requires Valid()
      modifies this
      ensures Valid() && num == old(num)
      ensures Rest() == SkipDead(old(Rest()), owner)
      ensures key == if Rest() == [] then None else Some(Rest()[0].key)
    {
      while head < |order|
        invariant Valid() && num == old(num) && order == old(order)
        invariant SkipDead(Rest(), owner) == SkipDead(old(Rest()), owner)
      {
        var p := order[head];
        if Live(p, owner) {
          Compact();
          return Some(p.key);
        }
        ghost var was := Rest();
        head := head + 1;
        assert Rest() == was[1..];
      }
      Compact();
      key := None;
    }

    /** Reclaims the passed prefix; no owner can tell. */
    method Compact()
      requires Valid()
      modifies this
      ensures Valid() && num == old(num) && Rest() == old(Rest())
      ensures old(head < 1024 || head * 2 < |order|) ==> head == old(head) && order == old(order)
      ensures !old(head < 1024 || head * 2 < |order|) ==> head == 0
    {
      if head < 1024 || head * 2 < |order| {
        return;
      }
      order := order[head..];
      head := 0;
    }
  }
}
