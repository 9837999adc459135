/**
 * One room's entry of the registry in backend/socket/index.js: a JavaScript
 * `Map` from socket id to `{ userId, username, socketId }`. A `Map` keeps its
 * keys in insertion order, and `set` on a present key replaces the value in
 * place, so the table is a sequence of peers whose socket ids are unique.
 */
module PeerTable {
  import opened Seqs

  type SocketId = string
  type UserId = string

  /** The record stored for a socket: `{ userId, username, socketId }`. */
  datatype Peer = Peer(userId: UserId, username: string, socketId: SocketId)

  type Table = seq<Peer>

  /** A `Map` holds each key once. */
  predicate UniqueIds(t: Table) {
    forall i, j :: 0 <= i < j < |t| ==> t[i].socketId != t[j].socketId
  }

  /** The keys of the `Map`. */
  function Ids(t: Table): set<SocketId> {
    set p | p in t :: p.socketId
  }

  /** A key-unique table stays key-unique after its first record is taken off. */
  lemma TailUnique(t: Table)
    requires t != [] && UniqueIds(t)
    ensures UniqueIds(t[1..]) && t[0].socketId !in Ids(t[1..])
  {
    forall q | q in t[1..]
      ensures q.socketId != t[0].socketId
    {
      var j :| 0 <= j < |t[1..]| && t[1..][j] == q;
      assert t[j + 1] == q;
    }
  }

  /** Putting a record with a new key in front keeps the table key-unique. */
  lemma ConsUnique(p: Peer, t: Table)
    requires UniqueIds(t) && p.socketId !in Ids(t)
    ensures UniqueIds([p] + t)
  {
    forall i, j | 0 <= i < j < |[p] + t|
      ensures ([p] + t)[i].socketId != ([p] + t)[j].socketId
    {
      if i == 0 {
        assert ([p] + t)[j] == t[j - 1] && t[j - 1] in t;
      }
    }
  }

  lemma IdsCons(p: Peer, t: Table)
    ensures Ids([p] + t) == {p.socketId} + Ids(t)
  {
    assert forall q :: q in [p] + t <==> q == p || q in t;
  }

  /**
   * `map.set(p.socketId, p)`: replaces the entry with that key where it
   * stands, or appends a new one.
   */
  function Set(t: Table, p: Peer): (r: Table)
    ensures Ids(r) == Ids(t) + {p.socketId}
    ensures p in r
    ensures UniqueIds(t) ==> UniqueIds(r)
    ensures |r| == if p.socketId in Ids(t) then |t| else |t| + 1
    ensures forall q :: q in t && q.socketId != p.socketId ==> q in r
    ensures forall q :: q in r ==> q == p || q in t
  {
    if t == [] then [p]
    else if t[0].socketId == p.socketId then
      assert t == [t[0]] + t[1..];
      IdsCons(t[0], t[1..]);
      IdsCons(p, t[1..]);
      assert UniqueIds(t) ==> UniqueIds([p] + t[1..]) by {
        if UniqueIds(t) {
          TailUnique(t);
          ConsUnique(p, t[1..]);
        }
      }
      [p] + t[1..]
    else
      var rest := Set(t[1..], p);
      assert t == [t[0]] + t[1..];
      IdsCons(t[0], t[1..]);
      IdsCons(t[0], rest);
      assert UniqueIds(t) ==> UniqueIds([t[0]] + rest) by {
        if UniqueIds(t) {
          TailUnique(t);
          ConsUnique(t[0], rest);
        }
      }
      [t[0]] + rest
  }

  /**
   * The entries whose key is not `id`, in order: both `map.delete(id)` and the
   * `filter(([id]) => id !== socket.id)` that builds the existing-peers list.
   */
  function Without(t: Table, id: SocketId): (r: Table)
    ensures FilteredBy(t, id, r)
  {
    if t == [] then []
    else
      var rest := Without(t[1..], id);
      assert t == [t[0]] + t[1..];
      if t[0].socketId == id then
        WithoutDropsHead(t[0], t[1..], id, rest);
        rest
      else
        WithoutKeepsHead(t[0], t[1..], id, rest);
        [t[0]] + rest
  }

  /**
   * `rest` is `s` filtered by key: the keys lose `id`, the records kept are
   * exactly those with other keys, keys stay unique, it is no longer, and it
   * is `s` itself when `s` does not hold `id`.
   */
  ghost predicate FilteredBy(s: Table, id: SocketId, rest: Table) {
    && Ids(rest) == Ids(s) - {id}
    && (forall q :: q in rest <==> q in s && q.socketId != id)
    && (UniqueIds(s) ==> UniqueIds(rest))
    && |rest| <= |s|
    && (id !in Ids(s) ==> rest == s)
  }

  /** The step of `Without` that drops a head record with key `id`. */
  lemma WithoutDropsHead(p: Peer, s: Table, id: SocketId, rest: Table)
    requires p.socketId == id && FilteredBy(s, id, rest)
    ensures FilteredBy([p] + s, id, rest)
  {
    var t := [p] + s;
    assert t[0] == p && t[1..] == s;
    IdsCons(p, s);
    if UniqueIds(t) {
      TailUnique(t);
    }
  }

  /** The step of `Without` that keeps a head record whose key is not `id`. */
  lemma WithoutKeepsHead(p: Peer, s: Table, id: SocketId, rest: Table)
    requires p.socketId != id && FilteredBy(s, id, rest)
    ensures FilteredBy([p] + s, id, [p] + rest)
  {
    var t := [p] + s;
    assert t[0] == p && t[1..] == s;
    IdsCons(p, s);
    IdsCons(p, rest);
    if UniqueIds(t) {
      TailUnique(t);
      ConsUnique(p, rest);
    }
  }

  /** `set` with a key the `Map` does not hold appends the record at the end. */
  lemma {:induction false} SetAppendsNewKey(t: Table, p: Peer)
    requires p.socketId !in Ids(t)
    ensures Set(t, p) == t + [p]
  {
    if t != [] {
      assert t == [t[0]] + t[1..];
      IdsCons(t[0], t[1..]);
      SetAppendsNewKey(t[1..], p);
      assert [t[0]] + (t[1..] + [p]) == t + [p];
    }
  }

  /** `set` with a key the `Map` holds replaces that entry where it stands. */
  lemma {:induction false} SetOverwritesInPlace(t: Table, p: Peer, i: int)
    requires UniqueIds(t) && 0 <= i < |t| && t[i].socketId == p.socketId
    ensures Set(t, p) == t[i := p]
  {
    assert t == [t[0]] + t[1..];
    if i == 0 {
      assert [p] + t[1..] == t[0 := p];
    } else {
      assert t[0].socketId != p.socketId;
      TailUnique(t);
      SetOverwritesInPlace(t[1..], p, i - 1);
      ReplaceInTail(t, p, i);
    }
  }

  /** Replacing entry `i > 0` leaves the head in front of the replaced tail. */
  lemma ReplaceInTail(t: Table, p: Peer, i: int)
    requires 0 < i < |t|
    ensures [t[0]] + t[1..][i - 1 := p] == t[i := p]
  {
    var u := [t[0]] + t[1..][i - 1 := p];
    assert |u| == |t[i := p]|;
    forall k | 0 <= k < |u|
      ensures u[k] == t[i := p][k]
    {
    }
  }

  /** `Without` on a table with a given first entry. */
  lemma WithoutCons(q: Peer, s: Table, id: SocketId)
    ensures Without([q] + s, id) == if q.socketId == id then Without(s, id) else [q] + Without(s, id)
  {
    assert ([q] + s)[0] == q && ([q] + s)[1..] == s;
  }

  /** Filtering a key out works entry by entry, keeping the order of the rest. */
  lemma {:induction false} WithoutConcat(a: Table, b: Table, id: SocketId)
    ensures Without(a + b, id) == Without(a, id) + Without(b, id)
  {
    if a == [] {
      assert a + b == b;
    } else {
      var q, s := a[0], a[1..];
      assert a == [q] + s;
      assert a + b == [q] + (s + b);
      WithoutConcat(s, b, id);
      WithoutCons(q, s + b, id);
      WithoutCons(q, s, id);
      if q.socketId != id {
        AppendAssociates([q], Without(s, id), Without(b, id));
      }
    }
  }

  /**
   * After `set`, the table holds exactly one record for the key, the one just
   * set: a re-join overwrites instead of adding a second record.
   */
  lemma SetHoldsOneRecord(t: Table, p: Peer)
    requires UniqueIds(t)
    ensures forall q :: q in Set(t, p) && q.socketId == p.socketId ==> q == p
  {
    var r := Set(t, p);
    forall q | q in r && q.socketId == p.socketId
      ensures q == p
    {
      var i :| 0 <= i < |r| && r[i] == q;
      var j :| 0 <= j < |r| && r[j] == p;
      assert i == j;
    }
  }

  /**
   * Setting a key and then filtering that key out gives the table filtered
   * before the set: the existing-peers list a joiner receives is exactly the
   * other peers, in their original order, whether or not it had joined before.
   */
  lemma {:induction false} WithoutAfterSet(t: Table, p: Peer)
    ensures Without(Set(t, p), p.socketId) == Without(t, p.socketId)
  {
    if t != [] && t[0].socketId != p.socketId {
      WithoutAfterSet(t[1..], p);
      assert Set(t, p) == [t[0]] + Set(t[1..], p);
      assert (Set(t, p))[1..] == Set(t[1..], p);
    }
  }

  /** Two deletions commute: the table after two peers leave does not depend on who left first. */
  lemma {:induction false} WithoutCommutes(t: Table, id: SocketId, other: SocketId)
    requires other != id
    ensures Without(Without(t, id), other) == Without(Without(t, other), id)
  {
    if t != [] {
      WithoutCommutes(t[1..], id, other);
    }
  }
}
