/**
 * The `userSockets` registry: a JavaScript `Map` from username to socket id.
 * A `Map` remembers the order in which its keys were first inserted, and both
 * `Array.from(userSockets.keys())` and the reverse lookup walk it in that
 * order, so the registry is kept as a sequence of entries with distinct keys.
 */
module Registry {
  import opened Options

  /** A socket.io connection id, opaque to the server. */
  type SocketId = string

  /** One `username → socket.id` pair of the map. */
  datatype Entry = Entry(username: string, socketId: SocketId)

  /** `Array.from(userSockets.keys())`: the usernames in insertion order. */
  function Keys(e: seq<Entry>): (ks: seq<string>)
    ensures |ks| == |e|
  {
    if e == [] then [] else [e[0].username] + Keys(e[1..])
  }

  /** The key list holds, at each position, the username of the entry there. */
  lemma {:induction false} KeysAt(e: seq<Entry>, i: nat)
    requires i < |e|
    ensures Keys(e)[i] == e[i].username
  {
    if i > 0 {
      KeysAt(e[1..], i - 1);
    }
  }

  /** The username of every stored entry is among the keys. */
  lemma {:induction false} EntryKeyListed(e: seq<Entry>, x: Entry)
    requires x in e
    ensures x.username in Keys(e)
  {
    if e[0] != x {
      EntryKeyListed(e[1..], x);
    }
  }

  /** No username occurs twice among the keys. */
  ghost predicate Distinct(ks: seq<string>)
  {
    forall i, j :: 0 <= i < j < |ks| ==> ks[i] != ks[j]
  }

  /** A key list headed by `k` is distinct exactly when `k` is new and the rest is distinct. */
  lemma DistinctCons(k: string, ks: seq<string>)
    ensures Distinct([k] + ks) <==> k !in ks && Distinct(ks)
  {
    var s := [k] + ks;
    if Distinct(s) {
      forall i, j | 0 <= i < j < |ks| ensures ks[i] != ks[j] {
        assert s[i + 1] == ks[i] && s[j + 1] == ks[j];
      }
    }
    if k in ks {
      var i :| 0 <= i < |ks| && ks[i] == k;
      assert s[0] == s[i + 1];
    }
    if k !in ks && Distinct(ks) {
      forall i, j | 0 <= i < j < |s| ensures s[i] != s[j] {
        assert s[j] == ks[j - 1] && ks[j - 1] in ks;
        if i > 0 {
          assert s[i] == ks[i - 1];
        }
      }
    }
  }

  /** Appending a new key keeps the list distinct. */
  lemma DistinctSnoc(ks: seq<string>, k: string)
    requires Distinct(ks) && k !in ks
    ensures Distinct(ks + [k])
  {
  }

  /** `userSockets.get(k)`: the socket id stored under `k`, if any. */
  function Get(e: seq<Entry>, k: string): (r: Option<SocketId>)
    ensures r.None? <==> k !in Keys(e)
    ensures r.Some? ==> Entry(k, r.value) in e
  {
    if e == [] then None
    else if e[0].username == k then Some(e[0].socketId)
    else Get(e[1..], k)
  }

  /**
   * `userSockets.set(k, v)`: a key already present keeps its position and
   * takes the new value; a new key goes at the end.
   */
  function Put(e: seq<Entry>, k: string, v: SocketId): (r: seq<Entry>)
    ensures |r| == if k in Keys(e) then |e| else |e| + 1
  {
    if e == [] then [Entry(k, v)]
    else if e[0].username == k then [Entry(k, v)] + e[1..]
    else [e[0]] + Put(e[1..], k, v)
  }

  /** After `set(k, v)`, `get(k)` is `v` and every other key reads as before. */
  lemma {:induction false} PutGet(e: seq<Entry>, k: string, v: SocketId, j: string)
    ensures Get(Put(e, k, v), j) == if j == k then Some(v) else Get(e, j)
  {
    if e != [] && e[0].username != k {
      PutGet(e[1..], k, v, j);
      assert Put(e, k, v)[1..] == Put(e[1..], k, v);
    }
  }

  /** `set` keeps the key order: an existing key stays in place, a new one is appended. */
  lemma {:induction false} PutKeys(e: seq<Entry>, k: string, v: SocketId)
    ensures Keys(Put(e, k, v)) == if k in Keys(e) then Keys(e) else Keys(e) + [k]
  {
    if e != [] {
      assert Keys(e) == [e[0].username] + Keys(e[1..]);
      if e[0].username != k {
        PutKeys(e[1..], k, v);
        assert Put(e, k, v)[1..] == Put(e[1..], k, v);
      } else {
        assert Put(e, k, v)[1..] == e[1..];
      }
    }
  }

  /** `set` adds no entry other than `(k, v)`. */
  lemma {:induction false} PutEntries(e: seq<Entry>, k: string, v: SocketId)
    ensures forall x :: x in Put(e, k, v) ==> x == Entry(k, v) || x in e
  {
    if e != [] && e[0].username != k {
      PutEntries(e[1..], k, v);
    }
  }

  /** `set` keeps every key unique. */
  lemma PutDistinct(e: seq<Entry>, k: string, v: SocketId)
    requires Distinct(Keys(e))
    ensures Distinct(Keys(Put(e, k, v)))
  {
    PutKeys(e, k, v);
    if k !in Keys(e) {
      DistinctSnoc(Keys(e), k);
    }
  }

  /**
   * `userSockets.delete(k)`: the entry for `k` is dropped and the others stay
   * in their order.
   */
  function Remove(e: seq<Entry>, k: string): seq<Entry>
  {
    if e == [] then []
    else if e[0].username == k then e[1..]
    else [e[0]] + Remove(e[1..], k)
  }

  /** Deleting a key that is not there changes nothing. */
  lemma {:induction false} RemoveAbsent(e: seq<Entry>, k: string)
    requires k !in Keys(e)
    ensures Remove(e, k) == e
  {
    if e != [] {
      RemoveAbsent(e[1..], k);
    }
  }

  /** Deleting `k` cuts out exactly the entry of `k`; the rest keep their order. */
  lemma {:induction false} RemoveCutsEntry(e: seq<Entry>, k: string, i: nat)
    requires i < |e| && e[i].username == k
    requires forall j :: 0 <= j < i ==> e[j].username != k
    ensures Remove(e, k) == e[..i] + e[i + 1..]
  {
    if i > 0 {
      assert e[0].username != k;
      RemoveCutsEntry(e[1..], k, i - 1);
      assert Remove(e, k) == [e[0]] + (e[1..][..i - 1] + e[1..][i..]);
      assert e[1..][..i - 1] == e[1..i] && e[1..][i..] == e[i + 1..];
      assert [e[0]] + e[1..i] == e[..i];
    }
  }

  /** Deleting `k` leaves every other key reading as before. */
  lemma {:induction false} RemoveGet(e: seq<Entry>, k: string, j: string)
    requires j != k
    ensures Get(Remove(e, k), j) == Get(e, j)
  {
    if e != [] && e[0].username != k {
      RemoveGet(e[1..], k, j);
      assert Remove(e, k)[1..] == Remove(e[1..], k);
    }
  }

  /** With unique keys, deleting `k` removes it for good and adds no key. */
  lemma {:induction false} RemoveDistinct(e: seq<Entry>, k: string)
    requires Distinct(Keys(e))
    ensures Distinct(Keys(Remove(e, k)))
    ensures k !in Keys(Remove(e, k))
    ensures forall j :: j in Keys(Remove(e, k)) ==> j in Keys(e)
  {
    if e != [] {
      assert Keys(e) == [e[0].username] + Keys(e[1..]);
      DistinctCons(e[0].username, Keys(e[1..]));
      if e[0].username != k {
        RemoveDistinct(e[1..], k);
        var rest := Remove(e[1..], k);
        assert Remove(e, k) == [e[0]] + rest;
        assert Keys(Remove(e, k)) == [e[0].username] + Keys(rest);
        DistinctCons(e[0].username, Keys(rest));
      }
    }
  }

  /**
   * `getUsernameFromSocket`: the first username, in insertion order, whose
   * socket id is `s`, or none when no entry holds `s`.
   */
  function Owner(e: seq<Entry>, s: SocketId): (r: Option<string>)
    ensures r.None? <==> forall x :: x in e ==> x.socketId != s
    ensures r.Some? ==> Entry(r.value, s) in e && r.value in Keys(e)
  {
    if e == [] then None
    else if e[0].socketId == s then Some(e[0].username)
    else Owner(e[1..], s)
  }

  /** The lookup answers with the earliest entry that holds `s`. */
  lemma {:induction false} OwnerIsFirst(e: seq<Entry>, s: SocketId, i: nat)
    requires i < |e| && e[i].socketId == s
    requires forall j :: 0 <= j < i ==> e[j].socketId != s
    ensures Owner(e, s) == Some(e[i].username)
  {
    if i > 0 {
      OwnerIsFirst(e[1..], s, i - 1);
    }
  }

  /** With distinct keys, `get(k)` yields `v` exactly when the pair `(k, v)` is stored. */
  lemma {:induction false} GetFindsEntry(e: seq<Entry>, k: string, v: SocketId)
    requires Distinct(Keys(e))
    ensures Get(e, k) == Some(v) <==> Entry(k, v) in e
  {
    if e != [] {
      DistinctCons(e[0].username, Keys(e[1..]));
      if Entry(k, v) in e[1..] {
        EntryKeyListed(e[1..], Entry(k, v));
      }
      GetFindsEntry(e[1..], k, v);
    }
  }

  /** The reverse lookup answers `u` only if the registry maps `u` to `s`. */
  lemma OwnerIsRegistered(e: seq<Entry>, s: SocketId)
    requires Distinct(Keys(e))
    ensures Owner(e, s).Some? ==> Get(e, Owner(e, s).value) == Some(s)
  {
    if Owner(e, s).Some? {
      GetFindsEntry(e, Owner(e, s).value, s);
    }
  }

  /** A key present in distinct keys occurs exactly once. */
  lemma {:induction false} DistinctOccursOnce(ks: seq<string>, k: string)
    requires Distinct(ks) && k in ks
    ensures multiset(ks)[k] == 1
  {
    assert ks == [ks[0]] + ks[1..];
    DistinctCons(ks[0], ks[1..]);
    if ks[0] == k {
      assert multiset(ks[1..])[k] == 0;
    } else {
      DistinctOccursOnce(ks[1..], k);
    }
  }

  /**
   * `set(k, v)` on a map with unique keys: `k` now reads `v` and is listed
   * exactly once, every other key reads as before, and no other key appears.
   */
  lemma PutReplaces(e: seq<Entry>, k: string, v: SocketId)
    requires Distinct(Keys(e))
    ensures Distinct(Keys(Put(e, k, v)))
    ensures Get(Put(e, k, v), k) == Some(v)
    ensures multiset(Keys(Put(e, k, v)))[k] == 1
    ensures forall j :: j != k ==> Get(Put(e, k, v), j) == Get(e, j)
    ensures forall j :: j in Keys(Put(e, k, v)) ==> j == k || j in Keys(e)
  {
    PutKeys(e, k, v);
    PutDistinct(e, k, v);
    PutGet(e, k, v, k);
    forall j | j != k ensures Get(Put(e, k, v), j) == Get(e, j) {
      PutGet(e, k, v, j);
    }
    DistinctOccursOnce(Keys(Put(e, k, v)), k);
  }

  /**
   * Once `k` is set to a newer socket `c2`, a socket `c1` that held no other
   * username no longer owns any entry, so its reverse lookup finds nothing.
   */
  lemma ReplacedSocketOwnsNothing(e: seq<Entry>, k: string, c1: SocketId, c2: SocketId)
    requires Distinct(Keys(e))
    requires c1 != c2
    requires forall x :: x in e && x.socketId == c1 ==> x.username == k
    ensures Owner(Put(e, k, c2), c1) == None
  {
    var r := Put(e, k, c2);
    PutDistinct(e, k, c2);
    PutEntries(e, k, c2);
    PutGet(e, k, c2, k);
    forall x | x in r ensures x.socketId != c1 {
      if x.socketId == c1 {
        GetFindsEntry(r, k, c1);
      }
    }
  }

  /**
   * Whatever else the old socket `c1` holds, once `k` is set to a newer
   * socket `c2` the reverse lookup for `c1` never answers `k`, so a
   * disconnect of `c1` cannot delete the newer mapping.
   */
  lemma ReplacedNameNotOwned(e: seq<Entry>, k: string, c1: SocketId, c2: SocketId)
    requires Distinct(Keys(e))
    requires c1 != c2
    ensures Owner(Put(e, k, c2), c1) != Some(k)
  {
    var r := Put(e, k, c2);
    PutDistinct(e, k, c2);
    PutGet(e, k, c2, k);
    if Owner(r, c1) == Some(k) {
      GetFindsEntry(r, k, c1);
    }
  }
}
