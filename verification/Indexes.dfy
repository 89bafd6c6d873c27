/**
  The master index (src/storage/index.rs): document offsets, tombstones and the id allocator, and
  the fixed-width blob they are committed as. The layout is that of bincode 1.3 with its default
  `serialize`/`deserialize`: eight-byte little-endian integers, a count before each collection,
  collections in whatever order the hash table yields, bytes after the value ignored.
 */
module Indexes {
  import opened Bytes
  import opened Results

  datatype Index = Index(offsets: map<nat, nat>, dead: set<nat>, nextDocId: nat)
  {
    function OffsetOf(id: nat): Option<nat> {
      if id in dead then None else if id in offsets then Some(offsets[id]) else None
    }

    predicate IsLive(id: nat) {
      id in offsets && id !in dead
    }

    function LiveIds(): set<nat> {
      offsets.Keys - dead
    }

    /** Every number fits the `u64` it is stored in. */
    predicate Fits() {
      && (forall id | id in offsets :: id < U64_LIMIT && offsets[id] < U64_LIMIT)
      && (forall id | id in dead :: id < U64_LIMIT)
      && |offsets| < U64_LIMIT && |dead| < U64_LIMIT && nextDocId < U64_LIMIT
    }

    /** What the engine keeps true of its index, stated on the index alone. */
    ghost predicate Accounted() {
      && 1 <= nextDocId
      && (forall id :: id in offsets <==> 1 <= id < nextDocId)
      && dead <= offsets.Keys
      && (forall i, j | i in offsets && j in offsets && i < j :: offsets[i] < offsets[j])
    }
  }

  function Empty(): Index {
    Index(map[], {}, 1)
  }

  /** With the tombstones among the keys, the count of live documents is a subtraction that cannot underflow. */
  lemma LiveCountExact(idx: Index)
    requires idx.Accounted()
    ensures |idx.dead| <= |idx.offsets|
    ensures |idx.offsets| - |idx.dead| == |idx.LiveIds()|
    ensures forall id :: id in idx.LiveIds() <==> idx.IsLive(id)
    ensures forall id :: idx.IsLive(id) <==> id in idx.offsets && id !in idx.dead
    ensures forall id :: idx.OffsetOf(id) == if idx.IsLive(id) then Some(idx.offsets[id]) else None
    ensures |idx.offsets| == idx.nextDocId - 1
  {
    assert idx.offsets.Keys == idx.LiveIds() + idx.dead;
    Interval(idx.offsets.Keys, idx.nextDocId);
  }

  lemma {:induction false} Interval(s: set<nat>, n: nat)
    requires 1 <= n && forall id :: id in s <==> 1 <= id < n
    ensures |s| == n - 1
  {
    if n == 1 {
      assert s == {};
    } else {
      Interval(s - {n - 1}, n - 1);
    }
  }

  // The blob.

  /** `order` lists the members of `s`, each once. */
  ghost predicate Lists(order: seq<nat>, s: set<nat>) {
    && (forall i, j | 0 <= i < j < |order| :: order[i] != order[j])
    && (forall x :: x in order <==> x in s)
  }

  function PairBytes(order: seq<nat>, offsets: map<nat, nat>): (s: bytes)
    requires forall id | id in order :: id in offsets
    ensures |s| == 16 * |order|
  {
    if order == [] then []
    else ToLE(order[0], 8) + ToLE(offsets[order[0]], 8) + PairBytes(order[1..], offsets)
  }

  function IdBytes(order: seq<nat>): (s: bytes)
    ensures |s| == 8 * |order|
  {
    if order == [] then [] else ToLE(order[0], 8) + IdBytes(order[1..])
  }

  function Encoding(idx: Index, ids: seq<nat>, deadIds: seq<nat>): (s: bytes)
    requires forall id | id in ids :: id in idx.offsets
    ensures |s| == 24 + 16 * |ids| + 8 * |deadIds|
  {
    ToLE(|ids|, 8) + PairBytes(ids, idx.offsets) + ToLE(|deadIds|, 8) + IdBytes(deadIds) + ToLE(idx.nextDocId, 8)
  }

  /** `blob` is what serializing `idx` gives under some iteration order of its map and of its set. */
  ghost predicate Encodes(blob: bytes, idx: Index) {
    exists ids, deadIds ::
      && Lists(ids, idx.offsets.Keys)
      && Lists(deadIds, idx.dead)
      && blob == Encoding(idx, ids, deadIds)
  }

  function BlobSize(idx: Index): nat {
    24 + 16 * |idx.offsets| + 8 * |idx.dead|
  }

  function TakeU64(s: bytes): (r: Result<(nat, bytes)>)
    ensures r.Err? ==> r.error == CorruptIndex
  {
    if |s| < 8 then Err(CorruptIndex) else Ok((FromLE(s[..8]), s[8..]))
  }

  /** `n` pairs; a key met twice keeps its last value, as inserting into a hash map does. */
  function TakePairs(s: bytes, n: nat, acc: map<nat, nat>): (r: Result<(map<nat, nat>, bytes)>)
    ensures r.Err? ==> r.error == CorruptIndex
    decreases n
  {
    if n == 0 then Ok((acc, s))
    else
      var key :- TakeU64(s);
      var val :- TakeU64(key.1);
      TakePairs(val.1, n - 1, acc[key.0 := val.0])
  }

  function TakeIds(s: bytes, n: nat, acc: set<nat>): (r: Result<(set<nat>, bytes)>)
    ensures r.Err? ==> r.error == CorruptIndex
    decreases n
  {
    if n == 0 then Ok((acc, s))
    else
      var id :- TakeU64(s);
      TakeIds(id.1, n - 1, acc + {id.0})
  }

  /** An index off the front of a byte string, with the bytes left over. */
  function TakeIndex(s: bytes): (r: Result<(Index, bytes)>)
    ensures r.Err? ==> r.error == CorruptIndex
  {
    var n :- TakeU64(s);
    var offsets :- TakePairs(n.1, n.0, map[]);
    var m :- TakeU64(offsets.1);
    var dead :- TakeIds(m.1, m.0, {});
    var next :- TakeU64(dead.1);
    Ok((Index(offsets.0, dead.0, next.0), next.1))
  }

  /** `MasterIndex::decode`: trailing bytes are allowed. */
  function Decode(blob: bytes): Result<Index> {
    var taken :- TakeIndex(blob);
    Ok(taken.0)
  }

  lemma TakeU64Encoded(n: nat, rest: bytes)
    requires n < U64_LIMIT
    ensures TakeU64(ToLE(n, 8) + rest) == Ok((n, rest))
  {
    hide FromLE, ToLE;
    U64RoundTrip(n);
    var s := ToLE(n, 8) + rest;
    assert s[..8] == ToLE(n, 8) && s[8..] == rest;
  }

  function InsertAll(acc: map<nat, nat>, order: seq<nat>, offsets: map<nat, nat>): map<nat, nat>
    requires forall id | id in order :: id in offsets
    decreases |order|
  {
    if order == [] then acc else InsertAll(acc[order[0] := offsets[order[0]]], order[1..], offsets)
  }

  function AddAll(acc: set<nat>, order: seq<nat>): set<nat>
    decreases |order|
  {
    if order == [] then acc else AddAll(acc + {order[0]}, order[1..])
  }

  lemma {:induction false} TakePairsEncoded(order: seq<nat>, offsets: map<nat, nat>, rest: bytes, acc: map<nat, nat>)
    requires forall id | id in order :: id in offsets
    requires forall id | id in offsets :: id < U64_LIMIT && offsets[id] < U64_LIMIT
    ensures TakePairs(PairBytes(order, offsets) + rest, |order|, acc) == Ok((InsertAll(acc, order, offsets), rest))
  {
    hide FromLE, ToLE, TakeU64;
    if order == [] {
      assert PairBytes(order, offsets) + rest == rest;
    } else {
      var k := order[0];
      assert k in order;
      var v := offsets[k];
      var more := PairBytes(order[1..], offsets) + rest;
      assert PairBytes(order, offsets) + rest == ToLE(k, 8) + (ToLE(v, 8) + more);
      TakeU64Encoded(k, ToLE(v, 8) + more);
      TakeU64Encoded(v, more);
      TakePairsEncoded(order[1..], offsets, rest, acc[k := v]);
    }
  }

  lemma {:induction false} TakeIdsEncoded(order: seq<nat>, rest: bytes, acc: set<nat>)
    requires forall i | 0 <= i < |order| :: order[i] < U64_LIMIT
    ensures TakeIds(IdBytes(order) + rest, |order|, acc) == Ok((AddAll(acc, order), rest))
  {
    hide FromLE, ToLE, TakeU64;
    if order == [] {
      assert IdBytes(order) + rest == rest;
    } else {
      var more := IdBytes(order[1..]) + rest;
      assert IdBytes(order) + rest == ToLE(order[0], 8) + more;
      TakeU64Encoded(order[0], more);
      TakeIdsEncoded(order[1..], rest, acc + {order[0]});
    }
  }

  lemma {:induction false} InsertAllExact(acc: map<nat, nat>, order: seq<nat>, offsets: map<nat, nat>)
    requires forall id | id in order :: id in offsets
    requires forall id | id in acc :: id in offsets && acc[id] == offsets[id]
    requires forall id | id in offsets :: id in order || id in acc
    ensures InsertAll(acc, order, offsets) == offsets
    decreases |order|
  {
    if order != [] {
      assert order[0] in order;
      assert forall id :: id in order <==> id == order[0] || id in order[1..];
      InsertAllExact(acc[order[0] := offsets[order[0]]], order[1..], offsets);
    }
  }

  lemma {:induction false} AddAllExact(acc: set<nat>, order: seq<nat>, s: set<nat>)
    requires forall x :: x in s <==> x in acc || x in order
    ensures AddAll(acc, order) == s
    decreases |order|
  {
    if order != [] {
      assert forall x :: x in order <==> x == order[0] || x in order[1..];
      AddAllExact(acc + {order[0]}, order[1..], s);
    }
  }

  lemma {:induction false} ListsLength(order: seq<nat>, s: set<nat>)
    requires Lists(order, s)
    ensures |order| == |s|
  {
    if order == [] {
      assert s == {};
    } else {
      assert forall x :: x in order <==> x == order[0] || x in order[1..];
      ListsLength(order[1..], s - {order[0]});
    }
  }

  lemma TakeIndexEncoded(idx: Index, ids: seq<nat>, deadIds: seq<nat>, rest: bytes)
    requires idx.Fits() && Lists(ids, idx.offsets.Keys) && Lists(deadIds, idx.dead)
    ensures TakeIndex(Encoding(idx, ids, deadIds) + rest) == Ok((idx, rest))
    ensures |Encoding(idx, ids, deadIds)| == BlobSize(idx)
  {
    hide FromLE, ToLE, TakeU64, TakePairs, TakeIds, PairBytes, IdBytes, InsertAll, AddAll;
    ListsLength(ids, idx.offsets.Keys);
    ListsLength(deadIds, idx.dead);
    var s4 := ToLE(idx.nextDocId, 8) + rest;
    var s3 := IdBytes(deadIds) + s4;
    var s2 := ToLE(|deadIds|, 8) + s3;
    var s1 := PairBytes(ids, idx.offsets) + s2;
    assert Encoding(idx, ids, deadIds) + rest == ToLE(|ids|, 8) + s1;
    TakeU64Encoded(|ids|, s1);
    TakePairsEncoded(ids, idx.offsets, s2, map[]);
    InsertAllExact(map[], ids, idx.offsets);
    TakeU64Encoded(|deadIds|, s3);
    forall i | 0 <= i < |deadIds|
      ensures deadIds[i] < U64_LIMIT
    {
      assert deadIds[i] in deadIds;
    }
    TakeIdsEncoded(deadIds, s4, {});
    AddAllExact({}, deadIds, idx.dead);
    TakeU64Encoded(idx.nextDocId, rest);
  }

  /** Decoding gives the index back whatever order its tables were written in, and whatever follows. */
  lemma IndexRoundTrip(blob: bytes, idx: Index, rest: bytes)
    requires idx.Fits() && Encodes(blob, idx)
    ensures TakeIndex(blob + rest) == Ok((idx, rest))
    ensures Decode(blob) == Ok(idx)
    ensures |blob| == BlobSize(idx)
  {
    hide Encoding, TakeIndex;
    var ids, deadIds :| Lists(ids, idx.offsets.Keys) && Lists(deadIds, idx.dead) && blob == Encoding(idx, ids, deadIds);
    TakeIndexEncoded(idx, ids, deadIds, rest);
    TakeIndexEncoded(idx, ids, deadIds, []);
    assert blob + [] == blob;
  }

  // A successful parse does not look at the bytes it leaves over.

  lemma TakeU64Extends(s: bytes, rest: bytes)
    requires TakeU64(s).Ok?
    ensures TakeU64(s + rest) == Ok((TakeU64(s).value.0, TakeU64(s).value.1 + rest))
  {
    hide FromLE;
    assert (s + rest)[..8] == s[..8] && (s + rest)[8..] == s[8..] + rest;
  }

  lemma {:induction false} TakePairsExtends(s: bytes, rest: bytes, n: nat, acc: map<nat, nat>)
    requires TakePairs(s, n, acc).Ok?
    ensures TakePairs(s + rest, n, acc)
         == Ok((TakePairs(s, n, acc).value.0, TakePairs(s, n, acc).value.1 + rest))
    decreases n
  {
    if n > 0 {
      TakeU64Extends(s, rest);
      var key := TakeU64(s).value;
      TakeU64Extends(key.1, rest);
      var val := TakeU64(key.1).value;
      TakePairsExtends(val.1, rest, n - 1, acc[key.0 := val.0]);
    }
  }

  lemma {:induction false} TakeIdsExtends(s: bytes, rest: bytes, n: nat, acc: set<nat>)
    requires TakeIds(s, n, acc).Ok?
    ensures TakeIds(s + rest, n, acc) == Ok((TakeIds(s, n, acc).value.0, TakeIds(s, n, acc).value.1 + rest))
    decreases n
  {
    if n > 0 {
      TakeU64Extends(s, rest);
      TakeIdsExtends(TakeU64(s).value.1, rest, n - 1, acc + {TakeU64(s).value.0});
    }
  }

  lemma TakeIndexExtends(s: bytes, rest: bytes)
    requires TakeIndex(s).Ok?
    ensures TakeIndex(s + rest) == Ok((TakeIndex(s).value.0, TakeIndex(s).value.1 + rest))
  {
    hide TakeU64, TakePairs, TakeIds;
    TakeU64Extends(s, rest);
    var n := TakeU64(s).value;
    TakePairsExtends(n.1, rest, n.0, map[]);
    var offsets := TakePairs(n.1, n.0, map[]).value;
    TakeU64Extends(offsets.1, rest);
    var m := TakeU64(offsets.1).value;
    TakeIdsExtends(m.1, rest, m.0, {});
    TakeU64Extends(TakeIds(m.1, m.0, {}).value.1, rest);
  }

  /** Every strict prefix of an encoding is rejected. */
  lemma StrictPrefixRejected(blob: bytes, idx: Index, cut: nat)
    requires idx.Fits() && Encodes(blob, idx)
    requires cut < |blob|
    ensures Decode(blob[..cut]) == Err(CorruptIndex)
  {
    hide TakeIndex, Encodes;
    IndexRoundTrip(blob, idx, []);
    assert blob + [] == blob == blob[..cut] + blob[cut..];
    if TakeIndex(blob[..cut]).Ok? {
      TakeIndexExtends(blob[..cut], blob[cut..]);
    }
  }
}
