/**
  The master index blob as a row of eight-byte words: the number of documents, that many pairs of id
  and offset, the number of dead ids, the dead ids, the next id (src/storage/index.rs:20-27, 94-102).
 */
module Blobs {
  import opened Bytes
  import opened Results
  import I = Indexes

  /** The `i`th word of a blob. */
  function Word(blob: bytes, i: nat): nat
    requires 8 * i + 8 <= |blob|
  {
    FromLE(blob[8 * i..8 * i + 8])
  }

  function IdWord(blob: bytes, i: nat): nat
    requires 16 * i + 24 <= |blob|
  {
    Word(blob, 1 + 2 * i)
  }

  function OffsetWord(blob: bytes, i: nat): nat
    requires 16 * i + 24 <= |blob|
  {
    Word(blob, 2 + 2 * i)
  }

  /** The `i`th dead id of a blob with `n` pairs. */
  function DeadWord(blob: bytes, n: nat, i: nat): nat
    requires 16 * n + 8 * i + 24 <= |blob|
  {
    Word(blob, 2 + 2 * n + i)
  }

  /** These words, in this order, are this index: each id of a table once, in any order. */
  ghost predicate Spells(blob: bytes, idx: I.Index) {
    var n, m := |idx.offsets|, |idx.dead|;
    && |blob| == 24 + 16 * n + 8 * m
    && Word(blob, 0) == n
    && (forall i | 0 <= i < n ::
          IdWord(blob, i) in idx.offsets && OffsetWord(blob, i) == idx.offsets[IdWord(blob, i)])
    && (forall i, j | 0 <= i < j < n :: IdWord(blob, i) != IdWord(blob, j))
    && Word(blob, 1 + 2 * n) == m
    && (forall i | 0 <= i < m :: DeadWord(blob, n, i) in idx.dead)
    && (forall i, j | 0 <= i < j < m :: DeadWord(blob, n, i) != DeadWord(blob, n, j))
    && Word(blob, 2 + 2 * n + m) == idx.nextDocId
  }

  /** What serializing gives, in whatever order the tables iterate, is exactly what spells the index. */
  lemma EncodesExactly(blob: bytes, idx: I.Index)
    requires idx.Fits()
    ensures I.Encodes(blob, idx) <==> Spells(blob, idx)
  {
    hide I.Encodes, Spells, I.Index.Fits;
    if I.Encodes(blob, idx) {
      EncodedSpells(blob, idx);
    }
    if Spells(blob, idx) {
      SpeltEncodes(blob, idx);
    }
  }

  // From the encoding to its words.

  lemma {:induction false} PairAt(order: seq<nat>, offsets: map<nat, nat>, i: nat)
    requires (forall id | id in order :: id in offsets) && i < |order|
    ensures var s := I.PairBytes(order, offsets);
            s[16 * i..16 * i + 8] == ToLE(order[i], 8) && s[16 * i + 8..16 * i + 16] == ToLE(offsets[order[i]], 8)
  {
    hide ToLE;
    var rest := I.PairBytes(order[1..], offsets);
    var s := I.PairBytes(order, offsets);
    assert s == ToLE(order[0], 8) + ToLE(offsets[order[0]], 8) + rest;
    if i > 0 {
      PairAt(order[1..], offsets, i - 1);
      assert s[16..] == rest;
      Shifted(s, 16, 16 * (i - 1), 8);
      Shifted(s, 16, 16 * (i - 1) + 8, 8);
    }
  }

  lemma {:induction false} IdAt(order: seq<nat>, i: nat)
    requires i < |order|
    ensures I.IdBytes(order)[8 * i..8 * i + 8] == ToLE(order[i], 8)
  {
    hide ToLE;
    var s := I.IdBytes(order);
    assert s == ToLE(order[0], 8) + I.IdBytes(order[1..]);
    if i > 0 {
      IdAt(order[1..], i - 1);
      assert s[8..] == I.IdBytes(order[1..]);
      Shifted(s, 8, 8 * (i - 1), 8);
    }
  }

  /** A slice of a suffix is a slice further on. */
  lemma Shifted(s: bytes, skip: nat, at: nat, len: nat)
    requires skip + at + len <= |s|
    ensures s[skip..][at..at + len] == s[skip + at..skip + at + len]
  {
  }

  lemma EncodedSpells(blob: bytes, idx: I.Index)
    requires idx.Fits() && I.Encodes(blob, idx)
    ensures Spells(blob, idx)
  {
    hide ToLE, FromLE, I.PairBytes, I.IdBytes, I.Encoding, IdWord, OffsetWord, DeadWord, Word, I.Index.Fits;
    var ids, deadIds :|
      I.Lists(ids, idx.offsets.Keys) && I.Lists(deadIds, idx.dead) && blob == I.Encoding(idx, ids, deadIds);
    I.ListsLength(ids, idx.offsets.Keys);
    I.ListsLength(deadIds, idx.dead);
    var n, m := |ids|, |deadIds|;
    assert |idx.offsets| == |idx.offsets.Keys|;
    EncodingParts(blob, idx, ids, deadIds);
    forall i | 0 <= i < n
      ensures IdWord(blob, i) == ids[i] && OffsetWord(blob, i) == idx.offsets[ids[i]]
    {
      PairFits(idx, ids, i);
      PairAt(ids, idx.offsets, i);
      PairWordIs(blob, I.PairBytes(ids, idx.offsets), i, ids[i], idx.offsets[ids[i]]);
    }
    forall i | 0 <= i < m
      ensures DeadWord(blob, n, i) == deadIds[i]
    {
      DeadIdFits(idx, deadIds, i);
      IdAt(deadIds, i);
      DeadWordIs(blob, I.IdBytes(deadIds), n, i, deadIds[i]);
    }
    CountsFit(idx);
    CountWords(blob, idx, n, m);
  }

  lemma DeadIdFits(idx: I.Index, deadIds: seq<nat>, i: nat)
    requires idx.Fits() && I.Lists(deadIds, idx.dead) && i < |deadIds|
    ensures deadIds[i] < U64_LIMIT
  {
    assert deadIds[i] in deadIds;
  }

  lemma CountsFit(idx: I.Index)
    requires idx.Fits()
    ensures |idx.offsets| < U64_LIMIT && |idx.dead| < U64_LIMIT
  {
  }

  lemma CountWords(blob: bytes, idx: I.Index, n: nat, m: nat)
    requires idx.Fits() && n < U64_LIMIT && m < U64_LIMIT
    requires |blob| == 24 + 16 * n + 8 * m
    requires blob[0..8] == ToLE(n, 8) && blob[8 + 16 * n..16 + 16 * n] == ToLE(m, 8)
    requires blob[16 + 16 * n + 8 * m..24 + 16 * n + 8 * m] == ToLE(idx.nextDocId, 8)
    ensures Word(blob, 0) == n && Word(blob, 1 + 2 * n) == m && Word(blob, 2 + 2 * n + m) == idx.nextDocId
  {
    hide ToLE, FromLE;
    U64RoundTrip(n);
    U64RoundTrip(m);
    U64RoundTrip(idx.nextDocId);
  }

  lemma EncodingParts(blob: bytes, idx: I.Index, ids: seq<nat>, deadIds: seq<nat>)
    requires forall id | id in ids :: id in idx.offsets
    requires blob == I.Encoding(idx, ids, deadIds)
    ensures var n, m := |ids|, |deadIds|;
            && |blob| == 24 + 16 * n + 8 * m
            && blob[0..8] == ToLE(n, 8)
            && blob[8..8 + 16 * n] == I.PairBytes(ids, idx.offsets)
            && blob[8 + 16 * n..16 + 16 * n] == ToLE(m, 8)
            && blob[16 + 16 * n..16 + 16 * n + 8 * m] == I.IdBytes(deadIds)
            && blob[16 + 16 * n + 8 * m..24 + 16 * n + 8 * m] == ToLE(idx.nextDocId, 8)
  {
    hide ToLE, I.PairBytes, I.IdBytes;
    var a, b, c := ToLE(|ids|, 8), I.PairBytes(ids, idx.offsets), ToLE(|deadIds|, 8);
    var d, e := I.IdBytes(deadIds), ToLE(idx.nextDocId, 8);
    FirstPart(a, b, c, d, e);
    SecondPart(a, b, c, d, e);
    ThirdPart(a, b, c, d, e);
    FourthPart(a, b, c, d, e);
    FifthPart(a, b, c, d, e);
  }

  lemma FirstPart(a: bytes, b: bytes, c: bytes, d: bytes, e: bytes)
    ensures (a + b + c + d + e)[0..|a|] == a
  {
  }

  lemma SecondPart(a: bytes, b: bytes, c: bytes, d: bytes, e: bytes)
    ensures (a + b + c + d + e)[|a|..|a| + |b|] == b
  {
  }

  lemma ThirdPart(a: bytes, b: bytes, c: bytes, d: bytes, e: bytes)
    ensures (a + b + c + d + e)[|a| + |b|..|a| + |b| + |c|] == c
  {
  }

  lemma FourthPart(a: bytes, b: bytes, c: bytes, d: bytes, e: bytes)
    ensures (a + b + c + d + e)[|a| + |b| + |c|..|a| + |b| + |c| + |d|] == d
  {
  }

  lemma FifthPart(a: bytes, b: bytes, c: bytes, d: bytes, e: bytes)
    ensures (a + b + c + d + e)[|a| + |b| + |c| + |d|..|a| + |b| + |c| + |d| + |e|] == e
  {
  }

  lemma WordOf(blob: bytes, i: nat, n: nat)
    requires n < U64_LIMIT && 8 * i + 8 <= |blob| && blob[8 * i..8 * i + 8] == ToLE(n, 8)
    ensures Word(blob, i) == n
  {
    hide ToLE, FromLE;
    U64RoundTrip(n);
  }

  lemma PairWordIs(blob: bytes, pairs: bytes, i: nat, id: nat, offset: nat)
    requires id < U64_LIMIT && offset < U64_LIMIT && 16 * i + 16 <= |pairs|
    requires pairs[16 * i..16 * i + 8] == ToLE(id, 8) && pairs[16 * i + 8..16 * i + 16] == ToLE(offset, 8)
    requires |blob| >= 16 + |pairs| && blob[8..8 + |pairs|] == pairs
    ensures IdWord(blob, i) == id && OffsetWord(blob, i) == offset
  {
    hide *;
    MarkWord(blob, 8, pairs, 2 * i, 1 + 2 * i, id);
    MarkWord(blob, 8, pairs, 2 * i + 1, 2 + 2 * i, offset);
    PairWordsAt(blob, i);
  }

  lemma PairWordsAt(blob: bytes, i: nat)
    requires 16 * i + 24 <= |blob|
    ensures IdWord(blob, i) == Word(blob, 1 + 2 * i) && OffsetWord(blob, i) == Word(blob, 2 + 2 * i)
  {
  }

  lemma PairFits(idx: I.Index, ids: seq<nat>, i: nat)
    requires idx.Fits() && (forall id | id in ids :: id in idx.offsets) && i < |ids|
    ensures ids[i] in idx.offsets && ids[i] < U64_LIMIT && idx.offsets[ids[i]] < U64_LIMIT
  {
    assert ids[i] in ids;
  }

  lemma DeadWordIs(blob: bytes, marks: bytes, n: nat, i: nat, id: nat)
    requires id < U64_LIMIT && 8 * i + 8 <= |marks| && marks[8 * i..8 * i + 8] == ToLE(id, 8)
    requires |blob| >= 24 + 16 * n + |marks| && blob[16 + 16 * n..16 + 16 * n + |marks|] == marks
    ensures DeadWord(blob, n, i) == id
  {
    hide *;
    MarkWord(blob, 16 + 16 * n, marks, i, 2 + 2 * n + i, id);
    DeadWordAt(blob, n, i);
  }

  lemma DeadWordAt(blob: bytes, n: nat, i: nat)
    requires 16 * n + 8 * i + 24 <= |blob|
    ensures DeadWord(blob, n, i) == Word(blob, 2 + 2 * n + i)
  {
  }

  lemma MarkWord(blob: bytes, base: nat, marks: bytes, i: nat, at: nat, id: nat)
    requires base + |marks| <= |blob| && blob[base..base + |marks|] == marks
    requires 8 * i + 8 <= |marks| && marks[8 * i..8 * i + 8] == ToLE(id, 8)
    requires 8 * at == base + 8 * i && id < U64_LIMIT
    ensures Word(blob, at) == id
  {
    hide *;
    SliceOfSlice(blob, base, |marks|, 8 * i);
    WordOf(blob, at, id);
  }

  lemma SliceOfSlice(s: bytes, lo: nat, len: nat, at: nat)
    requires lo + len <= |s| && at + 8 <= len
    ensures s[lo..lo + len][at..at + 8] == s[lo + at..lo + at + 8]
  {
    var t := s[lo..lo + len];
    assert forall p | at <= p < at + 8 :: t[p] == s[lo + p];
  }

  // And back.

  lemma SpeltEncodes(blob: bytes, idx: I.Index)
    requires idx.Fits() && Spells(blob, idx)
    ensures I.Encodes(blob, idx)
  {
    hide ToLE, FromLE, I.PairBytes, I.IdBytes, I.Lists, Word, IdWord, OffsetWord, DeadWord, I.Encodes, I.Index.Fits;
    var n, m := |idx.offsets|, |idx.dead|;
    var ids: seq<nat> := seq(n, i requires 0 <= i < n => IdWord(blob, i));
    var deadIds: seq<nat> := seq(m, i requires 0 <= i < m => DeadWord(blob, n, i));
    assert |idx.offsets| == |idx.offsets.Keys|;
    OnceEach(ids, idx.offsets.Keys);
    OnceEach(deadIds, idx.dead);
    PairsPart(blob, idx, ids);
    DeadPart(blob, n, deadIds);
    WordBytes(blob, 0);
    WordBytes(blob, 1 + 2 * n);
    WordBytes(blob, 2 + 2 * n + m);
    PartsEncode(blob, idx, ids, deadIds);
  }

  lemma PairsPart(blob: bytes, idx: I.Index, ids: seq<nat>)
    requires |blob| >= 24 + 16 * |ids|
    requires forall i | 0 <= i < |ids| ::
               ids[i] == IdWord(blob, i) && ids[i] in idx.offsets && idx.offsets[ids[i]] == OffsetWord(blob, i)
    ensures forall id | id in ids :: id in idx.offsets
    ensures blob[8..8 + 16 * |ids|] == I.PairBytes(ids, idx.offsets)
  {
    hide ToLE, I.PairBytes, Word, IdWord, OffsetWord;
    var n := |ids|;
    var pairs := blob[8..8 + 16 * n];
    forall i | 0 <= i < n
      ensures pairs[16 * i..16 * i + 8] == ToLE(ids[i], 8)
      ensures pairs[16 * i + 8..16 * i + 16] == ToLE(idx.offsets[ids[i]], 8)
    {
      PairMark(blob, n, i);
    }
    PairsSpelt(pairs, ids, idx.offsets);
  }

  lemma PairMark(blob: bytes, n: nat, i: nat)
    requires |blob| >= 24 + 16 * n && i < n
    ensures blob[8..8 + 16 * n][16 * i..16 * i + 8] == ToLE(IdWord(blob, i), 8)
    ensures blob[8..8 + 16 * n][16 * i + 8..16 * i + 16] == ToLE(OffsetWord(blob, i), 8)
  {
    hide ToLE, Word;
    WordBytes(blob, 1 + 2 * i);
    WordBytes(blob, 2 + 2 * i);
    SliceOfSlice(blob, 8, 16 * n, 16 * i);
    SliceOfSlice(blob, 8, 16 * n, 16 * i + 8);
  }

  lemma DeadPart(blob: bytes, n: nat, deadIds: seq<nat>)
    requires |blob| >= 24 + 16 * n + 8 * |deadIds|
    requires forall i | 0 <= i < |deadIds| :: deadIds[i] == DeadWord(blob, n, i)
    ensures blob[16 + 16 * n..16 + 16 * n + 8 * |deadIds|] == I.IdBytes(deadIds)
  {
    hide ToLE, I.IdBytes, Word, DeadWord;
    var m := |deadIds|;
    var marks := blob[16 + 16 * n..16 + 16 * n + 8 * m];
    forall i | 0 <= i < m
      ensures marks[8 * i..8 * i + 8] == ToLE(deadIds[i], 8)
    {
      DeadMark(blob, n, m, i);
    }
    IdsSpelt(marks, deadIds);
  }

  lemma DeadMark(blob: bytes, n: nat, m: nat, i: nat)
    requires |blob| >= 24 + 16 * n + 8 * m && i < m
    ensures blob[16 + 16 * n..16 + 16 * n + 8 * m][8 * i..8 * i + 8] == ToLE(DeadWord(blob, n, i), 8)
  {
    hide ToLE, Word;
    WordBytes(blob, 2 + 2 * n + i);
    SliceOfSlice(blob, 16 + 16 * n, 8 * m, 8 * i);
  }

  lemma PartsEncode(blob: bytes, idx: I.Index, ids: seq<nat>, deadIds: seq<nat>)
    requires I.Lists(ids, idx.offsets.Keys) && I.Lists(deadIds, idx.dead)
    requires var n, m := |ids|, |deadIds|;
             && |blob| == 24 + 16 * n + 8 * m
             && blob[0..8] == ToLE(n, 8)
             && blob[8..8 + 16 * n] == I.PairBytes(ids, idx.offsets)
             && blob[8 + 16 * n..16 + 16 * n] == ToLE(m, 8)
             && blob[16 + 16 * n..16 + 16 * n + 8 * m] == I.IdBytes(deadIds)
             && blob[16 + 16 * n + 8 * m..24 + 16 * n + 8 * m] == ToLE(idx.nextDocId, 8)
    ensures I.Encodes(blob, idx)
  {
    hide ToLE, I.PairBytes, I.IdBytes, I.Encoding;
    PartsMake(blob, idx, ids, deadIds);
  }

  lemma PartsMake(blob: bytes, idx: I.Index, ids: seq<nat>, deadIds: seq<nat>)
    requires forall id | id in ids :: id in idx.offsets
    requires var n, m := |ids|, |deadIds|;
             && |blob| == 24 + 16 * n + 8 * m
             && blob[0..8] == ToLE(n, 8)
             && blob[8..8 + 16 * n] == I.PairBytes(ids, idx.offsets)
             && blob[8 + 16 * n..16 + 16 * n] == ToLE(m, 8)
             && blob[16 + 16 * n..16 + 16 * n + 8 * m] == I.IdBytes(deadIds)
             && blob[16 + 16 * n + 8 * m..24 + 16 * n + 8 * m] == ToLE(idx.nextDocId, 8)
    ensures blob == I.Encoding(idx, ids, deadIds)
  {
    hide ToLE, I.PairBytes, I.IdBytes;
    var n, m := |ids|, |deadIds|;
    FiveParts(blob, 8, 8 + 16 * n, 16 + 16 * n, 16 + 16 * n + 8 * m);
  }

  lemma FiveParts(s: bytes, a: nat, b: nat, c: nat, d: nat)
    requires a <= b <= c <= d <= |s|
    ensures s == s[0..a] + s[a..b] + s[b..c] + s[c..d] + s[d..|s|]
  {
  }

  lemma WordBytes(blob: bytes, i: nat)
    requires 8 * i + 8 <= |blob|
    ensures blob[8 * i..8 * i + 8] == ToLE(Word(blob, i), 8)
  {
    hide ToLE, FromLE;
    ToFromLE(blob[8 * i..8 * i + 8]);
  }

  /** As many different members as the set has are all of them. */
  lemma OnceEach(order: seq<nat>, s: set<nat>)
    requires |order| == |s|
    requires forall i | 0 <= i < |order| :: order[i] in s
    requires forall i, j | 0 <= i < j < |order| :: order[i] != order[j]
    ensures I.Lists(order, s)
  {
    var listed := set x | x in order;
    I.ListsLength(order, listed);
    assert |s - listed| == |s| - |listed|;
    assert s - listed == {};
  }

  /** These pairs, sixteen bytes each. */
  ghost predicate PairsLie(s: bytes, order: seq<nat>, offsets: map<nat, nat>) {
    && (forall id | id in order :: id in offsets)
    && |s| == 16 * |order|
    && (forall i | 0 <= i < |order| :: s[16 * i..16 * i + 8] == ToLE(order[i], 8))
    && (forall i | 0 <= i < |order| :: s[16 * i + 8..16 * i + 16] == ToLE(offsets[order[i]], 8))
  }

  lemma PairsLieOn(s: bytes, order: seq<nat>, offsets: map<nat, nat>)
    requires PairsLie(s, order, offsets) && order != []
    ensures order[0] in offsets && |s| >= 16
    ensures s[0..8] == ToLE(order[0], 8) && s[8..16] == ToLE(offsets[order[0]], 8)
    ensures PairsLie(s[16..], order[1..], offsets)
  {
    hide ToLE;
    assert s[0..8] == s[16 * 0..16 * 0 + 8] && s[8..16] == s[16 * 0 + 8..16 * 0 + 16];
    forall i | 0 <= i < |order| - 1
      ensures s[16..][16 * i..16 * i + 8] == ToLE(order[1..][i], 8)
      ensures s[16..][16 * i + 8..16 * i + 16] == ToLE(offsets[order[1..][i]], 8)
    {
      Shifted(s, 16, 16 * i, 8);
      Shifted(s, 16, 16 * i + 8, 8);
      assert s[16 * (i + 1)..16 * (i + 1) + 8] == ToLE(order[i + 1], 8);
      assert s[16 * (i + 1) + 8..16 * (i + 1) + 16] == ToLE(offsets[order[i + 1]], 8);
    }
  }

  lemma {:induction false} PairsSpelt(s: bytes, order: seq<nat>, offsets: map<nat, nat>)
    requires PairsLie(s, order, offsets)
    ensures forall id | id in order :: id in offsets
    ensures s == I.PairBytes(order, offsets)
  {
    assert forall id | id in order :: id in offsets;
    assert |s| == 16 * |order|;
    hide ToLE, PairsLie;
    if order != [] {
      PairsLieOn(s, order, offsets);
      PairsSpelt(s[16..], order[1..], offsets);
      assert s == s[0..8] + s[8..16] + s[16..];
    }
  }

  lemma {:induction false} IdsSpelt(s: bytes, order: seq<nat>)
    requires |s| == 8 * |order|
    requires forall i | 0 <= i < |order| :: s[8 * i..8 * i + 8] == ToLE(order[i], 8)
    ensures s == I.IdBytes(order)
  {
    hide ToLE;
    if order != [] {
      var rest := s[8..];
      forall i | 0 <= i < |order| - 1
        ensures rest[8 * i..8 * i + 8] == ToLE(order[1..][i], 8)
      {
        Shifted(s, 8, 8 * i, 8);
        assert s[8 * (i + 1)..8 * (i + 1) + 8] == ToLE(order[i + 1], 8);
      }
      IdsSpelt(rest, order[1..]);
      assert s[0..8] == s[8 * 0..8 * 0 + 8];
      assert s == s[0..8] + rest;
    }
  }

  // Decoding any bytes at all.

  function PairId(s: bytes, i: nat): nat
    requires 16 * i + 16 <= |s|
  {
    FromLE(s[16 * i..16 * i + 8])
  }

  function PairOffset(s: bytes, i: nat): nat
    requires 16 * i + 16 <= |s|
  {
    FromLE(s[16 * i + 8..16 * i + 16])
  }

  function MarkId(s: bytes, i: nat): nat
    requires 8 * i + 8 <= |s|
  {
    FromLE(s[8 * i..8 * i + 8])
  }

  /** The last of `n` pairs for this id, counting down. */
  function LastPair(s: bytes, n: nat, id: nat): Option<nat>
    requires 16 * n <= |s|
    decreases n
  {
    if n == 0 then None else if PairId(s, n - 1) == id then Some(PairOffset(s, n - 1)) else LastPair(s, n - 1, id)
  }

  ghost predicate Marked(s: bytes, n: nat, id: nat)
    requires 8 * n <= |s|
  {
    exists i | 0 <= i < n :: MarkId(s, i) == id
  }

  /** Does the blob hold as many words as its own counts announce? */
  predicate Whole(blob: bytes) {
    && 8 <= |blob|
    && (var n := Word(blob, 0);
        && 16 + 16 * n <= |blob|
        && 24 + 16 * n + 8 * Word(blob, 1 + 2 * n) <= |blob|)
  }

  /**
    A blob decodes exactly when it is whole. Of several pairs with one id the last counts, repeated dead
    ids are one, and bytes after the next id are not looked at.
   */
  lemma BlobOutcome(blob: bytes)
    ensures !Whole(blob) ==> I.Decode(blob) == Err(CorruptIndex)
    ensures Whole(blob) ==>
              && I.Decode(blob).Ok?
              && var idx, n := I.Decode(blob).value, Word(blob, 0);
                 var m := Word(blob, 1 + 2 * n);
                 && idx.nextDocId == Word(blob, 2 + 2 * n + m)
                 && (forall id :: id in idx.dead <==> Marked(blob[16 + 16 * n..], m, id))
                 && (forall id :: LastPair(blob[8..], n, id)
                                  == if id in idx.offsets then Some(idx.offsets[id]) else None)
  {
    hide FromLE, I.TakePairs, I.TakeIds, LastPair;
    if |blob| >= 8 {
      var n := Word(blob, 0);
      var s := blob[8..];
      PairsTaken(s, n, map[]);
      if 16 + 16 * n <= |blob| {
        var m := Word(blob, 1 + 2 * n);
        assert s[16 * n..] == blob[8 + 16 * n..];
        var u := blob[16 + 16 * n..];
        assert s[16 * n..][8..] == u && s[16 * n..][..8] == blob[8 + 16 * n..16 + 16 * n];
        IdsTaken(u, m, {});
        if 24 + 16 * n + 8 * m <= |blob| {
          assert u[8 * m..][..8] == blob[16 + 16 * n + 8 * m..24 + 16 * n + 8 * m];
        }
      }
    }
  }

  lemma {:induction false} PairsTaken(s: bytes, n: nat, acc: map<nat, nat>)
    ensures I.TakePairs(s, n, acc).Ok? <==> 16 * n <= |s|
    ensures I.TakePairs(s, n, acc).Ok? ==>
              var (got, rest) := I.TakePairs(s, n, acc).value;
              && rest == s[16 * n..]
              && forall id :: (if id in got then Some(got[id]) else None)
                              == if LastPair(s, n, id).Some? then LastPair(s, n, id)
                                 else if id in acc then Some(acc[id]) else None
    decreases n
  {
    hide FromLE;
    if n > 0 && |s| >= 16 {
      var t := s[16..];
      assert s[8..][8..] == t && s[8..][..8] == s[8..16];
      var acc' := acc[FromLE(s[..8]) := FromLE(s[8..16])];
      PairsTaken(t, n - 1, acc');
      if 16 * n <= |s| {
        assert t[16 * (n - 1)..] == s[16 * n..];
        forall id
          ensures LastPair(s, n, id) == if LastPair(t, n - 1, id).Some? then LastPair(t, n - 1, id)
                                        else if PairId(s, 0) == id then Some(PairOffset(s, 0)) else None
        {
          LastPairShift(s, n, id);
        }
      }
    }
  }

  /** The first pair counts only when no later one has its id. */
  lemma {:induction false} LastPairShift(s: bytes, n: nat, id: nat)
    requires n > 0 && 16 * n <= |s|
    ensures LastPair(s, n, id) == if LastPair(s[16..], n - 1, id).Some? then LastPair(s[16..], n - 1, id)
                                  else if PairId(s, 0) == id then Some(PairOffset(s, 0)) else None
    decreases n
  {
    hide FromLE;
    if n > 1 {
      LastPairShift(s, n - 1, id);
      Shifted(s, 16, 16 * (n - 2), 8);
      Shifted(s, 16, 16 * (n - 2) + 8, 8);
      assert PairId(s[16..], n - 2) == PairId(s, n - 1) && PairOffset(s[16..], n - 2) == PairOffset(s, n - 1);
    }
  }

  lemma {:induction false} IdsTaken(s: bytes, n: nat, acc: set<nat>)
    ensures I.TakeIds(s, n, acc).Ok? <==> 8 * n <= |s|
    ensures I.TakeIds(s, n, acc).Ok? ==>
              var (got, rest) := I.TakeIds(s, n, acc).value;
              && rest == s[8 * n..]
              && forall id :: id in got <==> id in acc || Marked(s, n, id)
    decreases n
  {
    hide FromLE;
    if n > 0 && |s| >= 8 {
      var t := s[8..];
      IdsTaken(t, n - 1, acc + {FromLE(s[..8])});
      if 8 * n <= |s| {
        assert t[8 * (n - 1)..] == s[8 * n..];
        assert MarkId(s, 0) == FromLE(s[..8]);
        forall id
          ensures Marked(s, n, id) <==> MarkId(s, 0) == id || Marked(t, n - 1, id)
        {
          MarkedStep(s, n, id);
        }
      }
    }
  }

  lemma MarkedStep(s: bytes, n: nat, id: nat)
    requires n > 0 && 8 * n <= |s|
    ensures Marked(s, n, id) <==> MarkId(s, 0) == id || Marked(s[8..], n - 1, id)
  {
    hide FromLE;
    var t := s[8..];
    forall i | 0 <= i < n - 1
      ensures MarkId(t, i) == MarkId(s, i + 1)
    {
      Shifted(s, 8, 8 * i, 8);
    }
    if i :| 0 < i < n && MarkId(s, i) == id {
      assert MarkId(t, i - 1) == id;
    }
  }
}
