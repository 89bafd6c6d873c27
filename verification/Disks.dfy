/**
  The file as a disk sees it: a durable image and the byte stores not yet synced. Reads go through
  the cached view. A power loss keeps, byte by byte, either what was durable or anything stored
  since; a killed process leaves the cached view, still unsynced.
 */
module Disks {
  import opened Bytes

  datatype Store = Store(pos: nat, val: byte)

  datatype Disk = Disk(durable: bytes, pending: seq<Store>)
  {
    function View(): bytes {
      Apply(durable, pending)
    }

    /** `data` written at `off`, one store per byte. */
    function Written(off: nat, data: bytes): Disk {
      Disk(durable, pending + Stores(off, data))
    }

    /** After a successful `sync_data`. */
    function Synced(): Disk {
      Disk(View(), [])
    }

    /** No unsynced store falls in `[lo, hi)`. */
    ghost predicate Untouched(lo: nat, hi: nat) {
      forall s | s in pending :: !(lo <= s.pos < hi)
    }

    predicate MayHold(p: nat, val: byte) {
      (if p < |durable| then val == durable[p] else val == 0) || Store(p, val) in pending
    }

    /** A file that a power loss may leave behind. */
    ghost predicate Image(img: bytes) {
      && |durable| <= |img| <= |View()|
      && forall p | 0 <= p < |img| :: MayHold(p, img[p])
    }
  }

  /** One byte stored; a gap past the end of the file reads as zeros. */
  function Put(img: bytes, s: Store): bytes {
    if s.pos < |img| then img[s.pos := s.val] else img + Zeros(s.pos - |img|) + [s.val]
  }

  function Apply(img: bytes, stores: seq<Store>): bytes {
    if stores == [] then img else Put(Apply(img, stores[..|stores| - 1]), stores[|stores| - 1])
  }

  function Stores(off: nat, data: bytes): seq<Store> {
    seq(|data|, i requires 0 <= i < |data| => Store(off + i, data[i]))
  }

  lemma StoresLast(stores: seq<Store>, off: nat, data: bytes)
    requires data != []
    ensures var all := stores + Stores(off, data);
            var n := |data| - 1;
            && all != []
            && all[..|all| - 1] == stores + Stores(off, data[..n])
            && all[|all| - 1] == Store(off + n, data[n])
  {
  }

  lemma PutExtendsSplice(img: bytes, off: nat, data: bytes)
    requires off <= |img| && data != []
    ensures var n := |data| - 1; Put(Splice(img, off, data[..n]), Store(off + n, data[n])) == Splice(img, off, data)
  {
  }

  lemma {:induction false} ApplyStores(img: bytes, stores: seq<Store>, off: nat, data: bytes)
    requires off <= |Apply(img, stores)|
    ensures Apply(img, stores + Stores(off, data)) == Splice(Apply(img, stores), off, data)
  {
    var cur := Apply(img, stores);
    if data == [] {
      assert stores + Stores(off, data) == stores;
      assert Splice(cur, off, data) == cur;
    } else {
      hide Put, Splice, Stores;
      ApplyStores(img, stores, off, data[..|data| - 1]);
      StoresLast(stores, off, data);
      PutExtendsSplice(cur, off, data);
    }
  }

  /** What reads see after a write that leaves no gap. */
  lemma ViewWritten(d: Disk, off: nat, data: bytes)
    requires off <= |d.View()|
    ensures d.Written(off, data).View() == Splice(d.View(), off, data)
  {
    ApplyStores(d.durable, d.pending, off, data);
  }

  /** A write in two pieces is the write of the whole. */
  lemma WrittenConcat(d: Disk, off: nat, a: bytes, b: bytes)
    ensures d.Written(off, a).Written(off + |a|, b) == d.Written(off, a + b)
  {
    assert Stores(off, a) + Stores(off + |a|, b) == Stores(off, a + b);
    assert d.pending + Stores(off, a) + Stores(off + |a|, b) == d.pending + (Stores(off, a) + Stores(off + |a|, b));
  }

  lemma WrittenNothing(d: Disk, off: nat)
    ensures d.Written(off, []) == d
  {
    assert d.pending + Stores(off, []) == d.pending;
  }

  /** The cached view is one of the images a power loss may leave: everything landed. */
  lemma ViewIsImage(d: Disk)
    ensures d.Image(d.View())
  {
    ApplyHolds(d.durable, d.pending);
  }

  lemma {:induction false} ApplyHolds(img: bytes, stores: seq<Store>)
    ensures |img| <= |Apply(img, stores)|
    ensures forall p | 0 <= p < |Apply(img, stores)| :: Disk(img, stores).MayHold(p, Apply(img, stores)[p])
  {
    if stores != [] {
      var n := |stores| - 1;
      ApplyHolds(img, stores[..n]);
      var before, after := Apply(img, stores[..n]), Apply(img, stores);
      forall p | 0 <= p < |after|
        ensures Disk(img, stores).MayHold(p, after[p])
      {
        if p == stores[n].pos {
          assert stores[n] in stores;
        } else if p < |before| {
          assert Disk(img, stores[..n]).MayHold(p, before[p]);
        }
      }
    }
  }

  /** Bytes with no store pending over them survive any power loss, and the cached view agrees. */
  lemma ImageKeeps(d: Disk, img: bytes, lo: nat, hi: nat)
    requires d.Image(img) && lo <= hi <= |d.durable| && d.Untouched(lo, hi)
    ensures hi <= |img| && img[lo..hi] == d.durable[lo..hi]
  {
    forall p | lo <= p < hi
      ensures img[p] == d.durable[p]
    {
      assert d.MayHold(p, img[p]);
    }
  }

  /** After a power loss there is only one image left: nothing is pending. */
  lemma SettledImage(d: Disk, img: bytes)
    requires d.pending == [] && d.Image(img)
    ensures img == d.durable == d.View()
  {
  }
}
