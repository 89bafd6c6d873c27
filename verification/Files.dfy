/**
  Positioned file I/O (src/storage/pos_io.rs): exact reads and writes as loops over a device that may
  transfer fewer bytes than asked, be interrupted, or fail.
 */
module Files {
  import opened Bytes
  import opened Results
  import opened Disks
  import opened Protocol

  datatype Transfer = Count(n: nat) | Interrupted | Failed

  class File {
    var durable: bytes
    var pending: seq<Store>

    /** How often the device will still interrupt a transfer. */
    var interruptions: nat

    /** How many I/O errors the device has reported. */
    var faults: nat

    // The machine state this file is in, and the actions that led there.
    ghost var state: State
    ghost var trace: seq<Action>

    function Disk(): Disk
      reads this`durable, this`pending
    {
      Disks.Disk.Disk(durable, pending)
    }

    function View(): bytes
      reads this`durable, this`pending
    {
      Disk().View()
    }

    /** `seek_write`: some prefix of the buffer is written. */
    method SeekWrite(buf: bytes, offset: nat) returns (r: Transfer)
      modifies this`pending, this`interruptions, this`faults
      ensures r.Count? ==> r.n <= |buf| && Disk() == old(Disk()).Written(offset, buf[..r.n])
      ensures r.Count? && buf != [] && faults == old(faults) ==> r.n > 0
      ensures !r.Count? ==> Disk() == old(Disk())
      ensures r.Interrupted? ==> interruptions < old(interruptions)
      ensures interruptions <= old(interruptions)
      ensures faults >= old(faults) && (r.Failed? ==> faults > old(faults))
    {
      if * {
        if interruptions == 0 {
          faults := faults + 1;
          return Failed;
        }
        interruptions := interruptions - 1;
        return Interrupted;
      }
      if * {
        faults := faults + 1;
        return Failed;
      }
      var n: nat :| n <= |buf|;
      if n == 0 {
        faults := faults + 1;
      }
      pending := pending + Stores(offset, buf[..n]);
      r := Count(n);
    }

    /** `seek_read` into `buf[at..]`: some prefix of what the file holds there; nothing only at its end. */
    method SeekRead(buf: array<byte>, at: nat, offset: nat) returns (r: Transfer)
      requires at <= buf.Length
      modifies buf, this`interruptions, this`faults
      ensures r.Count? ==> at + r.n <= buf.Length
      ensures r.Count? && r.n > 0 ==> offset + r.n <= |View()| && buf[at..at + r.n] == View()[offset..offset + r.n]
      ensures r.Count? && r.n == 0 && at < buf.Length ==> |View()| <= offset
      ensures forall p | 0 <= p < buf.Length && !(r.Count? && at <= p < at + r.n) :: buf[p] == old(buf[p])
      ensures r.Interrupted? ==> interruptions < old(interruptions)
      ensures interruptions <= old(interruptions)
      ensures faults >= old(faults) && (r.Failed? ==> faults > old(faults))
    {
      if * {
        if interruptions == 0 {
          faults := faults + 1;
          return Failed;
        }
        interruptions := interruptions - 1;
        return Interrupted;
      }
      if * {
        faults := faults + 1;
        return Failed;
      }
      var available := if offset < |View()| then |View()| - offset else 0;
      if available == 0 || at == buf.Length {
        return Count(0);
      }
      var n: nat :| 0 < n <= available && at + n <= buf.Length;
      forall p | at <= p < at + n {
        buf[p] := View()[offset + p - at];
      }
      r := Count(n);
    }

    /**
      `write_all_at`: the loop goes on after short writes and interruptions. Whatever happens, a prefix
      of the buffer has been written and nothing else; all of it exactly when the call succeeds.
     */
    method WriteAllAt(buf: bytes, offset: nat) returns (r: Result<()>, ghost written: nat)
      modifies this`pending, this`interruptions, this`faults
      ensures written <= |buf|
      ensures Disk() == old(Disk()).Written(offset, buf[..written])
      ensures r.Ok? <==> written == |buf|
      ensures r.Err? ==> r.error == Io && faults > old(faults)
      ensures faults >= old(faults)
    {
      var done := 0;
      WrittenNothing(Disk(), offset);
      assert buf[..0] == [];
      while done < |buf|
        invariant done <= |buf|
        invariant Disk() == old(Disk()).Written(offset, buf[..done])
        invariant faults >= old(faults)
        decreases |buf| - done, interruptions
      {
        label before:
        var t := SeekWrite(buf[done..], offset + done);
        match t {
          case Count(n) =>
            if n == 0 {
              WrittenNothing(old@before(Disk()), offset + done);
              assert buf[done..][..0] == [];
              return Err(Io), done;
            }
            WrittenConcat(old(Disk()), offset, buf[..done], buf[done..][..n]);
            assert buf[..done] + buf[done..][..n] == buf[..done + n];
            done := done + n;
          case Interrupted =>
          case Failed =>
            return Err(Io), done;
        }
      }
      assert buf[..done] == buf;
      r, written := Ok(()), done;
    }

    /**
      `read_exact_at`: the buffer is filled step by step. Success means it holds exactly the file's
      bytes; without an I/O error the only failure is reading past the end.
     */
    method ReadExactAt(buf: array<byte>, offset: nat) returns (r: Result<()>)
      modifies buf, this`interruptions, this`faults
      ensures r.Ok? ==> offset + buf.Length <= |View()| || buf.Length == 0
      ensures r.Ok? && buf.Length > 0 ==> buf[..] == View()[offset..offset + buf.Length]
      ensures r.Err? ==> r.error == Io && buf.Length > 0 && (faults > old(faults) || offset + buf.Length > |View()|)
      ensures faults >= old(faults)
    {
      hide Disks.Disk.View;
      var done := 0;
      while done < buf.Length
        invariant done <= buf.Length
        invariant done > 0 ==> offset + done <= |View()| && buf[..done] == View()[offset..offset + done]
        invariant faults >= old(faults)
        decreases buf.Length - done, interruptions
      {
        label before:
        ghost var had := buf[..done];
        var t := SeekRead(buf, done, offset + done);
        assert buf[..done] == had;
        match t {
          case Count(n) =>
            if n == 0 {
              return Err(Io);
            }
            ghost var whole := buf[..];
            assert had == whole[0..done] && buf[done..done + n] == whole[0 + done..0 + done + n];
            FilledFurther(whole, 0, done, n);
            FilledFurther(View(), offset, done, n);
            assert buf[..done + n] == whole[0..0 + done + n];
            done := done + n;
          case Interrupted =>
          case Failed =>
            return Err(Io);
        }
      }
      assert buf[..done] == buf[..];
      r := Ok(());
    }

    /** `sync_data` and `sync_all`: everything pending becomes durable, or stays pending. */
    method SyncData() returns (r: Result<()>)
      modifies this`durable, this`pending, this`faults
      ensures r.Ok? ==> Disk() == old(Disk()).Synced()
      ensures r.Err? ==> Disk() == old(Disk()) && r.error == Io && faults > old(faults)
      ensures faults >= old(faults)
    {
      if * {
        faults := faults + 1;
        return Err(Io);
      }
      durable, pending := View(), [];
      r := Ok(());
    }

    /** The power fails: some image of the unsynced file is all that is left. */
    method LosePower(image: bytes)
      requires Recorded() && Disk().Image(image)
      modifies this
      ensures Disk() == Disks.Disk.Disk(image, [])
      ensures Recorded() && state == DoPowerLoss(old(state), image)
    {
      hide Genesis, Run, Disks.Disk.View, Disks.Disk.Image, Collision;
      durable, pending := image, [];
      Record(PowerLoss(image), DoPowerLoss(state, image));
    }

    /** The file is where the recorded actions lead. */
    ghost predicate Recorded()
      reads this
    {
      state.disk == Disk() && Run(Genesis(), trace, state)
    }

    /** One more action, which has just happened to the file. */
    ghost method Record(a: Action, t: State)
      requires Run(Genesis(), trace, state)
      requires Step(state, a, t) && t.disk == Disk()
      modifies this`state, this`trace
      ensures Recorded()
      ensures state == t && trace == old(trace) + [a]
    {
      hide Genesis, Step;
      var more := trace + [a];
      assert more[..|more| - 1] == trace && more[|more| - 1] == a;
      assert Run(Genesis(), more, t);
      trace, state := more, t;
    }
  }

  lemma FilledFurther(view: bytes, offset: nat, done: nat, n: nat)
    requires offset + done + n <= |view|
    ensures view[offset..offset + done + n] == view[offset..offset + done] + view[offset + done..offset + done + n]
  {
  }
}
