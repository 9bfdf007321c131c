/** The pool of controllers, and what the driver's entry points keep over every run. */
module SdMmcDriver {
  import opened SdCommands
  import opened FirmwareServices
  import opened SdMmcHost
  import BlockIoRequests
  import RpmbRequests

  /** What one controller does leaves the database entries of the others alone. */
  lemma {:induction false} OthersUntouched(before: Database, after: Database, handle: Handle, other: Handle)
    requires Others(before, handle) == Others(after, handle) && other != handle
    ensures InstalledFor(before, other) == InstalledFor(after, other)
  {
    forall p
      ensures (other, p) in before <==> (other, p) in after
    {
      assert (other, p) in before <==> (other, p) in Others(before, handle);
      assert (other, p) in after <==> (other, p) in Others(after, handle);
    }
  }

  class Driver {
    const firmware: BootServices
    var pool: seq<Host>

    ghost predicate Valid()
      reads this, firmware, pool
    {
      && AtMostOneRpmb(firmware.db)
      && (forall i :: 0 <= i < |pool| ==> pool[i].firmware == firmware && pool[i].Valid())
      && (forall i, j :: 0 <= i < j < |pool| ==> pool[i] != pool[j] && pool[i].id != pool[j].id)
    }

    constructor (firmware: BootServices)
      requires firmware.db == {}
      ensures Valid() && pool == [] && this.firmware == firmware
    {
      this.firmware := firmware;
      pool := [];
    }

    /** At any time at most one controller of the pool offers RpmbIo, and the flags say which. */
    lemma OneRpmbInPool(i: nat, j: nat)
      requires Valid() && i < |pool| && j < |pool|
      requires pool[i].installed.rpmbIo && pool[j].installed.rpmbIo
      ensures i == j
    {
      assert (pool[i].id, RpmbIo) in firmware.db && (pool[j].id, RpmbIo) in firmware.db;
    }

    // After one controller acted, the pool is valid again.
    twostate lemma StaysValid(k: nat)
      requires old(Valid()) && k < |pool| && pool == old(pool)
      requires pool[k].Advanced()
      requires forall i :: 0 <= i < |pool| && i != k ==> unchanged(pool[i])
      ensures Valid()
    {
      forall i | 0 <= i < |pool|
        ensures pool[i].Valid()
      {
        if i != k {
          OthersUntouched(old(firmware.db), firmware.db, pool[k].id, pool[i].id);
        }
      }
    }

    // A new controller, which then has its slot looked at with all the others.
    method Start(id: Handle, hardware: nat -> Reply, maximumBlockCount: nat)
      requires Valid()
      requires forall i :: 0 <= i < |pool| ==> pool[i].id != id
      requires forall p :: (id, p) !in firmware.db
      modifies this, firmware, pool
      ensures Valid()
      ensures |pool| == |old(pool)| + 1 && pool[..|old(pool)|] == old(pool)
      ensures fresh(pool[|pool| - 1]) && pool[|pool| - 1].id == id
    {
      var host := new Host(id, firmware, hardware, maximumBlockCount);
      pool := pool + [host];
      CheckCards();
    }

    twostate predicate WasChecked(host: Host)
      reads host
    {
      host.softResets > old(host.softResets) <==> old(host.media.present) != host.hardware(old(host.requests)).yes
    }

    /** A card that came or went resets its controller, and only that one. */
    method CheckCards()
      requires Valid()
      modifies firmware, pool
      ensures Valid()
      ensures forall i :: 0 <= i < |pool| ==> WasChecked(pool[i])
    {
      var k := 0;
      while k < |pool|
        invariant 0 <= k <= |pool|
        invariant Valid()
        invariant forall i :: 0 <= i < k ==> WasChecked(pool[i])
        invariant forall i :: k <= i < |pool| ==> unchanged(pool[i])
      {
        CheckCard(k);
        k := k + 1;
      }
    }

    // One controller of the pool.
    method CheckCard(k: nat)
      requires Valid() && k < |pool|
      modifies firmware, pool[k]
      ensures Valid()
      ensures WasChecked(pool[k])
    {
      hide IsWindow;
      var host := pool[k];
      var present := host.hardware(host.requests).yes;
      host.requests := host.requests + 1;
      var ejected := host.media.present && !present;
      var inserted := !host.media.present && present;
      assert Valid();
      label checked:
      if ejected || inserted {
        var _, _, _ := host.SoftReset();
        StaysValid@checked(k);
      }
    }

    method BlockIoReset(k: nat) returns (ok: bool, ghost published: bool, ghost left: Installed)
      requires Valid() && k < |pool|
      modifies firmware, pool[k]
      ensures Valid() && pool[k].softResets > old(pool[k].softResets)
      ensures published ==> ok && pool[k].Published()
      ensures !published ==>
                ok == ((left.rpmbIo || left.devicePath) && firmware.requests > 0
                       && firmware.grants(firmware.requests - 1))
    {
      ok, published, left := pool[k].SoftReset();
      StaysValid(k);
    }

    method BlockIoTransfer(k: nat, direction: TransferDirection, mediaId: nat, lba: nat, bufferSize: nat, buffer: nat)
      returns (status: BlockIoRequests.Status)
      requires Valid() && k < |pool|
      requires direction == Read || direction == Write
      requires BlockIoRequests.MaxTransferSize(pool[k].maximumBlockCount) > 0
      modifies firmware, pool[k]
      ensures Valid()
      ensures status == BlockIoRequests.Undefined && bufferSize < 0x1_0000_0000 && old(pool[k].media.blockSize) != 0 ==>
                pool[k].softResets > old(pool[k].softResets)
    {
      ghost var outcomes, marks;
      status, outcomes, marks := BlockIoRequests.IoBlocks(pool[k], direction, mediaId, lba, bufferSize, buffer, 0);
      StaysValid(k);
    }

    method RpmbIoRequest(k: nat, kind: RpmbRequests.RequestType, requestPackets: nat, responsePackets: nat)
      returns (ok: bool)
      requires Valid() && k < |pool|
      requires requestPackets > 0
      modifies firmware, pool[k]
      ensures Valid()
      ensures ok ==> pool[k].currentPartition == old(pool[k].currentPartition)
    {
      var entered, restored;
      ghost var opening;
      ok, entered, restored, opening := RpmbRequests.RpmbRequest(pool[k], kind, requestPackets, responsePackets);
      StaysValid(k);
    }
  }
}
