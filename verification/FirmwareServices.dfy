/** The part of the UEFI boot services the SD/MMC driver relies on: the protocol database. */
module FirmwareServices {

  datatype Protocol = BlockIo | DevicePath | RpmbIo

  type Handle = nat
  type Database = set<(Handle, Protocol)>

  /** Every entry that belongs to some other controller. */
  function Others(db: Database, handle: Handle): Database {
    set entry | entry in db && entry.0 != handle
  }

  ghost predicate AtMostOneRpmb(db: Database) {
    forall h1, h2 :: (h1, RpmbIo) in db && (h2, RpmbIo) in db ==> h1 == h2
  }

  class BootServices {
    // Which of its install and uninstall requests the firmware grants is unknown.
    const grants: nat -> bool
    var requests: nat
    var db: Database

    constructor (grants: nat -> bool)
      ensures db == {} && requests == 0 && this.grants == grants
    {
      this.grants := grants;
      requests := 0;
      db := {};
    }

    method Install(handle: Handle, protocol: Protocol) returns (ok: bool)
      modifies this
      ensures ok == ((handle, protocol) !in old(db) && grants(old(requests))) && requests == old(requests) + 1
      ensures ok ==> db == old(db) + {(handle, protocol)}
      ensures !ok ==> db == old(db)
    {
      ok := (handle, protocol) !in db && grants(requests);
      requests := requests + 1;
      if ok {
        db := db + {(handle, protocol)};
      }
    }

    method Uninstall(handle: Handle, protocol: Protocol) returns (ok: bool)
      modifies this
      ensures ok == ((handle, protocol) in old(db) && grants(old(requests))) && requests == old(requests) + 1
      ensures ok ==> db == old(db) - {(handle, protocol)}
      ensures !ok ==> db == old(db)
    {
      ok := (handle, protocol) in db && grants(requests);
      requests := requests + 1;
      if ok {
        db := db - {(handle, protocol)};
      }
    }

    method Locate(protocol: Protocol) returns (found: bool)
      ensures found <==> exists h :: (h, protocol) in db
    {
      found := exists entry :: entry in db && entry.1 == protocol;
      if found {
        ghost var entry :| entry in db && entry.1 == protocol;
        assert (entry.0, protocol) in db;
      }
    }
  }
}
