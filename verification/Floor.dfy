/** The anti-rollback floor: how far the bundle channel has advanced here. */
module Floors {
  import opened Times
  import opened Wrappers
  import opened Digest
  import Text

  const FLOOR_SCHEMA := 1

  datatype Floor = Floor(
    schema: int, minVersion: int, headDigest: string, minSerial: int, indicatorCount: int, rootGeneration: int,
    acceptedAt: string, checkedAt: string)

  predicate ValidFloor(stamp: Stamp, f: Floor) {
    && f.schema == FLOOR_SCHEMA
    && f.minVersion >= 0 && f.minSerial >= 0 && f.indicatorCount >= 0
    && (f.minVersion > 0 ==> ValidDigest(f.headDigest) && stamp(f.acceptedAt).Some?)
    && (f.checkedAt != "" ==> stamp(f.checkedAt).Some?)
  }

  /** The encoder writes a floor unless some text of it is not UTF-8. */
  predicate Encodes(f: Floor) {
    Text.ValidUtf8(f.headDigest) && Text.ValidUtf8(f.acceptedAt) && Text.ValidUtf8(f.checkedAt)
  }

  /** What is found where the floor is kept; anything unreadable, unsafe or not
      written by this tool is `Corrupt`. */
  datatype Disk = Missing | Corrupt | Stored(floor: Floor)

  /** "I could not read the floor" is never "there is no floor". */
  function LoadFloor(stamp: Stamp, disk: Disk): Result<Option<Floor>, ()> {
    match disk
    case Missing => Ok(None)
    case Corrupt => Err(())
    case Stored(f) => if ValidFloor(stamp, f) then Ok(Some(f)) else Err(())
  }

  /** What a save under the lock leaves on disk, or None when it refuses. */
  function SaveFloor(stamp: Stamp, disk: Disk, f: Floor): Option<Disk> {
    var f' := f.(schema := FLOOR_SCHEMA);
    if !ValidFloor(stamp, f') || !Encodes(f') then None
    else
      match LoadFloor(stamp, disk)
      case Err(_) => None
      case Ok(None) => Some(Stored(f'))
      case Ok(Some(cur)) => if f'.minVersion < cur.minVersion || f'.minSerial < cur.minSerial then None else Some(Stored(f'))
  }

  /** A floor someone saves, and what becomes of the write. */
  datatype Proposal = Proposal(floor: Floor, write: Write)

  /** What a save leaves on disk, whatever it then reports. */
  function AfterSave(stamp: Stamp, disk: Disk, p: Proposal): Disk {
    match SaveFloor(stamp, disk, p.floor)
    case None => disk
    case Some(d) => if p.write.NotRenamed? then disk else d
  }

  class FloorStore {
    var disk: Disk

    constructor ()
      ensures disk == Missing
    {
      disk := Missing;
    }

    method Load(stamp: Stamp) returns (r: Result<Option<Floor>, ()>)
      ensures r == LoadFloor(stamp, disk)
    {
      match disk {
        case Missing => return Ok(None);
        case Corrupt => return Err(());
        case Stored(f) => return if ValidFloor(stamp, f) then Ok(Some(f)) else Err(());
      }
    }

    /** Re-reads the floor under the lock and refuses any decrease. `locked` is
        whether the lock was had, `write` what became of the file. A failed save has
        left the floor alone, unless it is the sync after the rename that failed. */
    method Save(stamp: Stamp, f: Floor, locked: bool, write: Write) returns (ok: bool)
      modifies this
      ensures ok <==> locked && write.Synced? && SaveFloor(stamp, old(disk), f).Some?
      ensures disk == if locked then AfterSave(stamp, old(disk), Proposal(f, write)) else old(disk)
      ensures !ok ==> disk == old(disk) || (write.Unsynced? && SaveFloor(stamp, old(disk), f) == Some(disk))
    {
      if !locked {
        return false;
      }
      var f' := f.(schema := FLOOR_SCHEMA);
      if !ValidFloor(stamp, f') {
        return false;
      }
      var cur := Load(stamp);
      if cur.Err? {
        return false;
      }
      if cur.value.Some? && (f'.minVersion < cur.value.value.minVersion || f'.minSerial < cur.value.value.minSerial) {
        return false;
      }
      if !Encodes(f') || write.NotRenamed? {
        return false;
      }
      disk := Stored(f');
      return write.Synced?;
    }
  }

  // -- any writers, in any order --------------------------------------------

  /** The disk after a list of saves, each a proposal from anyone at all: since a
      save is one step under the lock, this is every interleaving of updaters. */
  function AfterSaves(stamp: Stamp, disk: Disk, proposals: seq<Proposal>): Disk {
    if proposals == [] then disk
    else AfterSave(stamp, AfterSaves(stamp, disk, proposals[..|proposals| - 1]), proposals[|proposals| - 1])
  }

  /** Neither counter ever goes down, whatever is proposed and whenever. */
  lemma {:induction false} CountersNeverFall(stamp: Stamp, disk: Disk, proposals: seq<Proposal>)
    requires LoadFloor(stamp, disk).Ok?
    ensures LoadFloor(stamp, AfterSaves(stamp, disk, proposals)).Ok?
    ensures disk.Stored? ==>
      var after := AfterSaves(stamp, disk, proposals);
      after.Stored? && after.floor.minVersion >= disk.floor.minVersion && after.floor.minSerial >= disk.floor.minSerial
    decreases |proposals|
  {
    if proposals == [] {
    } else {
      CountersNeverFall(stamp, disk, proposals[..|proposals| - 1]);
    }
  }

  /** The counters are all a save looks at: it replaces the digest of the version it
      finds recorded exactly when the floor is valid and can be written, of that version, of no earlier
      serial and of another digest. */
  lemma ReplacesDigestExactly(stamp: Stamp, cur: Floor, f: Floor)
    requires ValidFloor(stamp, cur)
    ensures var after := SaveFloor(stamp, Stored(cur), f);
      (after.Some? && after.value.floor.minVersion == cur.minVersion && after.value.floor.headDigest != cur.headDigest)
      <==> ValidFloor(stamp, f.(schema := FLOOR_SCHEMA)) && Encodes(f) && f.minVersion == cur.minVersion
           && f.minSerial >= cur.minSerial && f.headDigest != cur.headDigest
  {
  }

  /** After one save, another is taken exactly when its floor is valid and can be written and neither
      counter is below the first one's; the digests may be anything. */
  lemma SecondSaveExactly(stamp: Stamp, disk: Disk, f: Floor, g: Floor)
    requires SaveFloor(stamp, disk, f).Some?
    ensures var mid, f', g' := SaveFloor(stamp, disk, f).value, f.(schema := FLOOR_SCHEMA), g.(schema := FLOOR_SCHEMA);
      && mid == Stored(f') && AfterSaves(stamp, disk, [Proposal(f, Synced)]) == mid
      && (SaveFloor(stamp, mid, g).Some? <==>
            ValidFloor(stamp, g') && Encodes(g) && g.minVersion >= f.minVersion && g.minSerial >= f.minSerial)
      && AfterSaves(stamp, disk, [Proposal(f, Synced), Proposal(g, Synced)])
         == if SaveFloor(stamp, mid, g).Some? then Stored(g') else mid
  {
    var p, q := Proposal(f, Synced), Proposal(g, Synced);
    assert [p, q][..1] == [p] && [p][..0] == [];
    assert AfterSaves(stamp, disk, []) == disk;
  }
}
