/**
 * The `verifications` table and its three operations. Each operation runs in its own session:
 * a commit makes its change, a failure rolls the session back and leaves the table as it was.
 */
module VerificationDb {
  import opened Base

  /** A row of `verifications` (the surrogate integer primary key is not modelled). */
  datatype Record = Record(
    verificationId: string,          // unique, not null
    faceEncodingPath: string,        // not null
    imagePath: Option<string>,
    createdAt: int,                  // defaults to datetime.utcnow()
    walletAddress: Option<string>,
    isActive: int)                   // defaults to 1

  /** The table, by `verification_id`. */
  type Table = map<string, Record>

  /** Every row sits under its own `verification_id` and `is_active` is 1 or 0. */
  predicate TableValid(t: Table)
  {
    forall k :: k in t ==> t[k].verificationId == k && (t[k].isActive == 0 || t[k].isActive == 1)
  }

  /** The row `create_verification` builds: the given columns, the clock, `is_active = 1`. */
  function NewRecord(id: string, encodingPath: string, imagePath: Option<string>,
                     wallet: Option<string>, now: int): (r: Record)
    ensures r.verificationId == id && r.faceEncodingPath == encodingPath && r.imagePath == imagePath
    ensures r.walletAddress == wallet && r.createdAt == now
    ensures r.isActive == 1
    ensures TableValid(map[id := r])
  {
    Record(id, encodingPath, imagePath, now, wallet, 1)
  }

  /**
   * The table after `create_verification`: a new `verification_id` gains its row; an existing
   * one violates the unique constraint, the session rolls back and nothing changes.
   */
  function AfterCreate(t: Table, rec: Record): (t': Table)
    ensures rec.verificationId in t ==> t' == t
    ensures rec.verificationId !in t ==> t'.Keys == t.Keys + {rec.verificationId} && t'[rec.verificationId] == rec
    ensures forall k :: k in t ==> k in t' && t'[k] == t[k]
  {
    if rec.verificationId in t then t else t[rec.verificationId := rec]
  }

  /**
   * The table after `deactivate_verification`: the row, if present, gets `is_active = 0` and
   * stays; no row is deleted and no other row or column changes.
   */
  function AfterDeactivate(t: Table, id: string): (t': Table)
    ensures t'.Keys == t.Keys
    ensures forall k :: k in t && k != id ==> t'[k] == t[k]
    ensures id in t ==> t'[id].isActive == 0 && t'[id].(isActive := t[id].isActive) == t[id]
  {
    if id in t then t[id := t[id].(isActive := 0)] else t
  }

  lemma AfterCreateValid(t: Table, rec: Record)
    requires TableValid(t)
    requires rec.isActive == 1 || rec.isActive == 0
    ensures TableValid(AfterCreate(t, rec))
  {
  }

  lemma AfterDeactivateValid(t: Table, id: string)
    requires TableValid(t)
    ensures TableValid(AfterDeactivate(t, id))
  {
  }

  /** Deactivating twice is deactivating once. */
  lemma DeactivateIdempotent(t: Table, id: string)
    ensures AfterDeactivate(AfterDeactivate(t, id), id) == AfterDeactivate(t, id)
  {
  }

  /** The table behind `Database`, with one method per operation. */
  class Database {
    var records: Table

    ghost predicate Valid()
      reads this
    {
      TableValid(records)
    }

    /** `Database()`: opens the store at DATABASE_URI with whatever rows it already holds. */
    constructor (existing: Table)
      requires TableValid(existing)
      ensures Valid() && records == existing
    {
      records := existing;
    }

    /** `create_verification`: True and a new row, or False after a rollback on a duplicate id. */
    method CreateVerification(verificationId: string, encodingPath: string, imagePath: Option<string>,
                              wallet: Option<string>, now: int) returns (ok: bool)
      requires Valid()
      modifies this
      ensures Valid()
      ensures ok <==> verificationId !in old(records)
      ensures records == AfterCreate(old(records), NewRecord(verificationId, encodingPath, imagePath, wallet, now))
      ensures ok ==> GetVerification(verificationId) == Some(NewRecord(verificationId, encodingPath, imagePath, wallet, now))
    {
      var rec := NewRecord(verificationId, encodingPath, imagePath, wallet, now);
      AfterCreateValid(records, rec);
      if verificationId in records {
        ok := false;
      } else {
        records := records[verificationId := rec];
        ok := true;
      }
    }

    /** `get_verification`: the row with this id, only while it is active. */
    function GetVerification(verificationId: string): (r: Option<Record>)
      reads this
      ensures r.Some? <==> verificationId in records && records[verificationId].isActive == 1
      ensures r.Some? ==> r.value == records[verificationId]
    {
      if verificationId in records && records[verificationId].isActive == 1
      then Some(records[verificationId])
      else None
    }

    /** `deactivate_verification`: True and `is_active = 0` for an existing row, False otherwise. */
    method DeactivateVerification(verificationId: string) returns (ok: bool)
      requires Valid()
      modifies this
      ensures Valid()
      ensures ok <==> verificationId in old(records)
      ensures records == AfterDeactivate(old(records), verificationId)
      ensures !ok ==> records == old(records)
      ensures GetVerification(verificationId) == None
    {
      AfterDeactivateValid(records, verificationId);
      ok := verificationId in records;
      if ok {
        records := records[verificationId := records[verificationId].(isActive := 0)];
      }
    }
  }
}
