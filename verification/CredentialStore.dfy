/** Stored credentials (passkey/credential_store.go): a map from credential id, scanned by owner. */
module CredentialStore {
  import opened Common

  /** Ids and user handles are opaque byte strings. */
  datatype Credential = Credential(id: string, signCount: nat, cloneWarning: bool)

  datatype Stored = Stored(userHandle: string, credential: Credential)

  type Records = map<string, Stored>

  /** The owner is kept; only the credential is replaced. */
  function Updated(records: Records, id: string, credential: Credential): Option<Records> {
    if id in records then Some(records[id := records[id].(credential := credential)]) else None
  }

  function Saved(records: Records, stored: Stored): Option<Records> {
    if stored.credential.id in records then None else Some(records[stored.credential.id := stored])
  }

  /** The records of one owner. */
  function OwnedBy(records: Records, handle: string): Records {
    map id | id in records && records[id].userHandle == handle :: records[id]
  }

  /** Every record sits under its credential's own id. */
  ghost predicate KeyedById(records: Records) {
    forall id :: id in records ==> records[id].credential.id == id
  }

  lemma OwnedByOneMore(records: Records, keys: set<string>, id: string, handle: string)
    requires id in keys && keys <= records.Keys
    ensures var before := OwnedBy(records - keys, handle);
      && id !in before
      && OwnedBy(records - (keys - {id}), handle)
         == if records[id].userHandle == handle then before[id := records[id]] else before
  {
  }

  lemma NewKey(before: Records, id: string, stored: Stored)
    requires id !in before
    ensures |before[id := stored]| == |before| + 1
    ensures before[id := stored].Values == before.Values + {stored}
  {
    var after := before[id := stored];
    assert after.Keys == before.Keys + {id};
    forall x | x in before.Values ensures x in after.Values {
      var k :| k in before && before[k] == x;
      assert after[k] == x;
    }
    assert after[id] == stored;
  }

  class MemoryCredentialStore {
    var byID: Records

    constructor ()
      ensures byID == map[]
    {
      byID := map[];
    }

    method FindByID(id: string) returns (found: Option<Stored>)
      ensures found == if id in byID then Some(byID[id]) else None
      ensures KeyedById(byID) && found.Some? ==> found.value.credential.id == id && id in OwnedBy(byID, found.value.userHandle)
    {
      if id !in byID {
        return None;
      }
      return Some(byID[id]);
    }

    /** Every record of the owner, each once, in no particular order; none is not an error. */
    method FindByUserHandle(handle: string) returns (out: seq<Stored>)
      ensures |out| == |OwnedBy(byID, handle)|
      ensures forall sc :: sc in out <==> sc in OwnedBy(byID, handle).Values
    {
      out := [];
      var keys := byID.Keys;
      ghost var seen: Records := map[];
      while keys != {}
        invariant keys <= byID.Keys
        invariant seen == OwnedBy(byID - keys, handle)
        invariant |out| == |seen|
        invariant forall sc :: sc in out <==> sc in seen.Values
        decreases keys
      {
        var id :| id in keys;
        OwnedByOneMore(byID, keys, id, handle);
        keys := keys - {id};
        if byID[id].userHandle == handle {
          NewKey(seen, id, byID[id]);
          out := out + [byID[id]];
          seen := seen[id := byID[id]];
        }
      }
      assert byID - keys == byID;
    }

    method Save(stored: Stored) returns (ok: bool)
      modifies this
      ensures ok <==> Saved(old(byID), stored).Some?
      ensures byID == if ok then Saved(old(byID), stored).value else old(byID)
    {
      if stored.credential.id in byID {
        return false;
      }
      byID := byID[stored.credential.id := stored];
      return true;
    }

    method UpdateSignCount(id: string, credential: Credential) returns (ok: bool)
      modifies this
      ensures ok <==> Updated(old(byID), id, credential).Some?
      ensures byID == if ok then Updated(old(byID), id, credential).value else old(byID)
    {
      if id !in byID {
        return false;
      }
      var sc := byID[id];
      byID := byID[id := sc.(credential := credential)];
      return true;
    }
  }
}
