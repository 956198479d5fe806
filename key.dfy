/**
 * The authentication key of src/branchweb/key.py: an id fixed at
 * construction and the time it was last refreshed. Times are integers
 * supplied by the caller in place of `time.time()`; the id is supplied in
 * place of `str(uuid.uuid4())`.
 */
module Keys {

  /** The expiry test: strictly more than `lifetime` has passed since `timestamp`. */
  predicate Expired(timestamp: int, now: int, lifetime: int) {
    now - timestamp > lifetime
  }

  /** A key is live exactly up to `lifetime` after its timestamp, and expired from the next instant on. */
  lemma ExpiryBoundary(timestamp: int, lifetime: int, now: int)
    ensures !Expired(timestamp, timestamp + lifetime, lifetime)
    ensures Expired(timestamp, now, lifetime) <==> now > timestamp + lifetime
  {
  }

  class Key {
    const keyId: string
    var timestamp: int

    /** `key()`: a new key with the given id, stamped `now`. */
    constructor(keyId: string, now: int)
      ensures this.keyId == keyId && timestamp == now
    {
      this.keyId := keyId;
      timestamp := now;
    }

    /** `refresh`: only the timestamp changes, and the key is live at that instant for any lifetime. */
    method Refresh(now: int)
      modifies this`timestamp
      ensures timestamp == now
      ensures forall lifetime: nat :: !HasExpired(now, lifetime)
    {
      timestamp := now;
    }

    /**
     * `has_expired(cur_time, lifetime)`: true once more than `lifetime` has
     * passed since the last refresh, and from then on at every later time.
     */
    predicate HasExpired(now: int, lifetime: int): (expired: bool)
      reads this`timestamp
      ensures expired <==> now > timestamp + lifetime
      ensures expired ==> forall later :: later >= now ==> Expired(timestamp, later, lifetime)
    {
      Expired(timestamp, now, lifetime)
    }
  }
}
