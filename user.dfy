/**
 * The user of src/branchweb/user.py: a name, a password hash and the
 * `authkeys` dict. `authkeys` is a class attribute that no instance
 * rebinds, so every user reads and writes one and the same dict; the model
 * gives that dict its own object, `KeyTable`, which every user references.
 *
 * bcrypt is a parameter: `hash(p)` stands for `hashpw(p, gensalt())` (the
 * random salt folded in) and `checkPw(p, h)` for `checkpw(p, h)`.
 */
module Users {
  import opened Keys

  /** The dict `user.authkeys`, from key id to key. */
  class KeyTable {
    var keys: map<string, Key>

    constructor()
      ensures keys == map[]
    {
      keys := map[];
    }
  }

  class User {
    const name: string
    var phash: string
    const authkeys: KeyTable

    /** `user(name, passwd)`: stores the hash of the password, never the password. */
    constructor(name: string, passwd: string, hash: string -> string, authkeys: KeyTable)
      ensures this.name == name && phash == hash(passwd) && this.authkeys == authkeys
    {
      this.name := name;
      this.phash := hash(passwd);
      this.authkeys := authkeys;
    }

    /** `from_pw_hash`: a user with the given name and the given hash, as stored. */
    static method FromPwHash(name: string, phash: string, hash: string -> string, authkeys: KeyTable) returns (u: User)
      ensures fresh(u)
      ensures u.name == name && u.phash == phash && u.authkeys == authkeys
    {
      u := new User(name, "", hash, authkeys);
      u.phash := phash;
    }

    /** `set_password`: replaces the hash; the name and the keys stay. */
    method SetPassword(passwd: string, hash: string -> string)
      modifies this`phash
      ensures phash == hash(passwd)
    {
      phash := hash(passwd);
    }

    /**
     * `authenticate`: on a matching password a new key, stamped `now`, is
     * filed under its own id and returned; otherwise nothing changes and
     * `None` is returned. `newId` stands for the fresh UUID.
     */
    method Authenticate(passwd: string, checkPw: (string, string) -> bool, newId: string, now: int)
      returns (k: Key?)
      requires newId !in authkeys.keys
      modifies authkeys`keys
      ensures !checkPw(passwd, phash) ==> k == null && authkeys.keys == old(authkeys.keys)
      ensures checkPw(passwd, phash) ==>
        && k != null && fresh(k)
        && k.keyId == newId && k.timestamp == now
        && authkeys.keys == old(authkeys.keys)[newId := k]
        && HasAuthkey(newId)
        && forall lifetime: nat :: !k.HasExpired(now, lifetime)
    {
      if checkPw(passwd, phash) {
        k := new Key(newId, now);
        authkeys.keys := authkeys.keys[k.keyId := k];
      } else {
        k := null;
      }
    }

    /** `has_authkey`: looks in the table shared by every user. */
    predicate HasAuthkey(authkey: string): (present: bool)
      reads authkeys
      ensures present <==> authkey in authkeys.keys
    {
      authkey in authkeys.keys
    }

    /** `revoke_authkey`: removes the key if it was handed out and says whether it was. */
    method RevokeAuthkey(authkey: string) returns (revoked: bool)
      modifies authkeys`keys
      ensures revoked <==> authkey in old(authkeys.keys)
      ensures authkeys.keys == old(authkeys.keys) - {authkey}
      ensures !HasAuthkey(authkey)
    {
      if !HasAuthkey(authkey) {
        return false;
      }
      authkeys.keys := authkeys.keys - {authkey};
      revoked := true;
    }
  }

  /** Revoking twice: the second call finds nothing and returns False. */
  method RevokeTwice(u: User, authkey: string) returns (first: bool, second: bool)
    modifies u.authkeys
    ensures first <==> authkey in old(u.authkeys.keys)
    ensures !second
  {
    first := u.RevokeAuthkey(authkey);
    second := u.RevokeAuthkey(authkey);
  }
}
