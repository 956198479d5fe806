/**
 * The session-key store of src/branchweb/webauth.py: `web_auth` keeps one
 * list of keys, each with the time it was last used. Keys are issued by
 * `new_authorized_key`, swept by `clear_dead_keys`, checked and refreshed
 * by `validate_key` and revoked by `invalidate_key`.
 *
 * `web_auth`'s state lives in class attributes; the model gives it one
 * object, `WebAuth`. The keys are objects of webauth.py's own `key` class
 * (a UUID-object id, not key.py's string id), compared by identity as
 * `list.remove` compares them. Clock reads are parameters, and so is the
 * configured `key_timeout`.
 */
module Auth {
  import opened Wrappers
  import opened Keys
  import opened Directory

  /** A `uuid.UUID`; `text` is what `str()` gives for it. */
  datatype Uuid = Uuid(text: string)

  /** webauth.py's `key`: a UUID id and the time of last use. */
  class AuthKey {
    const keyId: Uuid
    var timestamp: int

    /** `key()`: `keyId` stands for `uuid.uuid4()`, `now` for `time.time()`. */
    constructor(keyId: Uuid, now: int)
      ensures this.keyId == keyId && timestamp == now
    {
      this.keyId := keyId;
      timestamp := now;
    }
  }

  /**
   * What `invalidate_key` is handed: the id string of a request, or (as
   * `validate_key` passes it) the UUID object itself.
   */
  datatype KeyRef = KeyString(s: string) | KeyObject(id: Uuid)

  /**
   * `str(k.key_id) == key_id`: a string matches the key's printed id; a
   * UUID object is never equal to a string, so it matches no key.
   */
  predicate Designates(k: AuthKey, ref: KeyRef) {
    match ref
    case KeyString(s) => k.keyId.text == s
    case KeyObject(_) => false
  }

  /** No key object occurs twice in the list. */
  predicate Distinct(ks: seq<AuthKey>) {
    forall a, b :: 0 <= a < b < |ks| ==> ks[a] != ks[b]
  }

  /** Whether the key was last used more than `timeout` before `now`. */
  predicate Dead(k: AuthKey, now: int, timeout: int)
    reads k
  {
    Expired(k.timestamp, now, timeout)
  }

  // ---------------------------------------------------------------------
  // The search loop shared by `validate_key` and `invalidate_key`
  // ---------------------------------------------------------------------

  /** The position of the first key the reference designates, if any. */
  function FindIndex(ks: seq<AuthKey>, ref: KeyRef): (r: Option<nat>)
    ensures r.None? <==> forall i :: 0 <= i < |ks| ==> !Designates(ks[i], ref)
    ensures r.Some? ==> r.value < |ks| && Designates(ks[r.value], ref)
    ensures r.Some? ==> forall j :: 0 <= j < r.value ==> !Designates(ks[j], ref)
  {
    if ks == [] then None
    else if Designates(ks[0], ref) then Some(0)
    else match FindIndex(ks[1..], ref)
      case None => None
      case Some(i) => Some(i + 1)
  }

  /** A UUID object designates nothing, so the search for one always fails. */
  lemma {:induction false} ObjectFindsNothing(ks: seq<AuthKey>, id: Uuid)
    ensures FindIndex(ks, KeyObject(id)) == None
  {
    if ks != [] {
      ObjectFindsNothing(ks[1..], id);
    }
  }

  // ---------------------------------------------------------------------
  // list.remove
  // ---------------------------------------------------------------------

  /**
   * `ks.remove(k)`: drops the first occurrence of the object `k`. Python
   * raises `ValueError` for an absent object; both calls in the source remove
   * a key just taken from the list, so the model requires it to be there.
   */
  function RemoveFirst(ks: seq<AuthKey>, k: AuthKey): (r: seq<AuthKey>)
    requires k in ks
    ensures |r| == |ks| - 1
    ensures forall x :: x in r ==> x in ks
  {
    if ks[0] == k then ks[1..]
    else [ks[0]] + RemoveFirst(ks[1..], k)
  }

  /** Removing an object that does not occur before position `i` removes exactly position `i`. */
  lemma {:induction false} RemoveFirstAt(ks: seq<AuthKey>, i: nat)
    requires i < |ks|
    requires forall j :: 0 <= j < i ==> ks[j] != ks[i]
    ensures RemoveFirst(ks, ks[i]) == ks[..i] + ks[i + 1..]
  {
    if i > 0 {
      assert ks[1..][i - 1] == ks[i];
      RemoveFirstAt(ks[1..], i - 1);
      assert ks[1..][..i - 1] == ks[1..i];
      assert ks[1..][i..] == ks[i + 1..];
      assert [ks[0]] + ks[1..i] == ks[..i];
    }
  }

  /** Dropping a position keeps the list free of repeats. */
  lemma DistinctWithout(ks: seq<AuthKey>, i: nat)
    requires Distinct(ks) && i < |ks|
    ensures Distinct(ks[..i] + ks[i + 1..])
  {
    var r := ks[..i] + ks[i + 1..];
    forall a, b | 0 <= a < b < |r|
      ensures r[a] != r[b]
    {
      var a' := if a < i then a else a + 1;
      var b' := if b < i then b else b + 1;
      assert r[a] == ks[a'] && r[b] == ks[b'];
    }
  }

  // ---------------------------------------------------------------------
  // The sweep
  // ---------------------------------------------------------------------

  /**
   * What `clear_dead_keys` leaves. Its `for` loop walks the list by
   * position while removing from it: after a dead key is removed, the key
   * behind it moves into the freed position, which the loop has already
   * passed, so that key stays whatever its age.
   */
  function Swept(ks: seq<AuthKey>, now: int, timeout: int): (r: seq<AuthKey>)
    reads ks
    ensures |r| <= |ks|
    ensures forall x :: x in r ==> x in ks
  {
    if ks == [] then []
    else if Dead(ks[0], now, timeout) then
      (if |ks| == 1 then [] else [ks[1]] + Swept(ks[2..], now, timeout))
    else [ks[0]] + Swept(ks[1..], now, timeout)
  }

  /** The sweep from a live position keeps that key and goes on with the next. */
  lemma SweptFromLive(o: seq<AuthKey>, j: nat, now: int, timeout: int)
    requires j < |o| && !Dead(o[j], now, timeout)
    ensures Swept(o[j..], now, timeout) == [o[j]] + Swept(o[j + 1..], now, timeout)
  {
    assert o[j..][1..] == o[j + 1..];
  }

  /** The sweep from a dead position drops that key, keeps the next one and goes on after it. */
  lemma SweptFromDead(o: seq<AuthKey>, j: nat, now: int, timeout: int)
    requires j < |o| && Dead(o[j], now, timeout)
    ensures j + 1 < |o| ==> Swept(o[j..], now, timeout) == [o[j + 1]] + Swept(o[j + 2..], now, timeout)
    ensures j + 1 == |o| ==> Swept(o[j..], now, timeout) == []
  {
    if j + 1 < |o| {
      assert o[j..][2..] == o[j + 2..];
    }
  }

  /**
   * One pass of `clear_dead_keys`'s loop: position `i` of the list holds
   * position `j` of the original list `o`, the list before `i` is the sweep
   * so far and the list from `i` on is `o` from `j` on.
   */
  ghost predicate SweepState(ks: seq<AuthKey>, i: nat, o: seq<AuthKey>, j: nat, now: int, timeout: int)
    reads o
  {
    i <= |ks| && j <= |o| && ks[i..] == o[j..] &&
    ks[..i] + Swept(o[j..], now, timeout) == Swept(o, now, timeout)
  }

  /** The pass over a live key keeps it and moves one on in both lists. */
  lemma LiveStep(ks: seq<AuthKey>, i: nat, o: seq<AuthKey>, j: nat, now: int, timeout: int)
    requires SweepState(ks, i, o, j, now, timeout) && i < |ks| && !Dead(ks[i], now, timeout)
    ensures SweepState(ks, i + 1, o, j + 1, now, timeout)
  {
    assert ks[i] == o[j..][0] == o[j];
    SweptFromLive(o, j, now, timeout);
    assert ks[..i + 1] == ks[..i] + [o[j]];
    assert ks[i + 1..] == ks[i..][1..];
  }

  /**
   * The pass over a dead key removes it; the next key slides into its
   * position and the loop moves past it, so it is kept unexamined.
   */
  lemma DeadStep(ks: seq<AuthKey>, i: nat, o: seq<AuthKey>, j: nat, now: int, timeout: int)
    requires SweepState(ks, i, o, j, now, timeout) && i < |ks| && Dead(ks[i], now, timeout)
    ensures i + 1 < |ks| ==> SweepState(ks[..i] + ks[i + 1..], i + 1, o, j + 2, now, timeout)
    ensures i + 1 == |ks| ==> ks[..i] == Swept(o, now, timeout)
  {
    assert ks[i] == o[j..][0] == o[j];
    assert |ks| - i == |o| - j;
    SweptFromDead(o, j, now, timeout);
    var r := ks[..i] + ks[i + 1..];
    if i + 1 < |ks| {
      assert ks[i + 1] == ks[i..][1] == o[j + 1];
      assert r[..i + 1] == ks[..i] + [o[j + 1]];
      assert r[i + 1..] == ks[i + 2..] == ks[i..][2..] == o[j..][2..] == o[j + 2..];
    }
  }

  /** The sweep never removes a live key. */
  lemma {:induction false} SweptKeepsLive(ks: seq<AuthKey>, now: int, timeout: int)
    ensures forall i :: 0 <= i < |ks| && !Dead(ks[i], now, timeout) ==> ks[i] in Swept(ks, now, timeout)
  {
    if ks != [] {
      if Dead(ks[0], now, timeout) {
        if |ks| > 1 {
          SweptKeepsLive(ks[2..], now, timeout);
          forall i | 2 <= i < |ks| && !Dead(ks[i], now, timeout)
            ensures ks[i] in Swept(ks, now, timeout)
          {
            assert ks[2..][i - 2] == ks[i];
          }
        }
      } else {
        SweptKeepsLive(ks[1..], now, timeout);
        forall i | 1 <= i < |ks| && !Dead(ks[i], now, timeout)
          ensures ks[i] in Swept(ks, now, timeout)
        {
          assert ks[1..][i - 1] == ks[i];
        }
      }
    }
  }

  /** The sweep keeps the list free of repeats. */
  lemma {:induction false} SweptDistinct(ks: seq<AuthKey>, now: int, timeout: int)
    requires Distinct(ks)
    ensures Distinct(Swept(ks, now, timeout))
  {
    if ks != [] {
      if Dead(ks[0], now, timeout) {
        if |ks| > 1 {
          SweptDistinct(ks[2..], now, timeout);
          assert ks[1] !in ks[2..];
        }
      } else {
        SweptDistinct(ks[1..], now, timeout);
        assert ks[0] !in ks[1..];
      }
    }
  }

  /** The key right behind a removed key survives the sweep, dead or not. */
  lemma SweepSkipsSuccessor(ks: seq<AuthKey>, now: int, timeout: int)
    requires |ks| >= 2 && Dead(ks[0], now, timeout)
    ensures Swept(ks, now, timeout)[0] == ks[1]
  {
  }

  /**
   * A dead key that survives the sweep sits right behind a dead key that
   * the sweep removed: the skipped position is the only way to survive.
   */
  lemma {:induction false} SurvivingDeadKeyFollowsRemoved(ks: seq<AuthKey>, i: nat, now: int, timeout: int)
    requires Distinct(ks) && i < |ks|
    requires Dead(ks[i], now, timeout) && ks[i] in Swept(ks, now, timeout)
    ensures i > 0 && Dead(ks[i - 1], now, timeout) && ks[i - 1] !in Swept(ks, now, timeout)
  {
    if Dead(ks[0], now, timeout) {
      assert |ks| > 1;
      assert ks[0] !in ks[2..];
      if i >= 2 {
        assert ks[2..][i - 2] == ks[i];
        SurvivingDeadKeyFollowsRemoved(ks[2..], i - 2, now, timeout);
        assert ks[2..][i - 3] == ks[i - 1];
      }
    } else {
      assert ks[1..][i - 1] == ks[i];
      SurvivingDeadKeyFollowsRemoved(ks[1..], i - 1, now, timeout);
      assert ks[1..][i - 2] == ks[i - 1];
    }
  }

  /** Revoking the only key with a given id leaves no key with that id. */
  lemma InvalidateLeavesNoMatch(ks: seq<AuthKey>, s: string, i: nat)
    requires forall a, b :: 0 <= a < b < |ks| ==> ks[a].keyId != ks[b].keyId
    requires FindIndex(ks, KeyString(s)) == Some(i)
    ensures FindIndex(ks[..i] + ks[i + 1..], KeyString(s)) == None
  {
    var r := ks[..i] + ks[i + 1..];
    forall j | 0 <= j < |r|
      ensures !Designates(r[j], KeyString(s))
    {
      if j < i {
        assert r[j] == ks[j];
      } else {
        assert r[j] == ks[j + 1];
      }
    }
  }

  // ---------------------------------------------------------------------
  // The store
  // ---------------------------------------------------------------------

  /** How `validate_pw` ends: `False`, or an `AttributeError` that escapes. */
  datatype PwCheck = ReturnsFalse | RaisesAttributeError

  /** The class attributes of `web_auth`. */
  class WebAuth {
    var authorizedKeys: seq<AuthKey>
    var usermgr: UserManager?

    /** Each key object is listed once. */
    ghost predicate Valid()
      reads this
    {
      Distinct(authorizedKeys)
    }

    /** The initial class state: no keys, no user manager. */
    constructor()
      ensures Valid() && authorizedKeys == [] && usermgr == null
    {
      authorizedKeys := [];
      usermgr := null;
    }

    /** `setup_user_manager`, given the manager `usermanager()` opened. */
    method SetupUserManager(m: UserManager)
      modifies this`usermgr
      ensures usermgr == m
    {
      usermgr := m;
    }

    /** The search loop: the position of the first key the reference designates. */
    method Lookup(ref: KeyRef) returns (idx: Option<nat>)
      ensures idx == FindIndex(authorizedKeys, ref)
    {
      for i := 0 to |authorizedKeys|
        invariant forall j :: 0 <= j < i ==> !Designates(authorizedKeys[j], ref)
      {
        if Designates(authorizedKeys[i], ref) {
          return Some(i);
        }
      }
      idx := None;
    }

    /** `clear_dead_keys` at time `now`: the list becomes the sweep of the old list. */
    method ClearDeadKeys(now: int, timeout: int)
      requires Valid()
      modifies this`authorizedKeys
      ensures Valid()
      ensures authorizedKeys == old(Swept(authorizedKeys, now, timeout))
    {
      ghost var o := authorizedKeys;
      ghost var j := 0;
      var i := 0;
      while i < |authorizedKeys|
        invariant Distinct(authorizedKeys)
        invariant i <= |authorizedKeys| + 1
        invariant i <= |authorizedKeys| ==> SweepState(authorizedKeys, i, o, j, now, timeout)
        invariant i == |authorizedKeys| + 1 ==> authorizedKeys == Swept(o, now, timeout)
        decreases |authorizedKeys| + 1 - i
      {
        var k := authorizedKeys[i];
        if Dead(k, now, timeout) {
          DeadStep(authorizedKeys, i, o, j, now, timeout);
          RemoveFirstAt(authorizedKeys, i);
          DistinctWithout(authorizedKeys, i);
          authorizedKeys := RemoveFirst(authorizedKeys, k);
          j := j + 2;
        } else {
          LiveStep(authorizedKeys, i, o, j, now, timeout);
          j := j + 1;
        }
        i := i + 1;
      }
      if i == |authorizedKeys| {
        assert authorizedKeys[..i] == authorizedKeys;
        assert o[j..] == [];
      }
    }

    /** `new_authorized_key`: a new key, stamped `now`, joins the end of the list and is returned. */
    method NewAuthorizedKey(id: Uuid, now: int) returns (k: AuthKey)
      requires Valid()
      modifies this`authorizedKeys
      ensures Valid()
      ensures fresh(k) && k.keyId == id && k.timestamp == now
      ensures authorizedKeys == old(authorizedKeys) + [k]
    {
      k := new AuthKey(id, now);
      authorizedKeys := authorizedKeys + [k];
    }

    /**
     * `invalidate_key`: Python's `None` (the first designated key was
     * removed) is `None` here, and `False` (no key designated) is
     * `Some(false)`.
     */
    method InvalidateKey(ref: KeyRef) returns (r: Option<bool>)
      requires Valid()
      modifies this`authorizedKeys
      ensures Valid()
      ensures FindIndex(old(authorizedKeys), ref).None? ==>
        r == Some(false) && authorizedKeys == old(authorizedKeys)
      ensures FindIndex(old(authorizedKeys), ref).Some? ==>
        var i := FindIndex(old(authorizedKeys), ref).value;
        r == None && authorizedKeys == old(authorizedKeys)[..i] + old(authorizedKeys)[i + 1..]
      ensures ref.KeyObject? ==> r == Some(false) && authorizedKeys == old(authorizedKeys)
    {
      if ref.KeyObject? {
        ObjectFindsNothing(authorizedKeys, ref.id);
      }
      var idx := Lookup(ref);
      if idx == None {
        return Some(false);
      }
      var i := idx.value;
      RemoveFirstAt(authorizedKeys, i);
      DistinctWithout(authorizedKeys, i);
      authorizedKeys := RemoveFirst(authorizedKeys, authorizedKeys[i]);
      r := None;
    }

    /**
     * `validate_key`: sweeps at `sweepTime`, looks the id up among the
     * survivors, and accepts it only when that key is live at `checkTime`;
     * an accepted key is stamped `stampTime`. A key found dead is handed
     * to `invalidate_key` as a UUID object, which removes nothing.
     */
    method ValidateKey(keyId: string, sweepTime: int, checkTime: int, stampTime: int, timeout: int)
      returns (ok: bool)
      requires Valid()
      modifies this`authorizedKeys, authorizedKeys
      ensures Valid()
      ensures authorizedKeys == old(Swept(authorizedKeys, sweepTime, timeout))
      ensures FindIndex(authorizedKeys, KeyString(keyId)).None? ==> !ok
      ensures FindIndex(authorizedKeys, KeyString(keyId)).Some? ==>
        var k := authorizedKeys[FindIndex(authorizedKeys, KeyString(keyId)).value];
        && k in old(authorizedKeys)
        && (ok <==> !Expired(old(k.timestamp), checkTime, timeout))
        && k.timestamp == (if ok then stampTime else old(k.timestamp))
      ensures forall x :: x in old(authorizedKeys) && x.timestamp != old(x.timestamp) ==>
        ok && x == authorizedKeys[FindIndex(authorizedKeys, KeyString(keyId)).value]
    {
      ghost var swept := Swept(authorizedKeys, sweepTime, timeout);
      ClearDeadKeys(sweepTime, timeout);
      var idx := Lookup(KeyString(keyId));
      if idx == None {
        return false;
      }
      var k := authorizedKeys[idx.value];
      assert k in authorizedKeys;
      if checkTime - k.timestamp > timeout {
        var _ := InvalidateKey(KeyObject(k.keyId));
        return false;
      }
      k.timestamp := stampTime;
      ok := true;
    }

    /**
     * `validate_pw`: `False` when the manager knows no user by that name.
     * Otherwise the source calls `validate_phash`, which `user` does not
     * define, so the call raises; so does a call before
     * `setup_user_manager`, on `None`.
     */
    method ValidatePw(name: string, phash: string) returns (r: PwCheck)
      ensures r == ReturnsFalse <==>
        usermgr != null && forall v :: v in usermgr.users.users ==> v.name != name
    {
      if usermgr == null {
        return RaisesAttributeError;
      }
      var u := usermgr.GetUser(name);
      if u == null {
        return ReturnsFalse;
      }
      r := RaisesAttributeError;
    }
  }

  /** A key that is dead at the check is never accepted, whether or not the sweep removed it. */
  method ValidateNeverAcceptsDead(auth: WebAuth, k: AuthKey, keyId: string,
                                  sweepTime: int, checkTime: int, stampTime: int, timeout: int)
    returns (ok: bool)
    requires auth.Valid() && k in auth.authorizedKeys && k.keyId.text == keyId
    requires forall a, b :: 0 <= a < b < |auth.authorizedKeys| ==> auth.authorizedKeys[a].keyId != auth.authorizedKeys[b].keyId
    requires Dead(k, checkTime, timeout)
    modifies auth`authorizedKeys, auth.authorizedKeys
    ensures !ok
  {
    ok := auth.ValidateKey(keyId, sweepTime, checkTime, stampTime, timeout);
  }
}
