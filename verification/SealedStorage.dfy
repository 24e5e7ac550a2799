/** storage_set, storage_get, storage_delete, locking and restarting of storage/storage.c, on the flash store of norcow.c. */
module SealedStorage {
  import opened Options
  import opened Sha256
  import opened HmacSha256
  import HmacDrbg
  import opened StorageAuth
  import opened SealedEntries
  import opened SealedSpec
  import KeyRules
  import NorcowLayout
  import NorcowEdits
  import NorcowStore

  const CHACHA_BLOCK: nat := 64
  const VERSION_KEY: int := 4

  class Storage {
    const h: Sha
    const sak: Bytes
    const aead: Aead
    const store: NorcowStore.Norcow
    var sum: Bytes
    var unlocked: bool
    var halted: bool
    ghost var tagSum: Bytes

    /** The store is sound and holds the tag of tagSum. */
    ghost predicate Tagged()
      reads this, store
    {
      && ValidSha(h) && |sak| <= BLOCK && ValidAead(aead) && |sum| == |tagSum| == DIGEST && store.Valid()
      && HasTag(h, sak, store.Map(), tagSum)
    }

    /** What every operation keeps: every protected entry intact, and while unlocked the tag of the sum in memory. */
    ghost predicate Valid()
      reads this, store
    {
      Tagged() && AllIntact(aead, store.Map()) && (unlocked && !halted ==> sum == tagSum)
    }

    ghost function Abstract(): State
      reads this, store
    {
      State(View(aead, store.Map()), tagSum, unlocked, halted)
    }

    /** The flash that the storage's own entries leave for the application's. */
    ghost function Setup(): Setting
      reads store
    {
      Setting(h, sak, store.sectorSize - store.Start() - NorcowEdits.MapSize(Own(store.Map())))
    }

    // ----- The storage tag

    /** auth_update: the 16 bytes of the tag always find room. */
    method AuthUpdate(key: int) returns (ok: bool)
      requires Tagged() && key < 0x1_0000 && (Protected(key) ==> sum == tagSum)
      modifies this`sum, this`tagSum, store
      ensures ok && Tagged() && tagSum == Toggled(Setting(h, sak, 0), old(tagSum), key)
      ensures sum == if Protected(key) then tagSum else old(sum)
      ensures store.Map() == if Protected(key) then old(store.Map())[STORAGE_TAG_KEY := ToFlash(StorageTag(h, sak, tagSum))]
                             else old(store.Map())
    {
      hide Hmac, XorBytes, HasTag, StorageTag, ValidAead, NorcowStore.Norcow.Fits, NorcowStore.Norcow.Steady, NorcowStore.Norcow.Map, KeyBytes;
      if !Protected(key) { return true; }
      TagFits();
      ghost var m := store.Map();
      var tag := HmacSha256.HmacSha256(h, sak, KeyBytes(key));
      sum := XorBytes(sum, tag);
      tag := HmacSha256.HmacSha256(h, sak, sum);
      var found;
      ok, found := store.SetEx(STORAGE_TAG_KEY, Some(ToFlash(tag[..STORAGE_TAG_SIZE])), STORAGE_TAG_SIZE);
      TagWritten(h, sak, m, sum);
      tagSum := sum;
    }

    /** The stored tag is as long as the one that replaces it. */
    lemma TagFits()
      requires Tagged()
      ensures store.Fits(store.Map(), STORAGE_TAG_KEY, STORAGE_TAG_SIZE)
    {
      store.RoomToRewrite(STORAGE_TAG_KEY, STORAGE_TAG_SIZE);
    }

    /** auth_set, with val == None for a NULL pointer. */
    method AuthSet(key: int, val: Option<Flash>, len: nat) returns (ok: bool)
      requires Tagged() && Application(key) && 0 <= key < 0x1_0000 && len < 0x1_0000 && (val.Some? ==> |val.value| == len)
      requires Protected(key) ==> sum == tagSum
      modifies this`sum, this`tagSum, store
      ensures Tagged() && (Protected(key) ==> sum == tagSum) && (!Protected(key) ==> sum == old(sum))
      ensures ok <==> key != NorcowLayout.KEY_FREE && store.Fits(old(store.Map()), key, len)
      ensures tagSum == if ok && key !in old(store.Map()) then Toggled(Setting(h, sak, 0), old(tagSum), key) else old(tagSum)
      ensures var m, v := old(store.Map()), NorcowStore.Stored(key, val, len).data;
              store.Map() == if key == NorcowLayout.KEY_FREE then m else if !ok then m - {key}
                             else if key in m || !Protected(key) then m[key := v]
                             else m[key := v][STORAGE_TAG_KEY := ToFlash(StorageTag(h, sak, tagSum))]
    {
      hide Hmac, StorageTag, XorBytes, NorcowStore.Norcow.Steady, NorcowStore.Norcow.Map, NorcowStore.Norcow.Fits, NorcowStore.Stored;
      var found;
      ok, found := store.SetEx(key, val, len);
      if ok && !found {
        ok := AuthUpdate(key);
      }
    }

    /** The share of one more entry, if it is protected. */
    method AddShare(k: int, idig: Bytes, odig: Bytes, hb0: Bytes, total0: Bytes, ghost d0: Bytes, ghost seen: map<int, Flash>, ghost v: Flash)
      returns (total: Bytes, hb: Bytes, ghost d: Bytes)
      requires ValidSha(h) && |sak| <= BLOCK && |d0| == DIGEST && hb0 == LastBlock(d0) && k !in seen
      requires idig == InnerState(h, KeyBlock(h, sak)) && odig == OuterState(h, KeyBlock(h, sak))
      requires total0 == AuthSum(h, sak, ProtectedKeys(seen))
      ensures |d| == DIGEST && hb == LastBlock(d) && total == AuthSum(h, sak, ProtectedKeys(seen[k := v]))
    {
      hide LastBlock, KeyBlock, InnerState, OuterState, AuthSum, XorBytes, Hmac, KeyBytes;
      total, hb, d := total0, hb0, d0;
      if !Protected(k) {
        assert ProtectedKeys(seen[k := v]) == ProtectedKeys(seen);
        return;
      }
      SumToggle(h, sak, ProtectedKeys(seen), k);
      assert ProtectedKeys(seen[k := v]) == ProtectedKeys(seen) + {k};
      var mac;
      mac, hb := KeyMac(h, sak, k, idig, odig, hb, d);
      total := XorBytes(total, mac);
      d := mac;
    }

    /** The loop of auth_get over all entries, and its completion check. */
    method SumEntries(key: int, idig: Bytes, odig: Bytes, hb0: Bytes, ghost d0: Bytes)
      returns (complete: bool, total: Bytes, hb: Bytes, ghost d: Bytes, val: Option<Flash>, tagVal: Option<Flash>, counted: bool)
      requires ValidSha(h) && |sak| <= BLOCK && store.Valid() && |d0| == DIGEST && hb0 == LastBlock(d0)
      requires idig == InnerState(h, KeyBlock(h, sak)) && odig == OuterState(h, KeyBlock(h, sak))
      ensures complete && |d| == DIGEST && hb == LastBlock(d) && total == AuthSum(h, sak, ProtectedKeys(store.Map()))
      ensures val == At(store.Map(), key) && tagVal == At(store.Map(), STORAGE_TAG_KEY)
      ensures val.None? ==> counted
    {
      hide LastBlock, KeyBlock, InnerState, OuterState, AuthSum;
      hide NorcowStore.Norcow.Steady, NorcowStore.Norcow.Map, NorcowStore.Norcow.Cursor, NorcowEdits.MapOf, NorcowEdits.LiveItems;
      total, hb, d, val, tagVal := Zeros(32), hb0, d0, None, None;
      var entryCount, otherCount := 0, 0;
      ghost var seen: map<int, Flash> := map[];
      SumOfNothing(h, sak);
      assert ProtectedKeys(seen) == {};
      store.NothingPassed();
      ghost var i := 0;
      var more, offset, k, v;
      more, offset, k, v, i := store.GetNext(0, i);
      while more
        invariant store.Cursor(offset, i) && i <= |store.items|
        invariant NorcowEdits.MapOf(store.Passed(i)) == if more then seen[k := v] else seen
        invariant if more then 0 < k < NorcowLayout.KEY_FREE && k !in seen else seen == store.Map() && i == |store.items|
        invariant |d| == DIGEST && hb == LastBlock(d) && total == AuthSum(h, sak, ProtectedKeys(seen))
        invariant val == At(seen, key) && tagVal == At(seen, STORAGE_TAG_KEY)
        invariant val.None? ==> otherCount == entryCount
        decreases |store.items| - i, more
      {
        entryCount := entryCount + 1;
        if k == key { val := Some(v); } else { otherCount := otherCount + 1; }
        if !Protected(k) && k == STORAGE_TAG_KEY { tagVal := Some(v); }
        total, hb, d := AddShare(k, idig, odig, hb, total, d, seen, v);
        seen := seen[k := v];
        more, offset, k, v, i := store.GetNext(offset, i);
      }
      counted := otherCount == entryCount;
      more, offset, k, v, i := store.GetNext(offset, i);
      complete := !more;
    }

    /** auth_get: the sum and its tag recomputed over all entries; fault stands for handle_fault. */
    method AuthGet(key: int) returns (fault: bool, ok: bool, value: Flash)
      requires ValidSha(h) && |sak| <= BLOCK && store.Valid()
      modifies this`sum
      ensures sum == AuthSum(h, sak, ProtectedKeys(store.Map()))
      ensures fault <==> !HasTag(h, sak, store.Map(), sum)
      ensures !fault ==> (ok <==> key in store.Map()) && (ok ==> value == store.Map()[key])
    {
      hide LastBlock, HmacDrbg.SetWord, KeyBlock, InnerState, OuterState, AuthSum, StorageTag;
      hide NorcowStore.Norcow.Steady, NorcowStore.Norcow.Map;
      var odig, idig := Prepare(h, sak);
      ghost var d := Zeros(32);
      HmacDrbg.PaddedDigest(d);
      var hb := HmacDrbg.SetWord(HmacDrbg.SetWord(Zeros(32) + Zeros(32), 8, HmacDrbg.PAD32), 15, HmacDrbg.LENGTH32);
      var complete, total, val, tagVal, counted;
      complete, total, hb, d, val, tagVal, counted := SumEntries(key, idig, odig, hb, d);
      var tag := SumMac(h, sak, idig, odig, hb, total, d);
      sum := total;
      if !complete { assert false; return true, false, []; }
      if tagVal.None? || |tagVal.value| != STORAGE_TAG_SIZE || ToFlash(tag[..STORAGE_TAG_SIZE]) != tagVal.value {
        return true, false, [];
      }
      if val.None? {
        if !counted { assert false; return true, false, []; }
        return false, false, [];
      }
      return false, true, val.value;
    }

    // ----- storage_set

    /** Writes data over the erased bytes from `offset` on. */
    method WriteErased(key: int, offset: nat, data: Bytes, ghost a: Flash, ghost b: Flash) returns (ok: bool)
      requires store.Valid() && key != NorcowLayout.KEY_DELETED && key in store.Map()
      requires offset == |a| && store.Map()[key] == a + Blank(|data|) + b
      modifies store
      ensures ok && store.Valid() && store.Map() == old(store.Map())[key := a + ToFlash(data) + b]
    {
      hide NorcowStore.Norcow.Steady, NorcowStore.Norcow.Map, NorcowStore.CanProgram, NorcowStore.Taken;
      ghost var v := a + Blank(|data|) + b;
      NorcowStore.ErasedTakesAny(v, offset, ToFlash(data));
      var halted;
      halted, ok := store.UpdateBytes(key, offset, ToFlash(data));
      assert NorcowEdits.Splice(v, offset, ToFlash(data)) == a + ToFlash(data) + b;
    }

    /** Encrypts n bytes from position i on and writes them behind those before. */
    method WriteBlock(key: int, val: Bytes, iv: Bytes, i: nat, n: nat) returns (ok: bool)
      requires store.Valid() && key != NorcowLayout.KEY_DELETED && key in store.Map() && |iv| == IV_SIZE
      requires i + n <= |val| && store.Map()[key] == Partial(aead, iv, val, i)
      modifies store
      ensures ok && store.Valid() && store.Map() == old(store.Map())[key := Partial(aead, iv, val, i + n)]
    {
      PartialSplit(aead, iv, val, i, n);
      hide Partial, Crypt, NorcowStore.Norcow.Steady, NorcowStore.Norcow.Map;
      ghost var a := ToFlash(iv) + Blank(TAG_SIZE) + ToFlash(Crypt(aead, iv, 0, val[..i]));
      var buffer := Crypt(aead, iv, i, val[i..i + n]);
      ok := WriteErased(key, IV_SIZE + TAG_SIZE + i, buffer, a, Blank(|val| - i - n));
    }

    /** The ciphertext, all blocks but the last and then the rest. */
    method WriteBlocks(key: int, val: Bytes, iv: Bytes) returns (ok: bool)
      requires store.Valid() && key != NorcowLayout.KEY_DELETED && key in store.Map() && |iv| == IV_SIZE
      requires store.Map()[key] == Partial(aead, iv, val, 0)
      modifies store
      ensures ok && store.Valid() && store.Map() == old(store.Map())[key := Partial(aead, iv, val, |val|)]
    {
      hide Partial, NorcowStore.Norcow.Steady, NorcowStore.Norcow.Map;
      var i := 0;
      while i + CHACHA_BLOCK < |val|
        invariant 0 <= i <= |val| && store.Valid()
        invariant store.Map() == old(store.Map())[key := Partial(aead, iv, val, i)]
      {
        ok := WriteBlock(key, val, iv, i, CHACHA_BLOCK);
        i := i + CHACHA_BLOCK;
      }
      ok := WriteBlock(key, val, iv, i, |val| - i);
    }

    /** IV, ciphertext and tag, over the preallocated flash. */
    method FillEntry(key: int, val: Bytes, iv: Bytes) returns (ok: bool)
      requires store.Valid() && key >= 0 && key != NorcowLayout.KEY_DELETED && key in store.Map() && |iv| == IV_SIZE
      requires ValidAead(aead) && store.Map()[key] == Blank(IV_SIZE + TAG_SIZE + |val|)
      modifies store
      ensures ok && store.Valid() && store.Map() == old(store.Map())[key := ToFlash(Sealed(aead, iv, key, val))]
    {
      PartialStart(aead, iv, val);
      PartialEnd(aead, iv, key, val);
      hide Crypt, Sealed, Partial, ValidAead, NorcowStore.Norcow.Steady, NorcowStore.Norcow.Map;
      ok := WriteErased(key, 0, iv, [], Blank(TAG_SIZE + |val|));
      ok := WriteBlocks(key, val, iv);
      var c := Crypt(aead, iv, 0, val);
      ok := WriteErased(key, IV_SIZE, aead.tag(iv, key, c), ToFlash(iv), ToFlash(c));
    }

    /** storage_set_encrypted. */
    method SetEncrypted(key: int, val: Bytes, iv: Bytes) returns (ok: bool)
      requires Valid() && unlocked && !halted && Protected(key) && |iv| == IV_SIZE && |val| < 0x1_0000
      modifies this, store
      ensures Valid() && Setup() == old(Setup())
      ensures (Abstract(), Answer(ok, [])) == Step(old(Setup()), old(Abstract()), Op.Set(key, val, iv))
    {
      hide HasTag, Sealed, ValidAead, AllIntact, View, Own, SealedSpec.Fits, NorcowStore.Norcow.Fits;
      hide StorageTag, XorBytes, KeyTag, NorcowEdits.MapSize, NorcowStore.Norcow.Steady, NorcowStore.Norcow.Map;
      if |val| > 0xFFFF - IV_SIZE - TAG_SIZE { return false; }
      ghost var m := store.Map();
      StoreFits(m, key, |val|);
      ok := AuthSet(key, None, IV_SIZE + TAG_SIZE + |val|);
      if !ok {
        ViewRemove(aead, m, key);
        return;
      }
      ghost var m1 := store.Map();
      ok := FillEntry(key, val, iv);
      SetResult(m, m1, old(tagSum), tagSum, key, val, iv);
    }

    /** The store after an entry has been allocated, with a new tag if it is new, and filled. */
    lemma SetResult(m: map<int, Flash>, m1: map<int, Flash>, s: Bytes, s1: Bytes, key: int, val: Bytes, iv: Bytes)
      requires ValidSha(h) && |sak| <= BLOCK && ValidAead(aead) && |s| == |s1| == DIGEST
      requires AllIntact(aead, m) && HasTag(h, sak, m, s) && Protected(key) && |iv| == IV_SIZE && key in m1 && HasTag(h, sak, m1, s1)
      requires var n := m[key := m1[key]]; m1 == n || m1 == n[STORAGE_TAG_KEY := ToFlash(StorageTag(h, sak, s1))]
      ensures var m2 := m1[key := ToFlash(Sealed(aead, iv, key, val))];
              && AllIntact(aead, m2) && HasTag(h, sak, m2, s1) && View(aead, m2) == View(aead, m)[key := val]
              && NorcowEdits.MapSize(Own(m2)) == NorcowEdits.MapSize(Own(m))
    {
      var m2, n2 := m1[key := ToFlash(Sealed(aead, iv, key, val))], m[key := ToFlash(Sealed(aead, iv, key, val))];
      hide ValidAead, AllIntact, View, Own, NorcowEdits.MapSize, Sealed, StorageTag;
      ViewSealed(aead, m, key, iv, val);
      assert m2 == n2 || m2 == n2[STORAGE_TAG_KEY := ToFlash(StorageTag(h, sak, s1))];
      ViewOwn(aead, n2, STORAGE_TAG_KEY, ToFlash(StorageTag(h, sak, s1)));
    }

    /** The store's capacity in terms of the view. */
    lemma StoreFits(m: map<int, Flash>, key: int, len: nat)
      requires AllIntact(aead, m) && Application(key)
      ensures store.Fits(m, key, Overhead(key) + len) <==>
              SealedSpec.Fits(Setting(h, sak, store.sectorSize - store.Start() - NorcowEdits.MapSize(Own(m))), View(aead, m), key, len)
      ensures key in View(aead, m) <==> key in m
    {
      hide NorcowEdits.MapSize, AllIntact;
      ViewRemove(aead, m, key);
      SizeOfView(aead, m - {key});
    }

    /** storage_set. */
    method Set(key: int, val: Bytes, iv: Bytes) returns (ok: bool)
      requires Valid() && !halted && ValidOp(Op.Set(key, val, iv))
      modifies this, store
      ensures Valid() && Setup() == old(Setup())
      ensures (Abstract(), Answer(ok, [])) == Step(old(Setup()), old(Abstract()), Op.Set(key, val, iv))
    {
      hide HasTag, ValidAead, AllIntact, View, Own, SealedSpec.Fits, NorcowStore.Norcow.Fits;
      hide StorageTag, NorcowEdits.MapSize, NorcowStore.Norcow.Steady, NorcowStore.Norcow.Map;
      if !Application(key) { return false; }
      if !unlocked && !WritableLocked(key) { return false; }
      if Protected(key) {
        ok := SetEncrypted(key, val, iv);
        return;
      }
      ghost var m := store.Map();
      StoreFits(m, key, |val|);
      var found;
      ok, found := store.SetEx(key, Some(ToFlash(val)), |val|);
      ViewPublic(aead, m, key, val);
      ViewRemove(aead, m, key);
      TagUntouched(h, sak, m, tagSum, key, ToFlash(val));
    }

    // ----- storage_get

    /** storage_get_encrypted into a buffer of maxLen bytes. */
    method GetEncrypted(key: int, maxLen: nat) returns (fault: bool, ok: bool, val: Bytes)
      requires Valid() && unlocked && !halted && Protected(key)
      modifies this
      ensures Valid() && fault == halted && Setup() == old(Setup())
      ensures (Abstract(), if fault then Answer.Halted else Answer(ok, val)) == Step(old(Setup()), old(Abstract()), Op.Get(key, maxLen))
    {
      hide HasTag, Opened, Intact, ValidAead, View, AuthSum, StorageTag, Crypt;
      hide NorcowStore.Norcow.Steady, NorcowStore.Norcow.Map;
      ghost var s, m := Abstract(), store.Map();
      var found, stored;
      fault, found, stored := AuthGet(key);
      ViewKeys(aead, m);
      TagsCompare(h, sak, m, s.sum, sum);
      if fault {
        halted := true;
        return true, false, [];
      }
      tagSum := sum;
      EntryOf(aead, m, key);
      if !found { return false, false, []; }
      var v := FromFlash(stored);
      assert Intact(aead, key, v);
      IntactParts(aead, key, v);
      if |v| < IV_SIZE + TAG_SIZE { assert false; return true, false, []; }
      var len := |v| - IV_SIZE - TAG_SIZE;
      if len > maxLen { return false, false, []; }
      var iv, tag, c := v[..IV_SIZE], v[IV_SIZE..IV_SIZE + TAG_SIZE], v[IV_SIZE + TAG_SIZE..];
      val := Crypt(aead, iv, 0, c);
      if aead.tag(iv, key, c) != tag { assert false; return true, false, []; }
      return false, true, val;
    }

    /** storage_get. */
    method Get(key: int, maxLen: nat) returns (fault: bool, ok: bool, val: Bytes)
      requires Valid() && !halted && ValidOp(Op.Get(key, maxLen))
      modifies this
      ensures Valid() && fault == halted && Setup() == old(Setup())
      ensures (Abstract(), if fault then Answer.Halted else Answer(ok, val)) == Step(old(Setup()), old(Abstract()), Op.Get(key, maxLen))
    {
      hide HasTag, Opened, Intact, AllIntact, ValidAead, View, AuthSum, StorageTag;
      hide NorcowStore.Norcow.Steady, NorcowStore.Norcow.Map;
      EntryOf(aead, store.Map(), key);
      if !Application(key) { return false, false, []; }
      if Protected(key) {
        if !unlocked { return false, false, []; }
        fault, ok, val := GetEncrypted(key, maxLen);
        return;
      }
      var found, stored := store.Get(key);
      if !found || |stored| > maxLen { return false, false, []; }
      return false, true, FromFlash(stored);
    }

    // ----- storage_delete

    method Delete(key: int) returns (ok: bool)
      requires Valid() && !halted && ValidOp(Op.Delete(key))
      modifies this, store
      ensures Valid() && Setup() == old(Setup())
      ensures (Abstract(), Answer(ok, [])) == Step(old(Setup()), old(Abstract()), Op.Delete(key))
    {
      hide HasTag, ValidAead, AllIntact, View, Own, StorageTag, XorBytes, KeyTag;
      hide NorcowEdits.MapSize, NorcowStore.Norcow.Steady, NorcowStore.Norcow.Map;
      ghost var m := store.Map();
      EntryOf(aead, m, key);
      if !Application(key) { return false; }
      if !unlocked && !WritableLocked(key) { return false; }
      ok := store.Delete(key);
      ViewRemove(aead, m, key);
      TagUntouched(h, sak, m, tagSum, key, []);
      if !ok {
        assert m - {key} == m;
        return;
      }
      ghost var m1 := store.Map();
      ok := AuthUpdate(key);
      TagLength(h, sak, m1, old(tagSum));
      ViewOwn(aead, m1, STORAGE_TAG_KEY, ToFlash(StorageTag(h, sak, tagSum)));
    }

    // ----- Locking and restarting

    /** storage_lock; the keys it forgets come back with the next unlocking. */
    method Lock()
      requires Valid() && !halted
      modifies this`sum, this`unlocked
      ensures Valid() && Setup() == old(Setup())
      ensures (Abstract(), Answer(true, [])) == Step(old(Setup()), old(Abstract()), Op.Lock)
    {
      unlocked := false;
      sum := Zeros(32);
    }

    /** A power cycle and storage_init: memory starts from zeros, and norcow_init finds the store again. */
    method Restart()
      requires Valid()
      modifies this, store
      ensures Valid() && Setup() == old(Setup())
      ensures (Abstract(), Answer(true, [])) == Step(old(Setup()), old(Abstract()), Op.Restart)
    {
      hide HasTag, ValidAead, AllIntact, View, Own, NorcowStore.Norcow.Steady, NorcowStore.Norcow.Map;
      sum, unlocked, halted := Zeros(32), false, false;
      var out := store.Execute(NorcowStore.Reboot);
    }

    /** unlock, once the PIN has been checked: reading the version entry recomputes the sum. */
    method Unlock(correct: bool) returns (fault: bool, ok: bool)
      requires Valid() && !halted
      modifies this
      ensures Valid() && fault == halted && Setup() == old(Setup())
      ensures (Abstract(), if fault then Answer.Halted else Answer(ok, [])) == Step(old(Setup()), old(Abstract()), Op.Unlock(correct))
    {
      hide HasTag, AllIntact, ValidAead, View, AuthSum, StorageTag, NorcowStore.Norcow.Steady, NorcowStore.Norcow.Map;
      if !correct { return false, false; }
      ghost var m := store.Map();
      var found, stored;
      fault, found, stored := AuthGet(VERSION_KEY);
      ViewKeys(aead, m);
      TagsCompare(h, sak, m, tagSum, sum);
      if fault {
        halted := true;
        return true, false;
      }
      tagSum := sum;
      unlocked := true;
      return false, true;
    }

    /**
      * Every run of operations acts as the specification on the view and the sum; one that loses
      * nothing never halts and answers as a plain map of bounded size with a lock.
      */
    method Run(ops: seq<Op>) returns (answers: seq<Answer>)
      requires Valid() && forall i :: 0 <= i < |ops| ==> ValidOp(ops[i])
      modifies this, store
      ensures Valid() && Setup() == old(Setup())
      ensures (Abstract(), answers) == SealedSpec.Run(old(Setup()), old(Abstract()), ops)
      ensures var c, s := old(Setup()), old(Abstract());
              !s.halted && Agrees(c, s) && NothingLost(c, (s.view, s.unlocked), ops) ==>
                && !halted && Agrees(Setup(), Abstract())
                && ((Abstract().view, unlocked), answers) == MapRun(c, (s.view, s.unlocked), ops)
      ensures !old(unlocked) && (forall i :: 0 <= i < |ops| ==> ops[i] != Op.Unlock(true)) ==>
                && !unlocked && |answers| == |ops| && KeyRules.SameBelow(old(Abstract()).view, Abstract().view)
                && forall i :: 0 <= i < |ops| ==> KeyRules.LockedAnswer(ops[i], answers[i])
    {
      hide HasTag, ValidAead, AllIntact, View, Own, Step, NorcowEdits.MapSize, NorcowStore.Norcow.Steady, NorcowStore.Norcow.Map;
      ghost var c, s := Setup(), Abstract();
      ViewInRange();
      answers := [];
      for i := 0 to |ops|
        invariant Valid() && Setup() == c && (Abstract(), answers) == SealedSpec.Run(c, s, ops[..i])
      {
        assert ops[..i + 1][..i] == ops[..i];
        var a := Perform(ops[i]);
        answers := answers + [a];
      }
      assert ops[..|ops|] == ops;
      if !s.halted && Agrees(c, s) && NothingLost(c, (s.view, s.unlocked), ops) { RunIsMap(c, s, ops); }
      if !s.unlocked && forall i :: 0 <= i < |ops| ==> ops[i] != Op.Unlock(true) { KeyRules.LockedRun(c, s, ops); }
    }

    lemma ViewInRange()
      requires Valid()
      ensures KeyRules.Viewed(Abstract().view)
    {
      hide AllIntact, HasTag, Plain;
      forall k | k in Abstract().view ensures 0x100 <= k < 0xFFFF {
        store.EntryInRange(k);
        KeyRules.KeyRanges(k);
      }
    }

    /** One operation; a halted device only restarts. */
    method Perform(op: Op) returns (a: Answer)
      requires Valid() && ValidOp(op)
      modifies this, store
      ensures Valid() && Setup() == old(Setup()) && (Abstract(), a) == Step(old(Setup()), old(Abstract()), op)
    {
      hide HasTag, ValidAead, AllIntact, View, Own, Step, NorcowEdits.MapSize, NorcowStore.Norcow.Steady, NorcowStore.Norcow.Map;
      StepHalts(Setup(), Abstract(), op);
      if op.Restart? {
        Restart();
        return Answer(true, []);
      }
      if halted { return Answer.Halted; }
      match op
      case Set(key, val, iv) =>
        var ok := Set(key, val, iv);
        a := Answer(ok, []);
      case Get(key, maxLen) =>
        var fault, ok, val := Get(key, maxLen);
        a := if fault then Answer.Halted else Answer(ok, val);
      case Delete(key) =>
        var ok := Delete(key);
        a := Answer(ok, []);
      case Lock =>
        Lock();
        a := Answer(true, []);
      case Unlock(correct) =>
        var fault, ok := Unlock(correct);
        a := if fault then Answer.Halted else Answer(ok, []);
    }

    /** auth_init on a store that holds no entry of the application; storage.c ensures that the tag can be written. */
    constructor (sha: Sha, authKey: Bytes, cipher: Aead, flash: NorcowStore.Norcow)
      requires ValidSha(sha) && |authKey| <= BLOCK && ValidAead(cipher) && flash.Valid()
      requires (forall k :: k in flash.Map() ==> !Application(k)) && flash.Fits(flash.Map(), STORAGE_TAG_KEY, STORAGE_TAG_SIZE)
      modifies flash
      ensures Valid() && Abstract() == State(map[], Zeros(32), true, false) && Agrees(Setup(), Abstract())
      ensures h == sha && sak == authKey && aead == cipher && store == flash
      ensures flash.Map() == old(flash.Map())[STORAGE_TAG_KEY := ToFlash(StorageTag(sha, authKey, Zeros(32)))]
    {
      h, sak, aead, store := sha, authKey, cipher, flash;
      sum, tagSum, unlocked, halted := Zeros(32), Zeros(32), true, false;
      new;
      hide Hmac, HasTag, StorageTag, ValidAead, View, AllIntact, NorcowStore.Norcow.Steady, NorcowStore.Norcow.Map, NorcowStore.Norcow.Fits;
      ghost var m := flash.Map();
      var tag := HmacSha256.HmacSha256(sha, authKey, Zeros(32));
      var ok, found := flash.SetEx(STORAGE_TAG_KEY, Some(ToFlash(tag[..STORAGE_TAG_SIZE])), STORAGE_TAG_SIZE);
      TagWritten(sha, authKey, m, sum);
      NoEntries(cipher, flash.Map());
      SumOfNothing(sha, authKey);
    }
  }

  lemma NoEntries(a: Aead, m: map<int, Flash>)
    requires forall k :: k in m ==> !Application(k)
    ensures View(a, m) == map[] && AllIntact(a, m) && ProtectedKeys(View(a, m)) == {}
  {}

  ghost predicate HasTag(h: Sha, sak: Bytes, m: map<int, Flash>, sum: Bytes)
    requires ValidSha(h) && |sak| <= BLOCK && |sum| == DIGEST
  {
    STORAGE_TAG_KEY in m && m[STORAGE_TAG_KEY] == ToFlash(StorageTag(h, sak, sum))
  }

  lemma TagWritten(h: Sha, sak: Bytes, m: map<int, Flash>, sum: Bytes)
    requires ValidSha(h) && |sak| <= BLOCK && |sum| == DIGEST
    ensures StorageTag(h, sak, sum) == Hmac(h, sak, sum)[..STORAGE_TAG_SIZE]
    ensures HasTag(h, sak, m[STORAGE_TAG_KEY := ToFlash(StorageTag(h, sak, sum))], sum)
  {}

  lemma TagUntouched(h: Sha, sak: Bytes, m: map<int, Flash>, sum: Bytes, key: int, v: Flash)
    requires ValidSha(h) && |sak| <= BLOCK && |sum| == DIGEST && HasTag(h, sak, m, sum) && key != STORAGE_TAG_KEY
    ensures HasTag(h, sak, m[key := v], sum) && HasTag(h, sak, m - {key}, sum)
  {
    hide StorageTag;
  }

  lemma TagLength(h: Sha, sak: Bytes, m: map<int, Flash>, sum: Bytes)
    requires ValidSha(h) && |sak| <= BLOCK && |sum| == DIGEST && HasTag(h, sak, m, sum)
    ensures STORAGE_TAG_KEY in m && |m[STORAGE_TAG_KEY]| == STORAGE_TAG_SIZE
  {}

  /** The stored tag is that of another sum exactly when the two tags agree. */
  lemma TagsCompare(h: Sha, sak: Bytes, m: map<int, Flash>, sum: Bytes, total: Bytes)
    requires ValidSha(h) && |sak| <= BLOCK && |sum| == |total| == DIGEST && HasTag(h, sak, m, sum)
    ensures HasTag(h, sak, m, total) <==> StorageTag(h, sak, sum) == StorageTag(h, sak, total)
  {
    hide StorageTag;
    FlashRoundTrip(StorageTag(h, sak, sum));
    FlashRoundTrip(StorageTag(h, sak, total));
  }

  lemma EntryOf(a: Aead, m: map<int, Flash>, key: int)
    ensures Application(key) ==> (key in View(a, m) <==> key in m)
    ensures key in View(a, m) ==> Application(key) && View(a, m)[key] == Plain(a, key, m[key])
  {}

  lemma IntactParts(a: Aead, key: nat, v: Bytes)
    requires Intact(a, key, v)
    ensures |v| >= IV_SIZE + TAG_SIZE && a.tag(v[..IV_SIZE], key, v[IV_SIZE + TAG_SIZE..]) == v[IV_SIZE..IV_SIZE + TAG_SIZE]
    ensures Opened(a, v) == Crypt(a, v[..IV_SIZE], 0, v[IV_SIZE + TAG_SIZE..])
  {}

  ghost function At(m: map<int, Flash>, k: int): Option<Flash> { if k in m then Some(m[k]) else None }

  /** Erased flash. */
  function Blank(n: nat): (s: Flash)
    ensures |s| == n
  {
    NorcowLayout.Fill(n, 255)
  }

  /** The entry while it is being written: the first i bytes of ciphertext are there, the tag is not. */
  function Partial(a: Aead, iv: Bytes, val: Bytes, i: nat): Flash
    requires i <= |val|
  {
    ToFlash(iv) + Blank(TAG_SIZE) + ToFlash(Crypt(a, iv, 0, val[..i])) + Blank(|val| - i)
  }

  lemma BlankSplit(m: nat, n: nat)
    ensures Blank(m + n) == Blank(m) + Blank(n)
  {}

  lemma PartialStart(a: Aead, iv: Bytes, val: Bytes)
    requires |iv| == IV_SIZE
    ensures [] + Blank(|iv|) + Blank(TAG_SIZE + |val|) == Blank(IV_SIZE + TAG_SIZE + |val|)
    ensures [] + ToFlash(iv) + Blank(TAG_SIZE + |val|) == Partial(a, iv, val, 0)
  {
    BlankSplit(IV_SIZE, TAG_SIZE + |val|);
    BlankSplit(TAG_SIZE, |val|);
    assert Crypt(a, iv, 0, val[..0]) == [];
  }

  lemma PartialSplit(a: Aead, iv: Bytes, val: Bytes, i: nat, n: nat)
    requires i + n <= |val|
    ensures var c, b := Crypt(a, iv, 0, val[..i]), Crypt(a, iv, i, val[i..i + n]);
            var head := ToFlash(iv) + Blank(TAG_SIZE) + ToFlash(c);
            && |b| == n && |head| == |iv| + TAG_SIZE + i
            && Partial(a, iv, val, i) == head + Blank(n) + Blank(|val| - i - n)
            && Partial(a, iv, val, i + n) == head + ToFlash(b) + Blank(|val| - i - n)
  {
    hide Crypt, ToFlash, Blank;
    BlankSplit(n, |val| - i - n);
    CryptParts(a, iv, val, i, i + n);
    var c, b, r := ToFlash(Crypt(a, iv, 0, val[..i])), ToFlash(Crypt(a, iv, i, val[i..i + n])), Blank(|val| - i - n);
    FlashConcat(Crypt(a, iv, 0, val[..i]), Crypt(a, iv, i, val[i..i + n]));
    Regrouped(ToFlash(iv) + Blank(TAG_SIZE), c, b, r);
    Regrouped(ToFlash(iv) + Blank(TAG_SIZE), c, Blank(n), r);
  }

  lemma Regrouped(a: Flash, c: Flash, b: Flash, r: Flash)
    ensures a + (c + b) + r == a + c + b + r && a + c + (b + r) == a + c + b + r
  {}

  lemma PartialEnd(a: Aead, iv: Bytes, key: nat, val: Bytes)
    requires ValidAead(a)
    ensures var c := Crypt(a, iv, 0, val);
            && |a.tag(iv, key, c)| == TAG_SIZE
            && Partial(a, iv, val, |val|) == ToFlash(iv) + Blank(|a.tag(iv, key, c)|) + ToFlash(c)
            && ToFlash(Sealed(a, iv, key, val)) == ToFlash(iv) + ToFlash(a.tag(iv, key, c)) + ToFlash(c)
  {
    hide Crypt, ToFlash;
    assert val[..|val|] == val;
    var c := Crypt(a, iv, 0, val);
    FlashConcat(iv + a.tag(iv, key, c), c);
    FlashConcat(iv, a.tag(iv, key, c));
  }

  /**
    * A stored entry is lost on a device with two sectors of 64 bytes: the longer value does not
    * fit, the old one is gone, and the device halts when it is restarted and unlocked.
    */
  method LoseEntry() returns (answers: seq<Answer>)
    ensures answers == [Answer(true, []), Answer(false, []), Answer(true, []), Answer.Halted]
  {
    hide Hmac, StorageTag, SealedSpec.Run, NorcowEdits.MapSize, NorcowStore.Norcow.Steady, NorcowStore.Norcow.Map, View;
    var flash := new NorcowStore.Norcow(2, 64, 0, 1);
    var version := flash.Init(false, 0, []);
    SmallDevice(ToFlash(StorageTag(Echo(), [], Zeros(32))));
    ghost var empty: map<int, Flash> := map[];
    assert empty - {STORAGE_TAG_KEY} == empty;
    var storage := new Storage(Echo(), [], Aead((iv, at) => Byte(0), (iv, key, c) => Zeros(TAG_SIZE)), flash);
    EchoTags();
    Losing(storage.Setup());
    answers := storage.Run(LosingOps());
  }

  lemma SmallDevice(tag: Flash)
    requires |tag| == STORAGE_TAG_SIZE
    ensures NorcowEdits.MapSize(map[]) == 0
    ensures var m: map<int, Flash> := map[STORAGE_TAG_KEY := tag]; NorcowEdits.MapSize(Own(m)) == 20
  {
    var m: map<int, Flash> := map[STORAGE_TAG_KEY := tag];
    assert Own(m) == m && m - {STORAGE_TAG_KEY} == map[];
    NorcowEdits.MapSizeRemove(m, STORAGE_TAG_KEY);
  }
}
