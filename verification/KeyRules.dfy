/** Which keys of storage/storage.c are protected, public or open while locked, in bits and numbers. */
module KeyRules {
  import opened Sha256
  import opened HmacSha256
  import opened StorageAuth
  import opened SealedEntries
  import opened SealedSpec
  import ByteValues
  import NorcowEdits
  import NorcowLayout

  /** The key with the given upper byte, its app, and lower byte. */
  function Key(app: bv8, low: bv8): nat { 256 * ByteValues.Number(app) + ByteValues.Number(low) }

  lemma KeyParts(app: bv8, low: bv8)
    ensures Key(app, low) / 256 == ByteValues.Number(app) && Key(app, low) % 256 == ByteValues.Number(low)
    ensures Key(app, low) < 0x1_0000
  {
    hide ByteValues.Number;
    Split(ByteValues.Number(app), ByteValues.Number(low));
  }

  lemma Split(a: nat, l: nat)
    requires l < 256
    ensures (256 * a + l) / 256 == a && (256 * a + l) % 256 == l
  {}

  lemma AppBits(app: bv8)
    ensures 0 < ByteValues.Number(app) < 128 <==> app & 0x80 == 0 && app != 0
    ensures ByteValues.Number(app) != 0 <==> app != 0
    ensures ByteValues.Number(app) >= 192 <==> app & 0xC0 == 0xC0
  {}

  /** FLAG_PUBLIC is 0x80, FLAGS_WRITE is 0xC0 and APP_STORAGE is 0. */
  lemma KeyFlags(app: bv8, low: bv8)
    ensures Protected(Key(app, low)) <==> app & 0x80 == 0 && app != 0
    ensures Application(Key(app, low)) <==> app != 0
    ensures WritableLocked(Key(app, low)) <==> app & 0xC0 == 0xC0
  {
    hide Key, ByteValues.Number;
    KeyParts(app, low);
    AppBits(app);
  }

  lemma KeyRanges(key: nat)
    requires key < 0x1_0000
    ensures Protected(key) <==> 0x100 <= key < 0x8000
    ensures Application(key) <==> 0x100 <= key
    ensures WritableLocked(key) <==> 0xC000 <= key
  {}

  // ----- What a locked storage keeps

  /** The entries under keys below 0xC000 are the same. */
  ghost predicate SameBelow(v: map<int, Bytes>, w: map<int, Bytes>) {
    forall k :: 0 <= k < 0xC000 ==> (k in v <==> k in w) && (k in v ==> v[k] == w[k])
  }

  /** No entry below 0xC000 is written or deleted, and none below 0x8000 is read. */
  predicate LockedAnswer(op: Op, a: Answer) {
    && ((op.Set? || op.Delete?) && op.key < 0xC000 ==> a == Halted || a == Answer(false, []))
    && (op.Get? && op.key < 0x8000 ==> a == Halted || a == Answer(false, []))
  }

  /** Own entries are not in the view. */
  ghost predicate Viewed(v: map<int, Bytes>) { forall k :: k in v ==> 0x100 <= k < 0xFFFF }

  lemma LockedStep(c: Setting, s: State, op: Op)
    requires ValidSetting(c) && ValidState(s) && ValidOp(op) && !s.unlocked && op != Unlock(true) && Viewed(s.view)
    ensures var (t, a) := Step(c, s, op);
            !t.unlocked && Viewed(t.view) && SameBelow(s.view, t.view) && LockedAnswer(op, a)
  {
    hide Passes, TrueSum, Toggled, Fits;
    if op.Set? || op.Get? || op.Delete? { KeyRanges(op.key); }
  }

  /**
    * While the storage is locked, restarts and wrong PINs included, no run changes an entry under a
    * key below 0xC000 or reads one below 0x8000.
    */
  lemma {:induction false} LockedRun(c: Setting, s: State, ops: seq<Op>)
    requires ValidSetting(c) && ValidState(s) && !s.unlocked && Viewed(s.view)
    requires forall i :: 0 <= i < |ops| ==> ValidOp(ops[i]) && ops[i] != Unlock(true)
    ensures var (t, answers) := Run(c, s, ops);
            && !t.unlocked && Viewed(t.view) && SameBelow(s.view, t.view) && |answers| == |ops|
            && forall i :: 0 <= i < |ops| ==> LockedAnswer(ops[i], answers[i])
  {
    hide Run, Step, LockedAnswer, ValidOp;
    if ops == [] {
      RunPush(c, s, [], Restart);
    } else {
      var n := |ops| - 1;
      var before, op := ops[..n], ops[n];
      assert ops == before + [op];
      LockedRun(c, s, before);
      RunPush(c, s, before, op);
      LockedStep(c, Run(c, s, before).0, op);
    }
  }

  // ----- What a plain map of bounded size answers

  /** What an entry takes: four bytes of prefix, the value with its seal, up to a word boundary. */
  function Taken(key: int, len: nat): nat { (4 + len + (if key < 0x8000 then 28 else 0) + 3) / 4 * 4 }

  lemma SizeOfNothing()
    ensures ViewSize(map[]) == 0
  {
    assert Shadow(map[]) == map[];
  }

  lemma SizeGrows(view: map<int, Bytes>, key: nat, val: Bytes)
    requires 0x100 <= key < 0xFFFF
    ensures ViewSize(map[]) == 0
    ensures ViewSize(view[key := val]) == ViewSize(view - {key}) + Taken(key, |val|)
  {
    SizeOfNothing();
    hide Taken, Overhead, NorcowLayout.Size, NorcowEdits.MapSize;
    TakenIs(key, |val|);
    var m := Shadow(view[key := val]);
    NorcowEdits.MapSizeRemove(m, key);
    assert m - {key} == Shadow(view - {key});
  }

  lemma TakenIs(key: nat, len: nat)
    requires 0x100 <= key < 0xFFFF
    ensures NorcowLayout.Size(Overhead(key) + len) == Taken(key, len)
  {
    KeyRanges(key);
  }

  /** A write succeeds exactly for a key of the application, a 16-bit length, an open lock and room. */
  lemma SetAnswer(c: Setting, view: map<int, Bytes>, unlocked: bool, key: nat, val: Bytes, iv: Bytes)
    requires key < 0x1_0000
    ensures var seal := if key < 0x8000 then 28 else 0;
            var (m, a) := MapStep(c, (view, unlocked), Set(key, val, iv));
            var allowed := 0x100 <= key < 0xFFFF && seal + |val| <= 0xFFFF && (unlocked || key >= 0xC000);
            var room := ViewSize(view - {key}) + 4 + seal + |val| <= c.room;
            && a == Answer(allowed && room, [])
            && m == (if !allowed then view else if room then view[key := val] else view - {key}, unlocked)
  {
    KeyRanges(key);
    hide ViewSize, Protected, Application, WritableLocked;
  }

  /** A read succeeds exactly for an entry that fits the buffer, of a public key or with the lock open. */
  lemma GetAnswer(c: Setting, view: map<int, Bytes>, unlocked: bool, key: nat, maxLen: nat)
    requires key < 0x1_0000 && Viewed(view)
    ensures var (m, a) := MapStep(c, (view, unlocked), Get(key, maxLen));
            && m == (view, unlocked)
            && a == if key in view && |view[key]| <= maxLen && (unlocked || key >= 0x8000) then Answer(true, view[key]) else Answer(false, [])
  {
    KeyRanges(key);
    hide Protected;
  }

  /** A deletion succeeds exactly for an entry that is there, with an open lock. */
  lemma DeleteAnswer(c: Setting, view: map<int, Bytes>, unlocked: bool, key: nat)
    requires key < 0x1_0000
    ensures var (m, a) := MapStep(c, (view, unlocked), Delete(key));
            var open := unlocked || key >= 0xC000;
            m == (if open then view - {key} else view, unlocked) && a == Answer(open && key in view, [])
  {
    KeyRanges(key);
    hide WritableLocked;
  }

  /** Locking and restarting close the lock, and only the right PIN opens it. */
  lemma LockAnswer(c: Setting, view: map<int, Bytes>, unlocked: bool, correct: bool)
    ensures MapStep(c, (view, unlocked), Lock) == ((view, false), Answer(true, []))
    ensures MapStep(c, (view, unlocked), Restart) == ((view, false), Answer(true, []))
    ensures MapStep(c, (view, unlocked), Unlock(correct)) == ((view, unlocked || correct), Answer(correct, []))
  {}

  // ----- What is authenticated

  /** A key contributes the HMAC of its two bytes, the lower one first. */
  lemma KeyTagMeans(h: Sha, sak: Bytes, app: bv8, low: bv8)
    requires ValidSha(h) && |sak| <= BLOCK && Protected(Key(app, low))
    ensures KeyTag(h, sak, Key(app, low)) == Hmac(h, sak, [Byte(low), Byte(app)])
  {
    hide Hmac;
    KeyParts(app, low);
    BackToByte(app);
    BackToByte(low);
    hide Key, ByteValues.Number;
  }

  lemma BackToByte(b: bv8)
    ensures ToByte(ByteValues.Number(b)) == Byte(b)
  {
    assert (b as int) as bv8 == b;
  }

  /** The stored tag is the first half of the HMAC of the sum. */
  lemma StorageTagMeans(h: Sha, sak: Bytes, sum: Bytes)
    requires ValidSha(h) && |sak| <= BLOCK && |sum| == 32
    ensures StorageTag(h, sak, sum) == Hmac(h, sak, sum)[..16]
  {}
}
