/**
  * What storage_set, storage_get, storage_delete, storage_lock, storage_unlock and a restart of
  * storage/storage.c do to a map of plaintexts, the authentication sum, and the space left for
  * entries.
  */
module SealedSpec {
  import opened Sha256
  import opened HmacSha256
  import opened StorageAuth
  import opened SealedEntries
  import NorcowLayout

  /** The authentication key and its hash, and the flash that the application's entries may take. */
  datatype Setting = Setting(h: Sha, sak: Bytes, room: int)

  ghost predicate ValidSetting(c: Setting) { ValidSha(c.h) && |c.sak| <= BLOCK }

  /**
    * The entries, the sum whose tag lies in the flash, whether the storage is unlocked, and
    * whether handle_fault has stopped the device. While the storage is unlocked,
    * authentication_sum is that sum; locking and restarting forget it.
    */
  datatype State = State(view: map<int, Bytes>, sum: Bytes, unlocked: bool, halted: bool)

  ghost predicate ValidState(s: State) { |s.sum| == DIGEST }

  /** Unlock says whether the PIN is right; a restart is a power cycle followed by storage_init. */
  datatype Op =
    | Set(key: int, val: Bytes, iv: Bytes)
    | Get(key: int, maxLen: nat)
    | Delete(key: int)
    | Lock
    | Unlock(correct: bool)
    | Restart

  datatype Answer = Answer(ok: bool, val: Bytes) | Halted

  /** Keys and lengths are 16-bit. */
  predicate ValidOp(op: Op) {
    match op
    case Set(key, val, iv) => 0 <= key < 0x1_0000 && |iv| == IV_SIZE && |val| < 0x1_0000
    case Get(key, _) => 0 <= key < 0x1_0000
    case Delete(key) => 0 <= key < 0x1_0000
    case _ => true
  }

  /** The sum over the entries that are there. */
  ghost function TrueSum(c: Setting, view: map<int, Bytes>): (d: Bytes)
    requires ValidSetting(c)
    ensures |d| == DIGEST
  {
    AuthSum(c.h, c.sak, ProtectedKeys(view))
  }

  ghost predicate Agrees(c: Setting, s: State)
    requires ValidSetting(c)
  {
    s.sum == TrueSum(c, s.view)
  }

  /** The next auth_get passes its tag check. */
  ghost predicate Passes(c: Setting, s: State)
    requires ValidSetting(c) && ValidState(s)
  {
    StorageTag(c.h, c.sak, s.sum) == StorageTag(c.h, c.sak, TrueSum(c, s.view))
  }

  /** auth_update as far as the sum goes. */
  function Toggled(c: Setting, sum: Bytes, key: int): (r: Bytes)
    requires ValidSha(c.h) && |c.sak| <= BLOCK && |sum| == DIGEST
    ensures |r| == DIGEST
  {
    if Protected(key) then XorBytes(sum, KeyTag(c.h, c.sak, key)) else sum
  }

  /** A write that is refused before the flash is touched. */
  predicate Forbidden(key: int, len: nat) {
    !Application(key) || key == NorcowLayout.KEY_FREE || Overhead(key) + len > 0xFFFF
  }

  /** FLAGS_WRITE: public keys that may be written while the storage is locked. */
  predicate WritableLocked(key: int) { key / 256 >= 0xC0 }

  /** The other entries and the new one fit. */
  ghost predicate Fits(c: Setting, view: map<int, Bytes>, key: int, len: nat) {
    ViewSize(view - {key}) + NorcowLayout.PREFIX + Overhead(key) + len <= c.room
  }

  /** The write of a stored protected key that is refused for lack of space: the old value is gone all the same. */
  ghost predicate Loses(c: Setting, s: State, op: Op) {
    && !s.halted && s.unlocked && op.Set? && Protected(op.key) && op.key in s.view
    && !Forbidden(op.key, |op.val|) && !Fits(c, s.view, op.key, |op.val|)
  }

  function Found(view: map<int, Bytes>, key: int, maxLen: nat): Answer {
    if key in view && |view[key]| <= maxLen then Answer(true, view[key]) else Answer(false, [])
  }

  ghost function Step(c: Setting, s: State, op: Op): (r: (State, Answer))
    requires ValidSetting(c) && ValidState(s)
    ensures ValidState(r.0)
  {
    if op.Restart? then (s.(unlocked := false, halted := false), Answer(true, []))
    else if s.halted then (s, Halted)
    else
      match op
      case Set(key, val, _) =>
        if Forbidden(key, |val|) || !(s.unlocked || WritableLocked(key)) then (s, Answer(false, []))
        else if !Fits(c, s.view, key, |val|) then (s.(view := s.view - {key}), Answer(false, []))
        else (s.(view := s.view[key := val], sum := if key in s.view then s.sum else Toggled(c, s.sum, key)), Answer(true, []))
      case Get(key, maxLen) =>
        if !Protected(key) then (s, Found(s.view, key, maxLen))
        else if !s.unlocked then (s, Answer(false, []))
        else if !Passes(c, s) then (s.(halted := true), Halted)
        else (s.(sum := TrueSum(c, s.view)), Found(s.view, key, maxLen))
      case Delete(key) =>
        if key !in s.view || !(s.unlocked || WritableLocked(key)) then (s, Answer(false, []))
        else (s.(view := s.view - {key}, sum := Toggled(c, s.sum, key)), Answer(true, []))
      case Lock => (s.(unlocked := false), Answer(true, []))
      case Unlock(correct) =>
        if !correct then (s, Answer(false, []))
        else if !Passes(c, s) then (s.(halted := true), Halted)
        else (s.(sum := TrueSum(c, s.view), unlocked := true), Answer(true, []))
      case Restart => (s, Answer(true, []))
  }

  /** The operations that call auth_get. */
  predicate Reads(s: State, op: Op) {
    !s.halted && ((op.Get? && Protected(op.key) && s.unlocked) || op == Unlock(true))
  }

  /** Only auth_get halts the device, and only a restart ends that. */
  lemma StepHalts(c: Setting, s: State, op: Op)
    requires ValidSetting(c) && ValidState(s)
    ensures s.halted && !op.Restart? ==> Step(c, s, op) == (s, Halted)
    ensures !s.halted ==> (Step(c, s, op).0.halted <==> Reads(s, op) && !Passes(c, s))
    ensures Step(c, s, op).0.halted <==> Step(c, s, op).1 == Halted
  {}

  ghost function Run(c: Setting, s: State, ops: seq<Op>): (r: (State, seq<Answer>))
    requires ValidSetting(c) && ValidState(s)
    ensures ValidState(r.0)
  {
    if ops == [] then (s, [])
    else
      var (t, answers) := Run(c, s, ops[..|ops| - 1]);
      var (u, a) := Step(c, t, ops[|ops| - 1]);
      (u, answers + [a])
  }

  lemma RunPush(c: Setting, s: State, ops: seq<Op>, op: Op)
    requires ValidSetting(c) && ValidState(s)
    ensures Run(c, s, []) == (s, [])
    ensures var (t, answers) := Run(c, s, ops);
            Run(c, s, ops + [op]) == (Step(c, t, op).0, answers + [Step(c, t, op).1])
  {
    assert (ops + [op])[..|ops|] == ops;
  }

  // ----- Without lost entries: a plain map of bounded size

  /** The operations on a map of bounded size with a lock, and with no authentication at all. */
  ghost function MapStep(c: Setting, m: (map<int, Bytes>, bool), op: Op): ((map<int, Bytes>, bool), Answer) {
    var (view, unlocked) := m;
    match op
    case Set(key, val, _) =>
      if Forbidden(key, |val|) || !(unlocked || WritableLocked(key)) then (m, Answer(false, []))
      else if Fits(c, view, key, |val|) then ((view[key := val], unlocked), Answer(true, []))
      else ((view - {key}, unlocked), Answer(false, []))
    case Get(key, maxLen) => (m, if Protected(key) && !unlocked then Answer(false, []) else Found(view, key, maxLen))
    case Delete(key) =>
      if unlocked || WritableLocked(key) then ((view - {key}, unlocked), Answer(key in view, [])) else (m, Answer(false, []))
    case Lock => ((view, false), Answer(true, []))
    case Unlock(correct) => ((view, unlocked || correct), Answer(correct, []))
    case Restart => ((view, false), Answer(true, []))
  }

  ghost function MapRun(c: Setting, m: (map<int, Bytes>, bool), ops: seq<Op>): ((map<int, Bytes>, bool), seq<Answer>) {
    if ops == [] then (m, [])
    else
      var (m1, answers) := MapRun(c, m, ops[..|ops| - 1]);
      var (m2, a) := MapStep(c, m1, ops[|ops| - 1]);
      (m2, answers + [a])
  }

  /** No stored protected key is refused for lack of space: this a caller can tell from the lengths alone. */
  ghost predicate NothingLost(c: Setting, m: (map<int, Bytes>, bool), ops: seq<Op>) {
    ops == [] || (
      && NothingLost(c, m, ops[..|ops| - 1])
      && var (view, unlocked) := MapRun(c, m, ops[..|ops| - 1]).0;
         !Loses(c, State(view, [], unlocked, false), ops[|ops| - 1]))
  }

  /** How the sum over the entries follows the entries. */
  lemma SumFollows(c: Setting, view: map<int, Bytes>, key: int, val: Bytes)
    requires ValidSetting(c)
    ensures TrueSum(c, view[key := val]) == if key in view then TrueSum(c, view) else Toggled(c, TrueSum(c, view), key)
    ensures TrueSum(c, view - {key}) == if key in view then Toggled(c, TrueSum(c, view), key) else TrueSum(c, view)
  {
    hide AuthSum, KeyTag, XorBytes, Protected;
    var p := ProtectedKeys(view);
    if Protected(key) {
      SumToggle(c.h, c.sak, p, key);
      assert ProtectedKeys(view[key := val]) == p + {key} && ProtectedKeys(view - {key}) == p - {key};
      if key in view { assert p + {key} == p; } else { assert p - {key} == p; }
    } else {
      assert ProtectedKeys(view[key := val]) == p && ProtectedKeys(view - {key}) == p;
    }
  }

  /**
    * From a state whose sum is right, one operation keeps it right exactly when it does not lose an
    * entry (or the lost key's HMAC is all zeros), and then it answers as the plain map does.
    */
  lemma StepAgrees(c: Setting, s: State, op: Op)
    requires ValidSetting(c) && ValidState(s) && !s.halted && Agrees(c, s)
    ensures var (t, a) := Step(c, s, op);
            && !t.halted && ((t.view, t.unlocked), a) == MapStep(c, (s.view, s.unlocked), op)
            && (Agrees(c, t) <==> (Loses(c, s, op) ==> KeyTag(c.h, c.sak, op.key) == Zeros(32)))
  {
    hide TrueSum, KeyTag, XorBytes, StorageTag, Fits, Forbidden;
    if op.Set? || op.Delete? {
      var key := op.key;
      SumFollows(c, s.view, key, if op.Set? then op.val else []);
      if Protected(key) { XorChanges(s.sum, KeyTag(c.h, c.sak, key)); }
      assert key !in s.view ==> s.view - {key} == s.view;
    }
  }

  /** Every run that loses nothing never halts, keeps the sum right, and answers as the plain map of bounded size. */
  lemma {:induction false} RunIsMap(c: Setting, s: State, ops: seq<Op>)
    requires ValidSetting(c) && ValidState(s) && !s.halted && Agrees(c, s) && NothingLost(c, (s.view, s.unlocked), ops)
    ensures var (t, answers) := Run(c, s, ops);
            !t.halted && Agrees(c, t) && ((t.view, t.unlocked), answers) == MapRun(c, (s.view, s.unlocked), ops)
  {
    if ops != [] {
      var n := |ops| - 1;
      RunIsMap(c, s, ops[..n]);
      var t := Run(c, s, ops[..n]).0;
      hide TrueSum, KeyTag, Step, MapStep, Fits, Forbidden;
      StepAgrees(c, t, ops[n]);
    }
  }

  // ----- After a lost entry

  /** The sum differs from that over the entries by d. */
  ghost predicate Skewed(c: Setting, s: State, d: Bytes)
    requires ValidSetting(c)
  {
    |d| == DIGEST && s.sum == XorBytes(TrueSum(c, s.view), d)
  }

  /** Losing an entry skews the sum by its HMAC. */
  lemma LossSkews(c: Setting, s: State, op: Op)
    requires ValidSetting(c) && ValidState(s) && Agrees(c, s) && Loses(c, s, op)
    ensures Skewed(c, Step(c, s, op).0, KeyTag(c.h, c.sak, op.key)) && op.key !in Step(c, s, op).0.view
  {
    hide TrueSum, KeyTag, XorBytes, StorageTag, Fits, Forbidden, Protected;
    SumFollows(c, s.view, op.key, []);
    XorCancel(s.sum, KeyTag(c.h, c.sak, op.key));
  }

  /** Nothing that loses nothing and does not read sets the sum right again: not writing the lost key, not a restart. */
  lemma SkewStays(c: Setting, s: State, op: Op, d: Bytes)
    requires ValidSetting(c) && ValidState(s) && Skewed(c, s, d)
    requires !Loses(c, s, op) && !Reads(s, op)
    ensures Skewed(c, Step(c, s, op).0, d)
    ensures Step(c, s, op).0.halted ==> s.halted
  {
    hide TrueSum, KeyTag, XorBytes, StorageTag, Fits, Forbidden;
    if op.Set? || op.Delete? {
      var key := op.key;
      SumFollows(c, s.view, key, if op.Set? then op.val else []);
      if Protected(key) { XorSwap(TrueSum(c, s.view), KeyTag(c.h, c.sak, key), d); }
      assert key !in s.view ==> s.view - {key} == s.view;
    }
  }

  /** The next read halts the device exactly when the two tags differ. */
  lemma SkewHalts(c: Setting, s: State, op: Op, d: Bytes)
    requires ValidSetting(c) && ValidState(s) && Skewed(c, s, d) && Reads(s, op)
    ensures var t := TrueSum(c, s.view);
            Step(c, s, op).1 == Halted <==> StorageTag(c.h, c.sak, XorBytes(t, d)) != StorageTag(c.h, c.sak, t)
  {
    hide TrueSum, XorBytes, StorageTag;
  }

  /** Operations between a loss and the next read: writes, deletions, locking, failed unlocking and restarts. */
  ghost predicate Quiet(c: Setting, s: State, ops: seq<Op>)
    requires ValidSetting(c) && ValidState(s)
  {
    ops == [] || (
      && Quiet(c, s, ops[..|ops| - 1])
      && !Loses(c, Run(c, s, ops[..|ops| - 1]).0, ops[|ops| - 1])
      && !Reads(Run(c, s, ops[..|ops| - 1]).0, ops[|ops| - 1]))
  }

  lemma {:induction false} SkewLasts(c: Setting, s: State, ops: seq<Op>, d: Bytes)
    requires ValidSetting(c) && ValidState(s) && Skewed(c, s, d) && Quiet(c, s, ops)
    ensures Skewed(c, Run(c, s, ops).0, d)
  {
    if ops != [] {
      var n := |ops| - 1;
      SkewLasts(c, s, ops[..n], d);
      var t := Run(c, s, ops[..n]).0;
      hide Skewed, Step, Loses, Reads;
      SkewStays(c, t, ops[n], d);
    }
  }

  /**
    * A run that loses one entry, then anything that neither reads nor loses, restarts included,
    * and then reads: the read halts exactly when the tag of the sum with the lost key's HMAC in
    * it differs from the tag of the sum over the entries.
    */
  lemma LossHalts(c: Setting, s: State, op: Op, ops: seq<Op>, read: Op)
    requires ValidSetting(c) && ValidState(s) && Agrees(c, s) && Loses(c, s, op)
    requires Quiet(c, Step(c, s, op).0, ops) && Reads(Run(c, Step(c, s, op).0, ops).0, read)
    ensures var t := Run(c, Step(c, s, op).0, ops).0;
            var sum := TrueSum(c, t.view);
            Step(c, t, read).1 == Halted <==>
              StorageTag(c.h, c.sak, XorBytes(sum, KeyTag(c.h, c.sak, op.key))) != StorageTag(c.h, c.sak, sum)
  {
    hide Agrees, TrueSum, KeyTag, XorBytes, StorageTag, Fits, Forbidden;
    LossSkews(c, s, op);
    var u, d := Step(c, s, op).0, KeyTag(c.h, c.sak, op.key);
    SkewLasts(c, u, ops, d);
    hide Quiet, Skewed, Run;
    SkewHalts(c, Run(c, u, ops).0, read, d);
  }

  // ----- After a halt

  /** The tag in the flash is not that of the entries, and the storage is locked or the device stopped. */
  ghost predicate Stuck(c: Setting, s: State)
    requires ValidSetting(c) && ValidState(s)
  {
    !Passes(c, s) && (s.halted || !s.unlocked)
  }

  /** The right PIN halts the device, and no protected entry is read. */
  predicate Denied(op: Op, a: Answer) {
    && (op == Unlock(true) ==> a == Halted)
    && (op.Get? && Protected(op.key) ==> a == Halted || a == Answer(false, []))
  }

  lemma HaltIsStuck(c: Setting, s: State, op: Op)
    requires ValidSetting(c) && ValidState(s) && !s.halted && Step(c, s, op).1 == Halted
    ensures Stuck(c, Step(c, s, op).0)
  {
    hide TrueSum, StorageTag;
    StepHalts(c, s, op);
  }

  lemma StuckStays(c: Setting, s: State, op: Op)
    requires ValidSetting(c) && ValidState(s) && Stuck(c, s)
    ensures Stuck(c, Step(c, s, op).0)
    ensures Denied(op, Step(c, s, op).1)
  {
    hide TrueSum, KeyTag, XorBytes, StorageTag, Fits, Forbidden;
    if op.Set? || op.Delete? {
      SumFollows(c, s.view, op.key, if op.Set? then op.val else []);
      assert op.key !in s.view ==> s.view - {op.key} == s.view;
    }
  }

  /**
    * Once auth_get has halted the device, no run of operations and restarts unlocks the storage
    * again or reads a protected entry.
    */
  lemma {:induction false} StuckForever(c: Setting, s: State, ops: seq<Op>)
    requires ValidSetting(c) && ValidState(s) && Stuck(c, s)
    ensures var (t, answers) := Run(c, s, ops);
            Stuck(c, t) && |answers| == |ops| && forall i :: 0 <= i < |ops| ==> Denied(ops[i], answers[i])
  {
    hide Run, Stuck, Step, Denied;
    if ops == [] {
      RunPush(c, s, [], Restart);
    } else {
      var n := |ops| - 1;
      var before, op := ops[..n], ops[n];
      assert ops == before + [op];
      StuckForever(c, s, before);
      RunPush(c, s, before, op);
      StuckStays(c, Run(c, s, before).0, op);
    }
  }

  // ----- A loss at a concrete state

  /** A compression function that returns the first half of the block. */
  function Echo(): Sha { Sha((s: Bytes, b: Bytes) => if |b| >= DIGEST then b[..DIGEST] else Zeros(32), Zeros(32)) }

  lemma EchoHmac(m: Bytes)
    requires |m| < SHORT_BLOCK
    ensures ValidSha(Echo()) && Hmac(Echo(), [], m) == LastBlock(m)[..DIGEST]
  {
    hide HmacBlock, LengthField, KeyBlock, InnerState, OuterState, LastBlock;
    HmacPrepared(Echo(), KeyBlock(Echo(), []), m);
    LastStarts(LastBlock(m)[..DIGEST]);
  }

  lemma LastStarts(m: Bytes)
    requires |m| < SHORT_BLOCK
    ensures LastBlock(m)[..|m|] == m && LastBlock(m)[|m|] == Byte(0x80)
  {
    hide LengthField;
  }

  lemma EchoTags()
    ensures ValidSha(Echo()) && StorageTag(Echo(), [], KeyTag(Echo(), [], 256)) != StorageTag(Echo(), [], Zeros(32))
  {
    hide LastBlock, Hmac, Echo, KeyBytes;
    EchoHmac(KeyBytes(256));
    var tag := Hmac(Echo(), [], KeyBytes(256));
    LastStarts(KeyBytes(256));
    EchoHmac(tag);
    LastStarts(tag);
    EchoHmac(Zeros(32));
    LastStarts(Zeros(32));
    DifferAt(LastBlock(tag), tag, LastBlock(Zeros(32)), Zeros(32));
  }

  lemma DifferAt(a: Bytes, p: Bytes, b: Bytes, q: Bytes)
    requires |a| >= 32 && |b| >= 32 && |p| == |q| == 32 && a[..32] == p && b[..32] == q && p[2] != q[2]
    ensures a[..DIGEST][..STORAGE_TAG_SIZE] != b[..DIGEST][..STORAGE_TAG_SIZE]
  {
    assert p[..STORAGE_TAG_SIZE][2] == p[2] && q[..STORAGE_TAG_SIZE][2] == q[2];
  }

  /** A protected key is set, set again to five bytes, and the device is restarted and unlocked. */
  function LosingOps(): seq<Op> {
    [Set(256, Zeros(1), Zeros(IV_SIZE)), Set(256, Zeros(5), Zeros(IV_SIZE)), Restart, Unlock(true)]
  }

  lemma Losing(c: Setting)
    requires ValidSetting(c) && c.room == 36
    requires StorageTag(c.h, c.sak, KeyTag(c.h, c.sak, 256)) != StorageTag(c.h, c.sak, Zeros(32))
    ensures Run(c, State(map[], Zeros(32), true, false), LosingOps()).1
         == [Answer(true, []), Answer(false, []), Answer(true, []), Halted]
  {
    hide KeyTag, StorageTag, AuthSum;
    var empty: map<int, Bytes> := map[];
    var tag := KeyTag(c.h, c.sak, 256);
    XorZero(tag);
    hide XorBytes;
    SumOfNothing(c.h, c.sak);
    assert empty - {256} == empty && Shadow(empty) == map[] && ProtectedKeys(empty) == {};
    var s0, s1 := State(empty, Zeros(32), true, false), State(empty[256 := Zeros(1)], tag, true, false);
    var s2, s3 := State(empty, tag, true, false), State(empty, tag, false, false);
    var a, b, r, u := LosingOps()[0], LosingOps()[1], LosingOps()[2], LosingOps()[3];
    assert Step(c, s0, a) == (s1, Answer(true, []));
    assert s1.view - {256} == empty;
    assert Step(c, s1, b) == (s2, Answer(false, []));
    assert Step(c, s2, r) == (s3, Answer(true, []));
    assert Step(c, s3, u).1 == Halted;
    hide Step;
    assert [] + [a] == [a] && [a] + [b] == [a, b] && [a, b] + [r] == [a, b, r] && [a, b, r] + [u] == LosingOps();
    RunPush(c, s0, [], a);
    RunPush(c, s0, [a], b);
    RunPush(c, s0, [a, b], r);
    RunPush(c, s0, [a, b, r], u);
    hide Run;
  }
}
