/**
  * The counters of storage/storage.c: a 32-bit base followed by two tally words of ones, one
  * bit of which is cleared at each increment; a full tally is folded into the base. The words
  * lie in the flash store of norcow.c.
  */
module TallyCounter {
  import opened MachineWords
  import opened HammingWeights
  import opened Options
  import FlashWords
  import NorcowLayout
  import NorcowEdits
  import NorcowStore

  const COUNTER_TAIL_WORDS: nat := 2
  const UINT32: int := 0x1_0000_0000

  function Half(w: Word): Word { Word(w.bits >> 1) }
  function Not(w: Word): Word { Word(!w.bits) }

  /** The tally word after k increments. */
  function Ones(k: nat): Word
    requires k <= 32
  {
    if k == 0 then Word(0xFFFF_FFFF) else Half(Ones(k - 1))
  }

  // ----- Bits of tally words

  lemma HalfAt(r: bv32, k: bv6)
    requires k < 32
    ensures At(r >> 1, k) == if k < 31 then At(r, k + 1) else 0
  {}

  lemma NextIndex(i: nat)
    requires i < 32
    ensures (i as bv6 < 31 <==> i < 31) && (i < 31 ==> (i + 1) as bv6 == i as bv6 + 1)
  {}

  lemma HalfBits(r: bv32, i: nat)
    requires i < 32
    ensures Bit(Word(r >> 1), i) == (i < 31 && Bit(Word(r), i + 1))
  {
    hide Bit, At;
    NextIndex(i);
    BitIsAt(r >> 1, i);
    if i < 31 { BitIsAt(r, i + 1); }
    HalfAt(r, i as bv6);
  }

  lemma Unboxed(x: bv32)
    ensures Half(Word(x)) == Word(x >> 1) && Not(Word(x)) == Word(!x)
  {}

  lemma HalfBit(w: Word, i: nat)
    requires i < 32
    ensures Bit(Half(w), i) == (i < 31 && Bit(w, i + 1))
    ensures Bit(Not(w), i) == !Bit(w, i)
  {
    hide Bit, Half, Not;
    var x := w.bits;
    assert w == Word(x);
    Unboxed(x);
    HalfBits(x, i);
    NotBits(x, i);
  }

  lemma {:induction false} OnesBit(k: nat, i: nat)
    requires k <= 32 && i < 32
    ensures Bit(Ones(k), i) == (i < 32 - k)
  {
    hide Bit, Half;
    if k == 0 {
      BitConstant(i);
    } else {
      HalfBit(Ones(k - 1), i);
      if i < 31 { OnesBit(k - 1, i + 1); }
    }
  }

  lemma OnesZero(k: nat)
    requires k <= 32
    ensures Ones(k) == Word(0) <==> k == 32
  {
    hide Bit, Ones;
    OnesBit(k, 0);
    BitConstant(0);
    if k == 32 {
      forall i: nat | i < 32 ensures !Bit(Ones(32), i) { OnesBit(32, i); }
      ZeroWord(Ones(32));
    }
  }

  predicate Low(w: Word) { w.bits & (w.bits + 1) == 0 }

  lemma HalfLow(w: Word)
    requires Low(w)
    ensures Low(Half(w)) && And(Half(w), w) == Half(w)
  {}

  lemma {:induction false} OnesLow(k: nat)
    requires k <= 32
    ensures Low(Ones(k))
  {
    if k == 0 {
      assert Ones(0) == Word(0xFFFF_FFFF);
    } else {
      OnesLow(k - 1);
      HalfLow(Ones(k - 1));
      hide Low, Half;
    }
  }

  lemma {:induction false} CountCleared(k: nat, n: nat)
    requires k <= 32 && n <= 32
    ensures CountBits(Not(Ones(k)), n) == if n <= 32 - k then 0 else n - (32 - k)
  {
    hide Bit, Not, Ones;
    if n > 0 {
      CountCleared(k, n - 1);
      HalfBit(Ones(k), n - 1);
      OnesBit(k, n - 1);
    }
  }

  /** The weight of the complement is the number of increments. */
  lemma WeightOfTally(k: nat)
    requires k <= 32
    ensures HammingWeight(Not(Ones(k))) == k
  {
    hide HammingWeight, Not, Ones, CountBits;
    CountCleared(k, 32);
    WeightIsCount(Not(Ones(k)));
  }

  lemma HalfOfTally(k: nat)
    requires k < 32
    ensures Half(Ones(k)) == Ones(k + 1) && And(Half(Ones(k)), Ones(k)) == Half(Ones(k))
  {
    hide Low, Half;
    OnesLow(k);
    HalfLow(Ones(k));
  }

  // ----- The counter

  /** The increments that tally word i records, of n in all. */
  function Used(n: nat, i: nat): (k: nat)
    ensures k <= 32
  {
    if n <= 32 * i then 0 else if n >= 32 * i + 32 then 32 else n - 32 * i
  }

  /** The words of an entry with `tail` tally words after `used` increments. */
  function Tally(base: Word, tail: nat, used: nat): (ws: seq<Word>)
    ensures |ws| == 1 + tail && ws[0] == base && forall i :: 0 < i < |ws| ==> ws[i] == Ones(Used(used, i - 1))
  {
    [base] + seq(tail, i requires 0 <= i < tail => Ones(Used(used, i)))
  }

  lemma NextTally(base: Word, tail: nat, used: nat, i: nat)
    requires 0 < i <= tail && 32 * (i - 1) <= used < 32 * i
    ensures Tally(base, tail, used)[i := Half(Tally(base, tail, used)[i])] == Tally(base, tail, used + 1)
    ensures var w := Tally(base, tail, used)[i]; And(Half(w), w) == Half(w) && HammingWeight(Not(w)) == used - 32 * (i - 1)
  {
    hide Ones, Half, And, HammingWeight, Not;
    HalfOfTally(Used(used, i - 1));
    WeightOfTally(Used(used, i - 1));
  }

  /** The first tally word with a bit left, or the end. */
  method FirstLeft(value: seq<Word>, ghost base: Word, ghost tail: nat, ghost used: nat) returns (i: nat)
    requires value == Tally(base, tail, used) && used <= 32 * tail
    ensures 1 <= i <= 1 + tail && 32 * (i - 1) <= used && (i <= tail ==> used < 32 * i)
  {
    hide Ones, Tally;
    i := 1;
    while i < |value| && value[i] == Word(0)
      invariant 1 <= i <= 1 + tail && 32 * (i - 1) <= used
    {
      OnesZero(Used(used, i - 1));
      i := i + 1;
    }
    if i < |value| { OnesZero(Used(used, i - 1)); }
  }

  /** The next count and the tally word that will record it; both additions are checked for overflow. */
  method NextCount(value: seq<Word>, ghost base: Word, ghost tail: nat, ghost used: nat) returns (ok: bool, i: nat, count: nat)
    requires value == Tally(base, tail, used) && used <= 32 * tail && FlashWords.Unsigned(base) + used < UINT32
    requires tail < 0x4000
    ensures 1 <= i <= 1 + tail && 32 * (i - 1) <= used && (i <= tail ==> used < 32 * i)
    ensures ok <==> FlashWords.Unsigned(base) + used + 1 < UINT32
    ensures ok ==> count == FlashWords.Unsigned(base) + used + 1
  {
    hide Ones, Half, Not, HammingWeight, And, FlashWords.Unsigned, Tally;
    i := FirstLeft(value, base, tail, used);
    var first := FlashWords.Unsigned(value[0]);
    count := (first + 1 + 32 * (i - 1)) % UINT32;
    if count < first { return false, i, count; }
    if i < |value| {
      NextTally(base, tail, used, i);
      count := (count + HammingWeight(Not(value[i]))) % UINT32;
      if count < first { return false, i, count; }
    }
    ok := true;
  }

  class Counter {
    const store: NorcowStore.Norcow
    const key: int
    ghost var base: Word
    ghost var tail: nat
    ghost var used: nat

    ghost predicate Present()
      reads store
    {
      key in store.Map()
    }

    /** An entry whose length storage_next_counter refuses. */
    ghost predicate BadLength()
      reads store
    {
      Present() && (|store.Map()[key]| < 4 || |store.Map()[key]| % 4 != 0)
    }

    /** An entry of a base and a tally of `used` increments, whose value fits in 32 bits. */
    ghost predicate Counts()
      reads this, store
    {
      && Present() && store.Map()[key] == FlashWords.Encode(Tally(base, tail, used))
      && used <= 32 * tail && FlashWords.Unsigned(base) + used < UINT32
    }

    /** The public key holds nothing, a counter, or something that is refused. */
    ghost predicate Valid()
      reads this, store
    {
      store.Valid() && 0x8000 <= key < NorcowLayout.KEY_FREE && (Present() ==> BadLength() || Counts())
    }

    /** The last count handed out or set. */
    ghost function Value(): int
      reads this, store
    {
      if Counts() then FlashWords.Unsigned(base) + used else -1
    }

    /** The next increment clears a bit, or a new entry of three words has room. */
    ghost predicate Room()
      reads this, store
    {
      (Counts() && used < 32 * tail) || store.Fits(store.Map(), key, 12)
    }

    constructor (flash: NorcowStore.Norcow, k: int)
      requires flash.Valid() && 0x8000 <= k < NorcowLayout.KEY_FREE && k !in flash.Map()
      ensures Valid() && Value() == -1 && store == flash && key == k
    {
      store, key, base, tail, used := flash, k, Word(0), 0, 0;
    }

    /** storage_set_counter, whatever the key holds. */
    method SetCounter(count: nat) returns (ok: bool)
      requires store.Valid() && 0x8000 <= key < NorcowLayout.KEY_FREE && count < UINT32
      modifies this, store
      ensures Valid() && (ok <==> store.Fits(old(store.Map()), key, 12)) && Value() == if ok then count else -1
      ensures if ok then Counts() && tail == COUNTER_TAIL_WORDS else !Present()
      ensures store.Map() - {key} == old(store.Map()) - {key}
    {
      hide NorcowStore.Norcow.Steady, NorcowStore.Norcow.Map, NorcowStore.Norcow.Fits, FlashWords.Encode, FlashWords.FromUnsigned, FlashWords.Unsigned, Ones;
      var value := [FlashWords.FromUnsigned(count), Word(0xFFFF_FFFF), Word(0xFFFF_FFFF)];
      FreshTally(value[0]);
      FlashWords.UnsignedRoundTrip(count);
      var found;
      ok, found := store.SetEx(key, Some(FlashWords.Encode(value)), 12);
      base, tail, used := value[0], 2, 0;
    }

    /**
      * storage_next_counter: one more than the last count. It fails at 2^32 and on a bad length
      * with nothing changed, and when a new entry has no room, which costs the old one.
      */
    method NextCounter() returns (ok: bool, count: nat)
      requires Valid()
      modifies this, store
      ensures Valid() && store.Map() - {key} == old(store.Map()) - {key}
      ensures ok <==> !old(BadLength()) && old(Value()) + 1 < UINT32 && old(Room())
      ensures ok ==> count == old(Value()) + 1 == Value() && Counts()
      ensures old(BadLength()) || old(Value()) + 1 >= UINT32 ==> store.Map() == old(store.Map()) && Value() == old(Value())
      ensures !ok && !old(BadLength()) && old(Value()) + 1 < UINT32 ==> !Present()
    {
      hide NorcowStore.Norcow.Steady, NorcowStore.Norcow.Map, NorcowStore.Norcow.Fits, FlashWords.Encode, FlashWords.Decode, FlashWords.Unsigned;
      hide Ones, Half, Not, HammingWeight, And, Tally;
      ok, count := false, 0;
      var found, stored := store.Get(key);
      if !found {
        ok := SetCounter(0);
        return;
      }
      if |stored| < 4 || |stored| % 4 != 0 { return; }
      store.EntryInRange(key);
      FlashWords.DecodeEncode(Tally(base, tail, used));
      var value := FlashWords.Decode(stored);
      var i;
      ok, i, count := NextCount(value, base, tail, used);
      if !ok { return; }
      if i < |stored| / 4 {
        NextTally(base, tail, used, i);
        var halted;
        halted, ok := FlashWords.UpdateWord(store, key, i, Half(value[i]), Tally(base, tail, used));
        used := used + 1;
      } else {
        ok := SetCounter(count);
      }
    }

    /** Successive increments are consecutive integers. */
    method Run(n: nat) returns (counts: seq<nat>)
      requires Valid() && !BadLength() && Value() + n < UINT32 && store.Fits(store.Map(), key, 12)
      modifies this, store
      ensures Valid() && |counts| == n && Value() == old(Value()) + n
      ensures forall i :: 0 <= i < n ==> counts[i] == old(Value()) + 1 + i
      ensures store.Map() - {key} == old(store.Map()) - {key}
    {
      hide NorcowStore.Norcow.Steady, NorcowStore.Norcow.Map, Tally, FlashWords.Encode, NorcowEdits.MapSize;
      counts := [];
      for i := 0 to n
        invariant Valid() && !BadLength() && |counts| == i && Value() == old(Value()) + i
        invariant forall j :: 0 <= j < i ==> counts[j] == old(Value()) + 1 + j
        invariant store.Map() - {key} == old(store.Map()) - {key}
      {
        var ok, count := NextCounter();
        counts := counts + [count];
      }
    }

    /** A counter that the program itself wrote always has room. */
    lemma OwnEntryHasRoom()
      requires Valid() && Counts() && tail >= COUNTER_TAIL_WORDS
      ensures store.Fits(store.Map(), key, 12)
    {
      store.RoomToRewrite(key, 12);
    }
  }

  lemma FreshTally(base: Word)
    ensures Tally(base, 2, 0) == [base, Word(0xFFFF_FFFF), Word(0xFFFF_FFFF)]
  {}
}
