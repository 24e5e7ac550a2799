/**
  * The PIN attempt log of storage/storage.c: a guard key, sixteen words of success log and
  * sixteen words of entry log, in an entry of the flash store of norcow.c, where a word update
  * can only clear bits.
  */
module PinLog {
  import opened MachineWords
  import opened HammingWeights
  import opened PinLogWords
  import opened Options
  import FlashWords
  import NorcowStore

  const PIN_LOGS_KEY: int := 1
  const PIN_MAX_TRIES: nat := 10
  const PIN_LOG_WORDS: nat := 16
  const LOG_LENGTH: nat := 33

  /** How many of n cleared bits lie in log word i. */
  function Used(n: nat, i: nat): (k: nat)
    ensures k <= 16
  {
    if n <= 16 * i then 0 else if n >= 16 * i + 16 then 16 else n - 16 * i
  }

  /** The success log records s attempts and the entry log e, both under the guard key in word 0. */
  ghost predicate Records(l: seq<Word>, e: nat, s: nat) {
    && |l| == LOG_LENGTH
    && CheckGuardKey(l[0])
    && (forall i :: 0 <= i < PIN_LOG_WORDS ==> l[1 + i] == LogWord(l[0], Used(s, i)))
    && (forall i :: 0 <= i < PIN_LOG_WORDS ==> l[17 + i] == LogWord(l[0], Used(e, i)))
  }

  /** l' differs from l by cleared bits only. */
  ghost predicate Cleared(l: seq<Word>, l': seq<Word>) {
    |l| == |l'| && forall i :: 0 <= i < |l| ==> And(l'[i], l[i]) == l'[i]
  }

  /** What every run keeps: at most ten attempts since the last success, which came before the last word. */
  ghost predicate InBounds(e: nat, s: nat) {
    s <= e <= s + PIN_MAX_TRIES && s <= 16 * (PIN_LOG_WORDS - 1)
  }

  /** The fails that pin_get_fails can see: those in the current word and the one before. */
  function Seen(e: nat, s: nat): (n: int)
    requires s <= e
  {
    var current := if e < 16 then 0 else e / 16 - 1;
    if s < 16 * current then e - 16 * current else e - s
  }

  class PinLogs {
    const store: NorcowStore.Norcow
    ghost var log: seq<Word>
    ghost var entries: nat
    ghost var successes: nat

    /** The store holds the words of the log. */
    ghost predicate Held()
      reads this, store
    {
      && store.Valid() && |log| == LOG_LENGTH
      && PIN_LOGS_KEY in store.Map() && store.Map()[PIN_LOGS_KEY] == FlashWords.Encode(log)
    }

    ghost predicate Valid()
      reads this, store
    {
      Held() && Records(log, entries, successes) && successes <= entries <= 256
    }

    /** Everything else in the store. */
    ghost function Others(): map<int, FlashWords.Flash>
      reads store
    {
      store.Map() - {PIN_LOGS_KEY}
    }

    /** pin_logs_init as freshly wiped storage calls it; storage.c ensures that the log can be written. */
    constructor (flash: NorcowStore.Norcow, fails: nat, key: Word)
      requires fails < PIN_MAX_TRIES && CheckGuardKey(key)
      requires flash.Valid() && flash.Fits(flash.Map(), PIN_LOGS_KEY, 4 * LOG_LENGTH)
      modifies flash
      ensures Valid() && InBounds(entries, successes) && store == flash
      ensures entries == fails && successes == 0
    {
      store := flash;
      new;
      hide CheckGuardKey, Records;
      var ok := PinLogsInit(fails, key);
    }

    /** The words of the log as the pointer from norcow_get shows them. */
    method ReadLogs() returns (ok: bool, logs: seq<Word>)
      requires Held()
      ensures ok && logs == log
    {
      hide NorcowStore.Norcow.Steady, NorcowStore.Norcow.Map, FlashWords.Encode, FlashWords.Decode;
      var found, value := store.Get(PIN_LOGS_KEY);
      logs := [];
      if !found || |value| != 4 * LOG_LENGTH { assert false; return false, logs; }
      FlashWords.DecodeEncode(log);
      return true, FlashWords.Decode(value);
    }

    /** norcow_update_word; false stands for the halt on a word that does not only clear bits. */
    method UpdateWord(i: nat, value: Word) returns (ok: bool)
      requires Held() && i < LOG_LENGTH
      modifies this`log, store
      ensures Held() && Others() == old(Others())
      ensures ok == (And(value, old(log)[i]) == value)
      ensures log == if ok then old(log)[i := value] else old(log)
    {
      hide NorcowStore.Norcow.Steady, NorcowStore.Norcow.Map, FlashWords.Encode, And;
      var halted;
      halted, ok := FlashWords.UpdateWord(store, PIN_LOGS_KEY, i, value, log);
      log := if ok then log[i := value] else log;
    }

    /** pin_logs_init. */
    method PinLogsInit(fails: nat, key: Word) returns (ok: bool)
      requires store.Valid() && CheckGuardKey(key)
      modifies this, store
      ensures store.Valid() && Others() == old(Others())
      ensures ok <==> fails < PIN_MAX_TRIES && store.Fits(old(store.Map()), PIN_LOGS_KEY, 4 * LOG_LENGTH)
      ensures ok ==> Valid() && entries == fails && successes == 0
      ensures fails >= PIN_MAX_TRIES ==> store.Map() == old(store.Map()) && log == old(log) && entries == old(entries) && successes == old(successes)
    {
      hide NorcowStore.Norcow.Steady, NorcowStore.Norcow.Map, NorcowStore.Norcow.Fits, FlashWords.Encode, Records, CheckGuardKey;
      if fails >= PIN_MAX_TRIES { return false; }
      var logs := FreshLog(fails, key);
      var found;
      ok, found := store.SetEx(PIN_LOGS_KEY, Some(FlashWords.Encode(logs)), 4 * LOG_LENGTH);
      log, entries, successes := logs, fails, 0;
    }

    /** storage_pin_fails_increase. */
    method Increase() returns (ok: bool)
      requires Valid()
      modifies this`entries, this`log, store
      ensures Valid() && Cleared(old(log), log) && Others() == old(Others())
      ensures ok == (old(entries) < 256)
      ensures entries == if ok then old(entries) + 1 else old(entries)
    {
      hide CheckGuardKey, GuardMask, Guard, And, LogWord, Advance, Records, Cleared;
      hide NorcowStore.Norcow.Steady, NorcowStore.Norcow.Map, FlashWords.Encode;
      var logs;
      ok, logs := ReadLogs();
      if !ok { assert false; return false; }
      ghost var l := log;
      GuardPasses(l, entries, successes);
      if !CheckGuardKey(logs[0]) { assert false; return false; }
      var mask, guard := GuardMask(logs[0]), Guard(logs[0]);
      for i := 0 to PIN_LOG_WORDS
        invariant Valid() && log == l && entries == old(entries) && Others() == old(Others())
        invariant 16 * i <= entries
      {
        EntryWord(l, entries, successes, i);
        LogWordGuard(l[0], Used(entries, i));
        if And(logs[17 + i], mask) != guard { assert false; return false; }
        if logs[17 + i] != guard {
          LogWordAdvance(l[0], Used(entries, i));
          LogWordClears(l[0], Used(entries, i), Used(entries, i) + 1);
          ok := UpdateWord(17 + i, Advance(logs[17 + i], mask, guard));
          if !ok { assert false; return false; }
          EntryAdded(l, entries, successes, i, log);
          ClearedAt(l, 17 + i, log[17 + i]);
          entries := entries + 1;
          return true;
        }
      }
      ClearedSelf(l);
      return false;
    }

    /** pin_get_fails; false stands for its faults. */
    method GetFails() returns (ok: bool, ctr: nat)
      requires Valid()
      ensures ok == (entries < 256)
      ensures ctr == if ok then Seen(entries, successes) else PIN_MAX_TRIES
    {
      hide CheckGuardKey, GuardMask, Guard, And, Xor, Unused, LogWord, Spread, OnesBelow, Records, HammingWeight;
      hide NorcowStore.Norcow.Steady, NorcowStore.Norcow.Map, FlashWords.Encode;
      ghost var l, e, s := log, entries, successes;
      ctr := PIN_MAX_TRIES;
      var logs;
      ok, logs := ReadLogs();
      if !ok { assert false; return; }
      GuardPasses(l, e, s);
      if !CheckGuardKey(logs[0]) { assert false; return false, ctr; }
      var mask, guard := GuardMask(logs[0]), Guard(logs[0]);
      var unused := Unused(mask, guard);
      var current := -1;
      for i := 0 to PIN_LOG_WORDS
        invariant if current == -1 then 16 * i <= e else 0 <= current < i && current == e / 16
      {
        FormatChecks(l, e, s, i);
        if And(logs[17 + i], mask) != guard || And(logs[1 + i], mask) != guard || And(logs[17 + i], logs[1 + i]) != logs[17 + i] {
          assert false; return false, ctr;
        }
        if current == -1 {
          if logs[17 + i] != guard { current := i; }
        } else {
          if logs[17 + i] != unused { assert false; return false, ctr; }
        }
      }
      if current < 0 { return false, ctr; }
      EntryWord(l, e, s, current);
      LogWordAdvance(l[0], Used(e, current));
      if !OnesBelow(Spread(logs[17 + current], mask)) { assert false; return false, ctr; }
      if current == 0 { current := 1; }
      WordDistance(l, e, s, current - 1);
      WordDistance(l, e, s, current);
      ctr := HammingWeight(Xor(logs[1 + current - 1], logs[17 + current - 1])) + HammingWeight(Xor(logs[1 + current], logs[17 + current]));
      ok := true;
    }

    /** One pass of the loop of pin_fails_reset: entry word i copied to the success log, unless that is full. */
    method CopyWord(i: nat, guard: Word, logs: seq<Word>) returns (ok: bool)
      requires Held() && Records(logs, entries, successes) && successes <= entries && i < PIN_LOG_WORDS && |logs| == LOG_LENGTH
      requires log == Copied(logs, i) && Cleared(logs, log) && guard == Guard(logs[0])
      modifies this`log, store
      ensures Held() && ok && log == Copied(logs, i + 1) && Cleared(logs, log) && Others() == old(Others())
    {
      hide CheckGuardKey, GuardMask, Guard, And, Unused, LogWord, Records, Cleared;
      hide NorcowStore.Norcow.Steady, NorcowStore.Norcow.Map, FlashWords.Encode;
      ghost var m := log;
      EntryWord(logs, entries, successes, i);
      SuccessWord(logs, entries, successes, i);
      LogWordGuard(logs[0], Used(entries, i));
      LogWordGuard(logs[0], Used(successes, i));
      CopiedStep(logs, i);
      if logs[1 + i] != guard {
        LogWordClears(logs[0], Used(successes, i), Used(entries, i));
        ok := UpdateWord(1 + i, logs[17 + i]);
        if !ok { assert false; return false; }
        ClearedAt(m, 1 + i, logs[17 + i]);
        ClearedTransitive(logs, m, log);
      }
      ok := true;
    }

    /** pin_fails_reset: copies the entry log to the success log, or starts afresh once the last word is touched. */
    method Reset(key: Word) returns (ok: bool)
      requires Valid() && CheckGuardKey(key)
      modifies this, store
      ensures ok && Valid() && entries == successes && Others() == old(Others())
      ensures if old(entries) <= 240
              then entries == old(entries) && Cleared(old(log), log)
              else entries == 0
    {
      hide CheckGuardKey, GuardMask, Guard, And, Unused, LogWord, Records, Cleared;
      hide NorcowStore.Norcow.Steady, NorcowStore.Norcow.Map, NorcowStore.Norcow.Fits, FlashWords.Encode;
      var logs;
      ok, logs := ReadLogs();
      if !ok { assert false; return; }
      GuardPasses(logs, entries, successes);
      if !CheckGuardKey(logs[0]) { assert false; return false; }
      var mask, guard := GuardMask(logs[0]), Guard(logs[0]);
      var unused := Unused(mask, guard);
      ClearedSelf(logs);
      CopiedStart(logs);
      for i := 0 to PIN_LOG_WORDS
        invariant Held() && entries == old(entries) && successes == old(successes) && Others() == old(Others())
        invariant log == Copied(logs, i) && Cleared(logs, log)
        invariant i > 0 ==> 16 * (i - 1) < entries
      {
        FormatChecks(logs, entries, successes, i);
        if logs[17 + i] == unused {
          SuccessCopied(logs, entries, successes, i, log);
          successes := entries;
          return true;
        }
        ok := CopyWord(i, guard, logs);
      }
      store.RoomToRewrite(PIN_LOGS_KEY, 4 * LOG_LENGTH);
      ok := PinLogsInit(0, key);
    }

    /** storage_get_pin_rem. */
    method GetPinRem() returns (rem: int)
      requires Valid()
      ensures rem == if entries < 256 then PIN_MAX_TRIES - Seen(entries, successes) else 0
      ensures InBounds(entries, successes) ==> rem == PIN_MAX_TRIES - (entries - successes)
    {
      SeenExact(entries, successes);
      var ok, ctr := GetFails();
      if !ok { return 0; }
      return PIN_MAX_TRIES - ctr;
    }

    /**
      * unlock, from the counter check on: the entry log grows before the PIN is compared, and
      * the counter is read back. The attempt says what decrypt_dek and the version check answer
      * and which guard key the generator yields if the log must start afresh.
      */
    method Unlock(a: Attempt) returns (outcome: Outcome, compared: bool)
      requires Valid() && InBounds(entries, successes) && CheckGuardKey(a.key)
      modifies this, store
      ensures Valid() && InBounds(entries, successes) && Others() == old(Others())
      ensures Step(entries - successes, outcome, compared) == CounterStep(old(entries - successes), a)
      ensures compared <==> old(entries - successes) < 10
      ensures outcome == Unlocked <==> compared && a.correct && a.upgraded
      ensures outcome == Wiped <==> !compared || (!a.correct && old(entries - successes) + 1 == 10)
      ensures entries - successes == if outcome == Unlocked then 0 else old(entries - successes) + if compared then 1 else 0
      ensures outcome != Unlocked ==> Cleared(old(log), log)
    {
      hide CheckGuardKey, Records, Cleared, NorcowStore.Norcow.Steady, NorcowStore.Norcow.Map, FlashWords.Encode;
      compared := false;
      ClearedSelf(log);
      SeenExact(entries, successes);
      var ok, ctr := GetFails();
      if !ok { assert false; return Fault, false; }
      if ctr >= PIN_MAX_TRIES { return Wiped, false; }
      ok := Increase();
      if !ok { assert false; return Fault, false; }
      SeenExact(entries, successes);
      var ctrCheck: nat;
      ok, ctrCheck := GetFails();
      if !ok || ctr + 1 != ctrCheck { assert false; return Fault, false; }
      compared := true;
      if !a.correct {
        if ctr + 1 >= PIN_MAX_TRIES { return Wiped, true; }
        return Refused, true;
      }
      if !a.upgraded { return Refused, true; }
      ok := Reset(a.key);
      return if ok then Unlocked else Fault, true;
    }

    /** Any sequence of unlock attempts behaves as a plain counter of fails. */
    method Run(attempts: seq<Attempt>) returns (outcomes: seq<Outcome>, compared: seq<bool>)
      requires Valid() && InBounds(entries, successes)
      requires forall i :: 0 <= i < |attempts| ==> CheckGuardKey(attempts[i].key)
      modifies this, store
      ensures Valid() && InBounds(entries, successes) && Others() == old(Others())
      ensures Trace(entries - successes, outcomes, compared) == CounterRun(old(entries - successes), attempts)
      ensures Answers(old(entries - successes), attempts, outcomes, compared)
      ensures entries - successes == FailsAfter(old(entries - successes), outcomes, compared)
    {
      hide CheckGuardKey, Records, Answers, FailsAfter, CounterStep, NorcowStore.Norcow.Steady, NorcowStore.Norcow.Map, FlashWords.Encode;
      outcomes, compared := [], [];
      for i := 0 to |attempts|
        invariant Valid() && InBounds(entries, successes) && Others() == old(Others())
        invariant Trace(entries - successes, outcomes, compared) == CounterRun(old(entries - successes), attempts[..i])
      {
        var o, c := Unlock(attempts[i]);
        outcomes, compared := outcomes + [o], compared + [c];
        assert attempts[..i + 1][..i] == attempts[..i];
      }
      assert attempts[..|attempts|] == attempts;
      RunAnswers(old(entries - successes), attempts);
    }
  }

  /** The words that pin_logs_init writes: a log with the requested number of fails. */
  method FreshLog(fails: nat, key: Word) returns (words: seq<Word>)
    requires fails < PIN_MAX_TRIES && CheckGuardKey(key)
    ensures |words| == LOG_LENGTH && Records(words, fails, 0)
  {
    hide CheckGuardKey, GuardMask, Guard, Unused, Guarded, ShiftedOnes, Rest;
    var logs := new Word[LOG_LENGTH](_ => Word(0));
    var mask, guard := GuardMask(key), Guard(key);
    var unused := Unused(mask, guard);
    logs[0] := key;
    for i := 0 to 2 * PIN_LOG_WORDS
      invariant logs[0] == key
      invariant forall k :: 1 <= k < 1 + i ==> logs[k] == unused
    {
      logs[1 + i] := unused;
    }
    logs[17] := Guarded(ShiftedOnes(fails), mask, guard);
    LogWordGuard(key, 0);
    ShiftedOnesIsRest(fails);
    words := logs[..];
  }

  // ----- The counter that the log stands for

  datatype Attempt = Attempt(correct: bool, upgraded: bool, key: Word)
  datatype Outcome = Unlocked | Refused | Wiped | Fault

  /** The fails after an attempt, its outcome, and whether the PIN was compared. */
  datatype Step = Step(fails: int, outcome: Outcome, compared: bool)
  datatype Trace = Trace(fails: int, outcomes: seq<Outcome>, compared: seq<bool>)

  function CounterStep(fails: int, a: Attempt): Step {
    if fails >= PIN_MAX_TRIES then Step(fails, Wiped, false)
    else if a.correct && a.upgraded then Step(0, Unlocked, true)
    else Step(fails + 1, if !a.correct && fails + 1 >= PIN_MAX_TRIES then Wiped else Refused, true)
  }

  function CounterRun(fails: int, attempts: seq<Attempt>): (t: Trace)
    ensures |t.outcomes| == |t.compared| == |attempts|
  {
    if attempts == [] then Trace(fails, [], [])
    else
      var t := CounterRun(fails, attempts[..|attempts| - 1]);
      var s := CounterStep(t.fails, attempts[|attempts| - 1]);
      Trace(s.fails, t.outcomes + [s.outcome], t.compared + [s.compared])
  }

  function Comparisons(compared: seq<bool>): (n: nat)
    ensures n <= |compared|
  {
    if compared == [] then 0
    else Comparisons(compared[..|compared| - 1]) + if compared[|compared| - 1] then 1 else 0
  }

  /** Behind the last success; 0 if there is none. */
  function AfterLastSuccess(outcomes: seq<Outcome>): (j: nat)
    ensures j <= |outcomes| && (j > 0 ==> outcomes[j - 1] == Unlocked)
    ensures forall i :: j <= i < |outcomes| ==> outcomes[i] != Unlocked
  {
    if outcomes == [] then 0
    else if outcomes[|outcomes| - 1] == Unlocked then |outcomes|
    else AfterLastSuccess(outcomes[..|outcomes| - 1])
  }

  /** The fails at the start, or 0 after the last success, and the comparisons since. */
  function FailsAfter(start: int, outcomes: seq<Outcome>, compared: seq<bool>): int
    requires |outcomes| == |compared|
  {
    var j := AfterLastSuccess(outcomes);
    (if j == 0 then start else 0) + Comparisons(compared[j..])
  }

  /**
    * What an attempt after so many fails is answered: the PIN is compared while there are fewer
    * than ten, the right one with the right version unlocks, a wrong one on the tenth fail wipes,
    * and so does every attempt after it.
    */
  predicate AnswerTo(fails: int, a: Attempt, o: Outcome, compared: bool) {
    && (compared <==> fails < 10)
    && (o == Unlocked <==> compared && a.correct && a.upgraded)
    && (o == Wiped <==> !compared || (!a.correct && fails == 9))
    && o != Fault
  }

  ghost predicate Answers(start: int, attempts: seq<Attempt>, outcomes: seq<Outcome>, compared: seq<bool>) {
    && |outcomes| == |compared| == |attempts|
    && forall i :: 0 <= i < |attempts| ==>
         AnswerTo(FailsAfter(start, outcomes[..i], compared[..i]), attempts[i], outcomes[i], compared[i])
  }

  lemma AnswersPush(start: int, attempts: seq<Attempt>, outcomes: seq<Outcome>, compared: seq<bool>, a: Attempt, o: Outcome, c: bool)
    requires Answers(start, attempts, outcomes, compared) && AnswerTo(FailsAfter(start, outcomes, compared), a, o, c)
    ensures Answers(start, attempts + [a], outcomes + [o], compared + [c])
  {
    hide FailsAfter, AnswerTo;
    var n := |attempts|;
    var os, cs := outcomes + [o], compared + [c];
    forall i | 0 <= i <= n ensures AnswerTo(FailsAfter(start, os[..i], cs[..i]), (attempts + [a])[i], os[i], cs[i]) {
      assert os[..i] == outcomes[..i] && cs[..i] == compared[..i];
      assert i == n ==> outcomes[..i] == outcomes && compared[..i] == compared;
    }
  }

  lemma FailsPush(start: int, outcomes: seq<Outcome>, compared: seq<bool>, o: Outcome, c: bool)
    requires |outcomes| == |compared|
    ensures FailsAfter(start, outcomes + [o], compared + [c]) ==
            if o == Unlocked then 0 else FailsAfter(start, outcomes, compared) + if c then 1 else 0
  {
    var os, cs := outcomes + [o], compared + [c];
    assert os[..|outcomes|] == outcomes;
    if o == Unlocked {
      assert cs[|os|..] == [];
    } else {
      var j := AfterLastSuccess(outcomes);
      assert cs[j..] == compared[j..] + [c];
      assert (compared[j..] + [c])[..|compared| - j] == compared[j..];
    }
  }

  lemma {:induction false} RunAnswers(start: nat, attempts: seq<Attempt>)
    requires start <= PIN_MAX_TRIES
    ensures var t := CounterRun(start, attempts);
            Answers(start, attempts, t.outcomes, t.compared) && t.fails == FailsAfter(start, t.outcomes, t.compared)
  {
    hide FailsAfter, CounterRun, CounterStep, Answers, AnswerTo;
    if attempts == [] {
      NoAttempts(start);
    } else {
      var n := |attempts| - 1;
      var before, a := attempts[..n], attempts[n];
      assert attempts == before + [a];
      RunAnswers(start, before);
      FailsBounded(start, before);
      RunPush(start, before, a);
      var u := CounterRun(start, before);
      var s := CounterStep(u.fails, a);
      StepAnswers(u.fails, a);
      FailsPush(start, u.outcomes, u.compared, s.outcome, s.compared);
      AnswersPush(start, before, u.outcomes, u.compared, a, s.outcome, s.compared);
    }
  }

  lemma NoAttempts(start: int)
    ensures CounterRun(start, []) == Trace(start, [], []) && Answers(start, [], [], []) && FailsAfter(start, [], []) == start
  {}

  lemma RunPush(start: int, before: seq<Attempt>, a: Attempt)
    ensures var u := CounterRun(start, before);
            var s := CounterStep(u.fails, a);
            CounterRun(start, before + [a]) == Trace(s.fails, u.outcomes + [s.outcome], u.compared + [s.compared])
  {
    hide CounterStep;
    assert (before + [a])[..|before|] == before;
  }

  lemma StepAnswers(fails: int, a: Attempt)
    requires 0 <= fails <= PIN_MAX_TRIES
    ensures var s := CounterStep(fails, a);
            && AnswerTo(fails, a, s.outcome, s.compared)
            && s.fails == if s.outcome == Unlocked then 0 else fails + if s.compared then 1 else 0
  {}

  /**
    * Without a success, exactly the attempts that the limit leaves are compared, and the
    * counter grows by one for each; no outcome is a fault.
    */
  lemma {:induction false} ComparisonsAreLimited(fails: nat, attempts: seq<Attempt>)
    requires fails <= PIN_MAX_TRIES
    requires forall i :: 0 <= i < |attempts| ==> CounterRun(fails, attempts).outcomes[i] != Unlocked
    ensures var t := CounterRun(fails, attempts);
            && Comparisons(t.compared) == (if |attempts| <= PIN_MAX_TRIES - fails then |attempts| else PIN_MAX_TRIES - fails)
            && t.fails == fails + Comparisons(t.compared)
            && forall i :: 0 <= i < |attempts| ==> t.outcomes[i] != Fault
  {
    if attempts != [] {
      var n := |attempts| - 1;
      var t, u := CounterRun(fails, attempts), CounterRun(fails, attempts[..n]);
      forall i | 0 <= i < n ensures u.outcomes[i] != Unlocked { assert t.outcomes[i] == u.outcomes[i]; }
      ComparisonsAreLimited(fails, attempts[..n]);
      assert t.outcomes[n] != Unlocked;
      assert t.compared[..n] == u.compared;
      forall i | 0 <= i < |attempts| ensures t.outcomes[i] != Fault {
        if i < n { assert t.outcomes[i] == u.outcomes[i]; }
      }
    }
  }

  /** A run goes on from where its first part left the counter. */
  lemma {:induction false} RunSplit(fails: int, a: seq<Attempt>, b: seq<Attempt>)
    ensures var t := CounterRun(fails, a);
            var u := CounterRun(t.fails, b);
            CounterRun(fails, a + b) == Trace(u.fails, t.outcomes + u.outcomes, t.compared + u.compared)
    decreases |b|
  {
    if b == [] {
      assert a + b == a;
    } else {
      var n := |b| - 1;
      RunSplit(fails, a, b[..n]);
      assert (a + b)[..|a| + n] == a + b[..n];
    }
  }

  lemma {:induction false} FailsBounded(fails: nat, attempts: seq<Attempt>)
    requires fails <= PIN_MAX_TRIES
    ensures 0 <= CounterRun(fails, attempts).fails <= PIN_MAX_TRIES
  {
    if attempts != [] { FailsBounded(fails, attempts[..|attempts| - 1]); }
  }

  /**
    * In every run, between any two moments with no success in between, exactly the attempts that
    * the limit leaves are compared: never more than ten.
    */
  lemma WindowIsLimited(fails: nat, attempts: seq<Attempt>, i: nat, j: nat)
    requires fails <= PIN_MAX_TRIES && i <= j <= |attempts|
    requires forall k :: i <= k < j ==> CounterRun(fails, attempts).outcomes[k] != Unlocked
    ensures var t := CounterRun(fails, attempts);
            var left := PIN_MAX_TRIES - CounterRun(fails, attempts[..i]).fails;
            Comparisons(t.compared[i..j]) == (if j - i <= left then j - i else left) <= PIN_MAX_TRIES
  {
    hide CounterRun, Comparisons;
    var a, b, c := attempts[..i], attempts[i..j], attempts[j..];
    assert attempts == (a + b) + c;
    RunSplit(fails, a + b, c);
    RunSplit(fails, a, b);
    FailsBounded(fails, a);
    var t, u := CounterRun(fails, attempts), CounterRun(CounterRun(fails, a).fails, b);
    assert t.compared[i..j] == u.compared;
    forall k | 0 <= k < |b| ensures u.outcomes[k] != Unlocked { assert t.outcomes[i + k] == u.outcomes[k]; }
    ComparisonsAreLimited(CounterRun(fails, a).fails, b);
  }

  /** Once ten attempts have failed, no later attempt is ever compared. */
  lemma {:induction false} ExhaustedStaysExhausted(attempts: seq<Attempt>)
    ensures CounterRun(PIN_MAX_TRIES, attempts).fails == PIN_MAX_TRIES
    ensures forall i :: 0 <= i < |attempts| ==>
              !CounterRun(PIN_MAX_TRIES, attempts).compared[i] && CounterRun(PIN_MAX_TRIES, attempts).outcomes[i] == Wiped
  {
    if attempts != [] {
      ExhaustedStaysExhausted(attempts[..|attempts| - 1]);
    }
  }

  /** The two words that pin_get_fails reads hold all the fails exactly when the last success is that recent. */
  lemma SeenExact(e: nat, s: nat)
    requires s <= e
    ensures Seen(e, s) == e - s <==> e < 32 || 16 * (e / 16 - 1) <= s
    ensures InBounds(e, s) ==> Seen(e, s) == e - s && e <= 250
  {}

  lemma FormatChecks(l: seq<Word>, e: nat, s: nat, i: nat)
    requires Records(l, e, s) && i < PIN_LOG_WORDS && s <= e
    ensures |l| == LOG_LENGTH
    ensures And(l[17 + i], GuardMask(l[0])) == Guard(l[0])
    ensures And(l[1 + i], GuardMask(l[0])) == Guard(l[0])
    ensures And(l[17 + i], l[1 + i]) == l[17 + i]
    ensures l[17 + i] == Guard(l[0]) <==> 16 * i + 16 <= e
    ensures l[17 + i] == Unused(GuardMask(l[0]), Guard(l[0])) <==> e <= 16 * i
  {
    hide And, GuardMask, Guard, Unused, LogWord, CheckGuardKey;
    LogWordGuard(l[0], Used(e, i));
    LogWordGuard(l[0], Used(s, i));
    LogWordClears(l[0], Used(s, i), Used(e, i));
  }

  lemma WordDistance(l: seq<Word>, e: nat, s: nat, i: nat)
    requires Records(l, e, s) && i < PIN_LOG_WORDS && s <= e
    ensures |l| == LOG_LENGTH && HammingWeight(Xor(l[1 + i], l[17 + i])) == Used(e, i) - Used(s, i)
  {
    hide Xor, HammingWeight, LogWord, CheckGuardKey;
    LogWordDistance(l[0], Used(s, i), Used(e, i));
  }

  /** The log with the first i success words replaced by the entry words. */
  function Copied(l: seq<Word>, i: nat): (r: seq<Word>)
    requires |l| == LOG_LENGTH && i <= PIN_LOG_WORDS
    ensures |r| == LOG_LENGTH
    ensures forall k :: 0 <= k < LOG_LENGTH ==> r[k] == if 1 <= k < 1 + i then l[16 + k] else l[k]
  {
    l[..1] + l[17..17 + i] + l[1 + i..]
  }

  lemma CopiedStart(l: seq<Word>)
    requires |l| == LOG_LENGTH
    ensures Copied(l, 0) == l
  {}

  lemma CopiedStep(l: seq<Word>, i: nat)
    requires |l| == LOG_LENGTH && i < PIN_LOG_WORDS
    ensures Copied(l, i)[1 + i := l[17 + i]] == Copied(l, i + 1)
    ensures l[1 + i] == l[17 + i] ==> Copied(l, i) == Copied(l, i + 1)
  {}

  /** Copying the entry words below the first unused one records every entry as a success. */
  lemma SuccessCopied(l: seq<Word>, e: nat, s: nat, i: nat, l': seq<Word>)
    requires Records(l, e, s) && i < PIN_LOG_WORDS && s <= e <= 16 * i && |l| == LOG_LENGTH
    requires l' == Copied(l, i)
    ensures Records(l', e, e)
  {
    hide LogWord, CheckGuardKey;
    forall k | 0 <= k < PIN_LOG_WORDS ensures l'[1 + k] == LogWord(l'[0], Used(e, k)) {
      assert l[17 + k] == LogWord(l[0], Used(e, k)) && l[1 + k] == LogWord(l[0], Used(s, k));
    }
    forall k | 0 <= k < PIN_LOG_WORDS ensures l'[17 + k] == LogWord(l'[0], Used(e, k)) {
      assert l[17 + k] == LogWord(l[0], Used(e, k));
    }
  }

  lemma GuardPasses(l: seq<Word>, e: nat, s: nat)
    requires Records(l, e, s)
    ensures |l| == LOG_LENGTH && CheckGuardKey(l[0])
  {}

  lemma EntryWord(l: seq<Word>, e: nat, s: nat, i: nat)
    requires Records(l, e, s) && i < PIN_LOG_WORDS
    ensures |l| == LOG_LENGTH && l[17 + i] == LogWord(l[0], Used(e, i))
  {}

  lemma SuccessWord(l: seq<Word>, e: nat, s: nat, i: nat)
    requires Records(l, e, s) && i < PIN_LOG_WORDS
    ensures |l| == LOG_LENGTH && l[1 + i] == LogWord(l[0], Used(s, i))
  {}

  lemma EntryAdded(l: seq<Word>, e: nat, s: nat, i: nat, l': seq<Word>)
    requires Records(l, e, s) && i < PIN_LOG_WORDS && 16 * i <= e < 16 * i + 16
    requires l' == l[17 + i := LogWord(l[0], Used(e, i) + 1)]
    ensures Records(l', e + 1, s)
  {
    hide CheckGuardKey, LogWord;
    var n := e + 1;
    forall k | 0 <= k < PIN_LOG_WORDS ensures l'[17 + k] == LogWord(l'[0], Used(n, k)) {
      assert l[17 + k] == LogWord(l[0], Used(e, k));
    }
    forall k | 0 <= k < PIN_LOG_WORDS ensures l'[1 + k] == LogWord(l'[0], Used(s, k)) {
      assert l[1 + k] == LogWord(l[0], Used(s, k));
    }
  }

  lemma ClearedSelf(l: seq<Word>)
    ensures Cleared(l, l)
  {
    forall k | 0 <= k < |l| ensures And(l[k], l[k]) == l[k] { AndSelf(l[k]); }
  }

  lemma ClearedAt(l: seq<Word>, i: nat, w: Word)
    requires i < |l| && And(w, l[i]) == w
    ensures Cleared(l, l[i := w])
  {
    hide And;
    forall k | 0 <= k < |l| ensures And(l[i := w][k], l[k]) == l[i := w][k] { AndSelf(l[k]); }
  }

  lemma ClearedTransitive(a: seq<Word>, b: seq<Word>, c: seq<Word>)
    requires Cleared(a, b) && Cleared(b, c)
    ensures Cleared(a, c)
  {
    hide And;
    forall k | 0 <= k < |a| ensures And(c[k], a[k]) == c[k] { AndTransitive(c[k], b[k], a[k]); }
  }
}
