/** The flash key-value store of storage/norcow.c, with its flash device.

    The object is a sequence of sectors of NOR flash and the static variables of
    norcow.c.  `Valid` is the steady state: the sector being read is the one being
    written, at the current version, and every other sector is erased.  `Map` is
    the plain map the store stands for. */
module NorcowStore {
  import opened Options
  import opened NorcowLayout
  import opened NorcowEdits

  // NRC2 and NRCW, little endian
  const MAGIC: seq<byte> := [0x4e, 0x52, 0x43, 0x32]
  const MAGIC_V0: seq<byte> := [0x4e, 0x52, 0x43, 0x57]

  function Le32(x: int): (s: seq<byte>)
    requires 0 <= x < 0x1_0000_0000
    ensures |s| == 4
  {
    [x % 256, x / 256 % 256, x / 0x1_0000 % 256, x / 0x100_0000]
  }

  function FromLe32(s: seq<byte>): (x: int)
    requires |s| == 4
    ensures 0 <= x < 0x1_0000_0000
  {
    (s[0] as int) + 0x100 * (s[1] as int) + 0x1_0000 * (s[2] as int) + 0x100_0000 * (s[3] as int)
  }

  /** The least significant byte comes first. */
  lemma Le32ByExample()
    ensures Le32(0x0403_0201) == [0x01, 0x02, 0x03, 0x04] && FromLe32([0x01, 0x02, 0x03, 0x04]) == 0x0403_0201
  {
  }

  lemma Le32RoundTrip(x: int)
    requires 0 <= x < 0x1_0000_0000
    ensures FromLe32(Le32(x)) == x
  {
    var a := x / 256;
    var b := a / 256;
    assert x / 0x1_0000 == b && x / 0x100_0000 == b / 256;
  }

  /** find_start_offset: where the items start and the sector's version. */
  function StartOf(s: seq<byte>, header: nat): Option<(nat, int)>
    requires header + 8 <= |s|
  {
    if s[header..header + 4] == MAGIC then
      Some((header + 8, 0xFFFF_FFFF - FromLe32(s[header + 4..header + 8])))
    else if s[header..header + 4] == MAGIC_V0 then Some((header + 4, 0))
    else None
  }

  class Norcow {
    const sectorCount: nat
    const sectorSize: nat
    const headerLen: nat
    const version: int

    var flash: seq<seq<byte>>
    var activeSector: nat
    var writeSector: nat
    var activeVersion: int
    var freeOffset: nat
    ghost var items: seq<Item>

    ghost predicate Geometry()
    {
      && 2 <= sectorCount
      && sectorSize % 4 == 0 && headerLen % 4 == 0 && headerLen + 8 <= sectorSize < 0x8000_0000
      && 0 <= version < 0x1_0000_0000
    }

    ghost function Start(): nat { headerLen + 8 }

    /** The flash has its fixed size. */
    ghost predicate Shape()
      reads this
    {
      Geometry() && |flash| == sectorCount && forall i :: 0 <= i < |flash| ==> |flash[i]| == sectorSize
    }

    ghost predicate Marked(s: seq<byte>)
      requires Geometry() && |s| == sectorSize
    {
      s[headerLen..headerLen + 4] == MAGIC && s[headerLen + 4..headerLen + 8] == Le32(0xFFFF_FFFF - version)
    }

    ghost predicate Blank(s: seq<byte>)
    {
      forall j :: headerLen <= j < |s| ==> s[j] == 255
    }

    /** The steady state on values: sector `act` holds the items, the others are erased. */
    ghost predicate Steady(fl: seq<seq<byte>>, act: nat, free: nat, its: seq<Item>)
    {
      && Geometry() && |fl| == sectorCount && (forall i :: 0 <= i < |fl| ==> |fl[i]| == sectorSize)
      && act < sectorCount
      && Marked(fl[act])
      && Holds(fl[act], Start(), its) && Distinct(its)
      && free == Off(Start(), its, |its|)
      && forall i :: 0 <= i < sectorCount && i != act ==> Blank(fl[i])
    }

    ghost predicate Valid()
      reads this
    {
      Steady(flash, activeSector, freeOffset, items) && writeSector == activeSector && activeVersion == version
    }

    ghost function Map(): map<int, seq<byte>>
      reads this
    {
      MapOf(items)
    }

    // ------------------------------------------------------------ the device

    /** flash_write_byte: refuses to turn a zero bit into a one. */
    method WriteByte(sector: nat, offset: nat, v: byte) returns (ok: bool)
      requires Shape() && sector < sectorCount
      modifies `flash
      ensures Shape()
      ensures ok <==> offset < sectorSize && Clears(old(flash)[sector][offset], v)
      ensures ok ==> flash == old(flash)[sector := Splice(old(flash)[sector], offset, [v])]
      ensures !ok ==> flash == old(flash)
    {
      if offset + 1 > sectorSize || !Clears(flash[sector][offset], v) {
        return false;
      }
      flash := flash[sector := Splice(flash[sector], offset, [v])];
      ok := true;
    }

    /** flash_write_word, at word boundaries only. */
    method WriteWord(sector: nat, offset: nat, w: seq<byte>) returns (ok: bool)
      requires Shape() && sector < sectorCount && |w| == 4
      modifies `flash
      ensures Shape()
      ensures ok <==> offset % 4 == 0 && offset + 4 <= sectorSize && CanProgram(old(flash)[sector], offset, w)
      ensures ok ==> flash == old(flash)[sector := Splice(old(flash)[sector], offset, w)]
      ensures !ok ==> flash == old(flash)
    {
      if offset % 4 != 0 || offset + 4 > sectorSize || !CanProgram(flash[sector], offset, w) {
        return false;
      }
      flash := flash[sector := Splice(flash[sector], offset, w)];
      ok := true;
    }

    /** A run of ensured byte writes. */
    method Program(sector: nat, offset: nat, data: seq<byte>)
      requires Shape() && sector < sectorCount && offset + |data| <= sectorSize
      requires CanProgram(flash[sector], offset, data)
      modifies `flash
      ensures Shape()
      ensures flash == old(flash)[sector := Splice(old(flash)[sector], offset, data)]
    {
      hide Splice, CanProgram, Clears;
      ghost var s, cur := flash[sector], flash[sector];
      SpliceNothing(s, offset);
      var i := 0;
      while i < |data|
        invariant 0 <= i <= |data| && Shape()
        invariant cur == Splice(s, offset, data[..i]) && flash == old(flash)[sector := cur]
      {
        NextByteFits(s, offset, data, i);
        var ok := WriteByte(sector, offset + i, data[i]);
        assert ok;
        cur := Splice(s, offset, data[..i + 1]);
        i := i + 1;
      }
      assert data[..|data|] == data;
    }

    // ------------------------------------------------------- norcow_write

    /** Pads with zero bytes up to the next word boundary. */
    method Pad(sector: nat, offset: nat)
      requires Shape() && sector < sectorCount && offset <= sectorSize
      modifies `flash
      ensures Shape()
      ensures Align4(offset) <= sectorSize
      ensures flash == old(flash)[sector := Splice(old(flash)[sector], offset, Fill(Align4(offset) - offset, 0))]
    {
      ghost var s := flash[sector];
      ghost var pad := Fill(Align4(offset) - offset, 0);
      AlignedEnd(offset, sectorSize);
      ghost var cur := s;
      SpliceNothing(s, offset);
      ZerosAlwaysFit(s, offset, pad);
      hide Splice, CanProgram, Clears, Align4;
      var i := 0;
      while (offset + i) % 4 != 0
        invariant 0 <= i <= |pad| && Shape()
        invariant cur == Splice(s, offset, pad[..i]) && flash == old(flash)[sector := cur]
        decreases |pad| - i
      {
        PadGoesOn(offset, i);
        NextByteFits(s, offset, pad, i);
        var ok := WriteByte(sector, offset + i, 0);
        assert ok;
        cur := Splice(s, offset, pad[..i + 1]);
        i := i + 1;
      }
      PadEnds(offset, i);
      assert pad[..|pad|] == pad;
    }

    /** norcow_write: a prefix word, the data unless it is NULL, and zero padding. */
    method Write(sector: nat, offset: nat, prefix: seq<byte>, data: Option<seq<byte>>, len: nat) returns (ok: bool)
      requires Shape() && |prefix| == 4 && offset % 4 == 0 && (data.Some? ==> |data.value| == len)
      requires sector < sectorCount ==> forall j :: offset <= j < sectorSize ==> flash[sector][j] == 255
      modifies `flash
      ensures Shape()
      ensures ok <==> sector < sectorCount && offset + PREFIX + len <= sectorSize
      ensures !ok ==> flash == old(flash)
      ensures ok ==> offset + Size(len) <= sectorSize
      ensures ok ==> flash == old(flash)[sector := Splice(old(flash)[sector], offset, Record(prefix, data, len))]
    {
      if sector >= sectorCount {
        return false;
      }
      if offset + PREFIX + len > sectorSize {
        return false;
      }
      ghost var s := flash[sector];
      RecordFits(s, offset, len);
      ErasedTakesAny(s, offset, prefix);
      hide Splice, CanProgram, Size, Align4, Record, Fill;
      ok := WriteWord(sector, offset, prefix);
      assert ok;
      ghost var s1 := Splice(s, offset, prefix);
      if data.Some? {
        StillErased(s, offset, prefix, data.value);
        Program(sector, offset + 4, data.value);
      } else {
        SkippedData(s, offset, prefix, len);
      }
      Pad(sector, offset + PREFIX + len);
      RecordPieces(s, offset, prefix, data, len);
    }

    // -------------------------------------------------------- erase_sector

    ghost function Erased(s: seq<byte>, setMagic: bool): (r: seq<byte>)
      requires Geometry() && |s| == sectorSize
      ensures |r| == sectorSize
    {
      if setMagic then s[..headerLen] + MAGIC + Le32(0xFFFF_FFFF - version) + Fill(sectorSize - headerLen - 8, 255)
      else s[..headerLen] + Fill(sectorSize - headerLen, 255)
    }

    /** erase_sector: the header survives, and a magic and version follow if asked for. */
    method EraseSector(sector: nat, setMagic: bool)
      requires Shape() && sector < sectorCount
      modifies `flash
      ensures Shape()
      ensures flash == old(flash)[sector := Erased(old(flash)[sector], setMagic)]
    {
      var header := flash[sector][..headerLen];
      flash := flash[sector := Fill(sectorSize, 255)];
      RestoreHeader(sector, header);
      ghost var s1 := Splice(Fill(sectorSize, 255), 0, header);
      ErasedPieces(s1, header, Le32(0xFFFF_FFFF - version));
      hide Splice, Le32, Record, Size;
      if setMagic {
        var ok := Write(sector, headerLen, MAGIC, None, 0);
        assert ok;
        ok := Write(sector, headerLen + 4, Le32(0xFFFF_FFFF - version), None, 0);
        assert ok;
        MagicWritten(s1, headerLen, Le32(0xFFFF_FFFF - version));
      }
    }

    method RestoreHeader(sector: nat, header: seq<byte>)
      requires Shape() && sector < sectorCount && |header| == headerLen
      requires flash[sector] == Fill(sectorSize, 255)
      modifies `flash
      ensures Shape()
      ensures flash == old(flash)[sector := Splice(Fill(sectorSize, 255), 0, header)]
    {
      ghost var s := Fill(sectorSize, 255);
      ghost var cur := s;
      SpliceNothing(s, 0);
      hide Splice, CanProgram;
      var i := 0;
      while i < headerLen / 4
        invariant 0 <= i <= headerLen / 4 && Shape()
        invariant cur == Splice(s, 0, header[..4 * i]) && flash == old(flash)[sector := cur]
      {
        NextWordFits(s, header, i);
        var ok := WriteWord(sector, 4 * i, header[4 * i..4 * i + 4]);
        assert ok;
        cur := Splice(s, 0, header[..4 * (i + 1)]);
        i := i + 1;
      }
      assert header[..4 * i] == header;
    }

    // ------------------------------------------------------------- reading

    /** find_item: walks all items and keeps the last one with the key. */
    method FindItem(sector: nat, key: int, ghost its: seq<Item>)
      returns (found: bool, pos: nat, len: nat, ghost idx: nat)
      requires Shape() && sector < sectorCount && key != KEY_DELETED
      requires Marked(flash[sector]) && Holds(flash[sector], Start(), its) && Distinct(its)
      ensures found <==> key in MapOf(its)
      ensures found ==> idx < |its| && its[idx].key == key && MapOf(its)[key] == its[idx].data
      ensures found ==> pos == Off(Start(), its, idx) + 4 && len == |its[idx].data|
    {
      found, pos, len, idx := false, 0, 0, 0;
      StartOfMarked(flash[sector], headerLen, version);
      var start := StartOf(flash[sector], headerLen);
      hide Holds, Off, StartOf, ReadItem, Distinct, MapOf;
      if start == None {
        return;
      }
      var offset := start.value.0;
      ghost var i := 0;
      OffZero(Start(), its);
      while true
        invariant i <= |its| && offset == Off(Start(), its, i)
        invariant !found ==> forall j :: 0 <= j < i ==> its[j].key != key
        invariant found ==> idx < i && its[idx].key == key
        invariant found ==> pos == Off(Start(), its, idx) + 4 && len == |its[idx].data|
        decreases |its| - i
      {
        ReadNext(flash[sector], Start(), its, i);
        var r := ReadItem(flash[sector], offset);
        if r == None {
          break;
        }
        if r.value.key == key {
          found, pos, len, idx := true, r.value.pos, r.value.len, i;
        }
        offset := r.value.next;
        i := i + 1;
      }
      if found {
        MapComplete(its, idx);
      } else {
        MapAbsent(its, key);
      }
    }

    /** find_free_offset */
    method FindFreeOffset(sector: nat, ghost its: seq<Item>) returns (offset: nat)
      requires Shape() && sector < sectorCount
      requires Marked(flash[sector]) && Holds(flash[sector], Start(), its)
      ensures offset == Off(Start(), its, |its|)
    {
      StartOfMarked(flash[sector], headerLen, version);
      var start := StartOf(flash[sector], headerLen);
      hide Holds, Off, StartOf, ReadItem;
      offset := 0;
      if start == None {
        return;
      }
      offset := start.value.0;
      ghost var i := 0;
      OffZero(Start(), its);
      while true
        invariant i <= |its| && offset == Off(Start(), its, i)
        decreases |its| - i
      {
        ReadNext(flash[sector], Start(), its, i);
        var r := ReadItem(flash[sector], offset);
        if r == None {
          break;
        }
        offset := r.value.next;
        i := i + 1;
      }
    }

    /** norcow_get */
    method Get(key: int) returns (found: bool, value: seq<byte>)
      requires Valid() && key != KEY_DELETED
      ensures found <==> key in Map()
      ensures found ==> value == Map()[key]
    {
      var pos, len;
      ghost var i;
      found, pos, len, i := FindItem(activeSector, key, items);
      value := [];
      if found {
        ReadNext(flash[activeSector], Start(), items, i);
        value := flash[activeSector][pos..pos + len];
      }
    }

    /** An iteration stands at item i: its offset is 0 at the very start, and where the item is from then on. */
    ghost predicate Cursor(offset: nat, i: nat)
      reads this
    {
      GoodItems(items) && i <= |items| && if offset == 0 then i == 0 else offset == Off(Start(), items, i)
    }

    /** The live entries that an iteration has passed when it stands at item i. */
    ghost function Passed(i: nat): seq<Item>
      requires i <= |items|
      reads this
    {
      LiveItems(items[..i])
    }

    lemma NothingPassed()
      requires Valid()
      ensures Cursor(0, 0) && MapOf(Passed(0)) == map[]
    {
      assert items[..0] == [];
    }

    /** norcow_get_next: the next live entry and the offset behind it, until all have been passed. */
    method GetNext(offset: nat, ghost i: nat) returns (ok: bool, next: nat, key: int, value: seq<byte>, ghost j: nat)
      requires Valid() && Cursor(offset, i)
      ensures ok <==> |Passed(i)| < |LiveItems(items)|
      ensures ok ==> LiveItems(items)[|Passed(i)|] == Item(key, value)
      ensures Cursor(next, j) && j <= |items|
      ensures ok ==> i < j && 0 < key < KEY_FREE && Passed(j) == Passed(i) + [Item(key, value)]
      ensures ok ==> MapOf(Passed(j)) == MapOf(Passed(i))[key := value] && key !in MapOf(Passed(i))
      ensures !ok ==> j == |items| && Passed(i) == Passed(j) == LiveItems(items) && MapOf(Passed(j)) == Map()
    {
      next, key, value, j := offset, 0, [], i;
      hide Off, StartOf, ReadItem, Distinct, MapOf, Holds, Steady, Marked, LiveItems;
      SteadyShape(flash, activeSector, freeOffset, items);
      OffZero(Start(), items);
      OffPositive(Start(), items);
      if offset == 0 {
        var start := StartOf(flash[activeSector], headerLen);
        next := start.value.0;
      }
      ok := false;
      while true
        invariant i <= j <= |items| && next == Off(Start(), items, j) && Passed(j) == Passed(i)
        decreases |items| - j
      {
        ReadNext(flash[activeSector], Start(), items, j);
        var r := ReadItem(flash[activeSector], next);
        if r == None {
          AllPassed(items);
          return;
        }
        next := r.value.next;
        LiveStep(items, j);
        j := j + 1;
        if r.value.key == KEY_DELETED {
          assert Passed(i) + [] == Passed(i);
          continue;
        }
        PassedNext(items, j - 1);
        LivePrefix(items, j);
        key := r.value.key;
        value := flash[activeSector][r.value.pos..r.value.pos + r.value.len];
        ok := true;
        return;
      }
    }

    /** The iteration of storage.c: every entry of the map comes up exactly once. */
    method Entries() returns (all: seq<Item>)
      requires Valid()
      ensures all == LiveItems(items) && MapOf(all) == Map() && |all| == |Map()|
      ensures forall i, j :: 0 <= i < j < |all| ==> all[i].key != all[j].key
      ensures forall i :: 0 <= i < |all| ==> all[i].key in Map() && Map()[all[i].key] == all[i].data
    {
      all := [];
      SteadyShape(flash, activeSector, freeOffset, items);
      ListedOnce(items);
      assert items[..0] == [];
      var ok, offset, key, value;
      ghost var i := 0;
      ok, offset, key, value, i := GetNext(0, i);
      hide Steady, Off, GoodItems, LiveItems, MapOf;
      while ok
        invariant Cursor(offset, i) && Passed(i) == if ok then all + [Item(key, value)] else all
        invariant !ok ==> all == LiveItems(items)
        decreases |items| - i, ok
      {
        all := all + [Item(key, value)];
        ok, offset, key, value, i := GetNext(offset, i);
      }
    }

    // ------------------------------------------------------------- updates

    /** The steady state survives rewriting one item to the same size. */
    lemma RewriteKeepsSteady(fl: seq<seq<byte>>, act: nat, free: nat, its: seq<Item>, idx: nat, x: Item)
      requires Steady(fl, act, free, its) && idx < |its|
      requires GoodItem(x) && |x.data| == |its[idx].data| && Distinct(its[idx := x])
      ensures Off(Start(), its, idx) + |Enc(x)| <= |fl[act]|
      ensures Steady(fl[act := Splice(fl[act], Off(Start(), its, idx), Enc(x))], act, free, its[idx := x])
    {
      HoldsReplace(fl[act], Start(), its, idx, x);
      OffAfterStart(Start(), its, idx);
      hide Holds, Off, Distinct, Enc, Le32;
      MarkKept(fl[act], headerLen, Off(Start(), its, idx), Enc(x));
    }

    /** The words deletion writes: the prefix with key 0, then zeros over the data. */
    method WriteTombstone(sector: nat, pos: nat, len: nat)
      requires Shape() && sector < sectorCount && pos % 4 == 0 && 4 <= pos && len < 0x1_0000
      requires Size(len) == 4 + Align4(len) && pos - 4 + Size(len) <= sectorSize
      requires CanProgram(flash[sector], pos - 4, Prefix(KEY_DELETED, len))
      modifies `flash
      ensures Shape()
      ensures flash == old(flash)[sector := Splice(old(flash)[sector], pos - 4, Enc(Item(KEY_DELETED, Fill(len, 0))))]
    {
      hide Splice, CanProgram, Enc, Prefix;
      ghost var s := flash[sector];
      var ok := WriteWord(sector, pos - PREFIX, Prefix(KEY_DELETED, len));
      assert ok;
      ZeroWords(sector, pos, len);
      TombstoneDone(s, pos - 4, len);
    }

    /** Item idx of the active sector becomes a tombstone. */
    method Tombstone(pos: nat, len: nat, ghost idx: nat)
      requires Valid() && idx < |items| && items[idx].key != KEY_DELETED && GoodItems(items)
      requires pos == Off(Start(), items, idx) + 4 && len == |items[idx].data|
      modifies `flash, `items
      ensures Valid() && items == old(items)[idx := Item(KEY_DELETED, Fill(len, 0))]
      ensures Map() == old(Map()) - {old(items)[idx].key}
    {
      ghost var x := Item(KEY_DELETED, Fill(len, 0));
      hide Steady, Off, Distinct, Enc, Splice, CanProgram, MapOf, Size, GoodItems;
      SteadyShape(flash, activeSector, freeOffset, items);
      TombstoneKeepsSteady(flash, activeSector, freeOffset, items, idx);
      WriteTombstone(writeSector, pos, len);
      items := items[idx := x];
    }

    lemma SteadyShape(fl: seq<seq<byte>>, act: nat, free: nat, its: seq<Item>)
      requires Steady(fl, act, free, its)
      ensures Geometry() && |fl| == sectorCount && (forall i :: 0 <= i < |fl| ==> |fl[i]| == sectorSize)
      ensures act < sectorCount && GoodItems(its) && Distinct(its) && Marked(fl[act]) && Holds(fl[act], Start(), its)
      ensures StartOf(fl[act], headerLen) == Some((Start(), version))
      ensures free == Off(Start(), its, |its|)
    {
      StartOfMarked(fl[act], headerLen, version);
    }

    lemma TombstoneKeepsSteady(fl: seq<seq<byte>>, act: nat, free: nat, its: seq<Item>, idx: nat)
      requires Steady(fl, act, free, its) && idx < |its| && its[idx].key != KEY_DELETED && GoodItems(its)
      ensures var o, len := Off(Start(), its, idx), |its[idx].data|;
              var x := Item(KEY_DELETED, Fill(len, 0));
              && act < |fl| && GoodItem(x) && len < 0x1_0000 && o % 4 == 0
              && Size(len) == 4 + Align4(len) && o + Size(len) <= |fl[act]|
              && CanProgram(fl[act], o, Prefix(KEY_DELETED, len))
              && Steady(fl[act := Splice(fl[act], o, Enc(x))], act, free, its[idx := x])
              && MapOf(its[idx := x]) == MapOf(its) - {its[idx].key}
    {
      var len := |its[idx].data|;
      SteadyShape(fl, act, free, its);
      TombstoneBytes(fl[act], Start(), its, idx);
      MapDelete(its, idx, Fill(len, 0));
      RewriteKeepsSteady(fl, act, free, its, idx, Item(KEY_DELETED, Fill(len, 0)));
    }

    /** Zero words over len bytes from pos on, rounded up to words. */
    method ZeroWords(sector: nat, pos: nat, len: nat)
      requires Shape() && sector < sectorCount && pos % 4 == 0 && pos + Align4(len) <= sectorSize
      modifies `flash
      ensures Shape()
      ensures flash == old(flash)[sector := Splice(old(flash)[sector], pos, Fill(Align4(len), 0))]
    {
      hide Splice, CanProgram, Align4;
      ghost var s, zeros := flash[sector], Fill(Align4(len), 0);
      ghost var cur, n := s, 0;
      SpliceNothing(s, pos);
      assert zeros[..0] == [];
      var offset, end := pos, pos + len;
      while offset < end
        invariant offset == pos + n && n <= |zeros| && n % 4 == 0 && offset % 4 == 0 && Shape()
        invariant cur == Splice(s, pos, zeros[..n]) && flash == old(flash)[sector := cur]
        decreases end - offset
      {
        WordGoesOn(len, n);
        ZeroWordFits(s, pos, zeros, n);
        var ok := WriteWord(sector, offset, [0, 0, 0, 0]);
        assert ok;
        n := n + 4;
        cur := Splice(s, pos, zeros[..n]);
        offset := offset + 4;
      }
      WordsEnd(len, n);
      assert zeros[..|zeros|] == zeros;
    }

    /** norcow_delete */
    method Delete(key: int) returns (ok: bool)
      requires Valid() && 0 < key <= KEY_FREE
      modifies `flash, `items
      ensures Valid()
      ensures ok <==> key in old(Map())
      ensures Map() == old(Map()) - {key}
    {
      NoFreeKey(items);
      if key == KEY_FREE {
        assert MapOf(items) - {key} == MapOf(items);
        return false;
      }
      var found, pos, len;
      ghost var idx;
      found, pos, len, idx := FindItem(writeSector, key, items);
      if !found {
        assert MapOf(items) - {key} == MapOf(items);
        return false;
      }
      Tombstone(pos, len, idx);
      ok := true;
    }

    /** Overwriting part of an item's data, where the flash allows it. */
    lemma DataKeepsSteady(fl: seq<seq<byte>>, act: nat, free: nat, its: seq<Item>, idx: nat, off: nat, d: seq<byte>)
      requires Steady(fl, act, free, its) && idx < |its| && its[idx].key != KEY_DELETED && GoodItems(its)
      requires off + |d| <= |its[idx].data|
      ensures var pos, x := Off(Start(), its, idx) + 4 + off, Item(its[idx].key, Splice(its[idx].data, off, d));
              && act < |fl| && pos + |d| <= |fl[act]|
              && (CanProgram(fl[act], pos, d) <==> CanProgram(its[idx].data, off, d))
              && Steady(fl[act := Splice(fl[act], pos, d)], act, free, its[idx := x])
              && MapOf(its[idx := x]) == MapOf(its)[its[idx].key := x.data]
              && GoodItems(its[idx := x])
    {
      hide Steady, Holds, EncAll, Distinct, MapOf, Off, Enc, Size, Splice, CanProgram;
      var it := its[idx];
      var x := Item(it.key, Splice(it.data, off, d));
      SteadyShape(fl, act, free, its);
      ItemFacts(fl[act], Start(), its, idx);
      MapRewrite(its, idx, x.data);
      RewriteKeepsSteady(fl, act, free, its, idx, x);
      DataSplice(fl[act], Off(Start(), its, idx), it, off, d);
      ProgramData(fl[act], Off(Start(), its, idx), it, off, d);
    }

    /** norcow_update_bytes: the bytes are ensured one by one, so it halts at the first that would need a bit set. */
    method UpdateBytes(key: int, offset: nat, data: seq<byte>) returns (halted: bool, ok: bool)
      requires Valid() && key != KEY_DELETED
      modifies `flash, `items
      ensures Valid()
      ensures ok || halted <==> key in old(Map()) && offset + |data| <= |old(Map())[key]|
      ensures ok ==> !halted
      ensures halted ==> !CanProgram(old(Map())[key], offset, data)
      ensures ok ==> CanProgram(old(Map())[key], offset, data) && Map() == old(Map())[key := Splice(old(Map())[key], offset, data)]
      ensures ok || halted ==> var v := old(Map())[key];
                var n := Taken(v, offset, data);
                && Map() == old(Map())[key := Splice(v, offset, data[..n])] && (halted <==> n < |data|)
      ensures !ok && !halted ==> Map() == old(Map())
    {
      hide Steady, Holds, Off, Distinct, Splice, CanProgram, MapOf, Marked, Taken;
      ghost var fl, its := flash, items;
      SteadyShape(fl, activeSector, freeOffset, its);
      var found, pos, len;
      ghost var idx;
      found, pos, len, idx := FindItem(writeSector, key, items);
      if !found || offset + |data| > len {
        return false, false;
      }
      DataKeepsSteady(fl, activeSector, freeOffset, its, idx, offset, data);
      ghost var n;
      ok, n := ProgramUntil(writeSector, pos + offset, data);
      halted := !ok;
      ItemFacts(fl[activeSector], Start(), its, idx);
      TakenInItem(fl[activeSector], Off(Start(), its, idx), its[idx], offset, data, n);
      DataKeepsSteady(fl, activeSector, freeOffset, its, idx, offset, data[..n]);
      items := items[idx := Item(key, Splice(items[idx].data, offset, data[..n]))];
      assert ok ==> data[..n] == data;
    }

    /** norcow_update_word; the last word of a value may reach into its zero padding. */
    method UpdateWord(key: int, offset: nat, w: seq<byte>) returns (halted: bool, ok: bool)
      requires Valid() && key != KEY_DELETED && |w| == 4
      modifies `flash, `items
      ensures Valid()
      ensures ok || halted <==> key in old(Map()) && offset % 4 == 0 && offset < |old(Map())[key]|
      ensures halted ==> !ok && !TakesWord(old(Map())[key], offset, w)
      ensures !ok ==> Map() == old(Map())
      ensures ok ==> var v := old(Map())[key];
                     TakesWord(v, offset, w) && Map() == old(Map())[key := Splice(v, offset, Within(w, offset, |v|))]
    {
      hide Steady, Holds, Off, Distinct, Splice, CanProgram, MapOf, Marked;
      SteadyShape(flash, activeSector, freeOffset, items);
      var found, pos, len;
      ghost var idx;
      found, pos, len, idx := FindItem(writeSector, key, items);
      if !found || offset % 4 != 0 || offset >= len {
        return false, false;
      }
      ghost var d := Within(w, offset, len);
      DataKeepsSteady(flash, activeSector, freeOffset, items, idx, offset, d);
      WordReachesPadding(flash[writeSector], Start(), items, idx, offset, w);
      ok := WriteWord(writeSector, pos + offset, w);
      halted := !ok;
      if ok {
        items := items[idx := Item(key, Splice(items[idx].data, offset, d))];
      }
    }

    /** Bytes are written until one of them would need a bit set. */
    method ProgramUntil(sector: nat, pos: nat, val: seq<byte>) returns (ok: bool, ghost n: nat)
      requires Shape() && sector < sectorCount && pos + |val| <= sectorSize
      modifies `flash
      ensures Shape() && n <= |val|
      ensures ok <==> CanProgram(old(flash)[sector], pos, val)
      ensures ok <==> n == |val|
      ensures CanProgram(old(flash)[sector], pos, val[..n])
      ensures !ok ==> !Clears(old(flash)[sector][pos + n], val[n])
      ensures flash == old(flash)[sector := Splice(old(flash)[sector], pos, val[..n])]
    {
      ghost var s, cur := flash[sector], flash[sector];
      SpliceNothing(s, pos);
      assert val[..0] == [];
      hide Splice, Clears;
      n := 0;
      ok := true;
      var i := 0;
      while i < |val|
        invariant 0 <= i <= |val| && n == i && ok && Shape()
        invariant cur == Splice(s, pos, val[..i]) && flash == old(flash)[sector := cur]
        invariant CanProgram(s, pos, val[..i])
      {
        ByteByByte(s, pos, val, i);
        ok := WriteByte(sector, pos + i, val[i]);
        if !ok {
          return;
        }
        cur := Splice(s, pos, val[..i + 1]);
        i := i + 1;
        n := i;
      }
      assert val[..n] == val;
    }

    /** The in-place attempt of norcow_set_ex. */
    method TryInPlace(pos: nat, val: seq<byte>, ghost idx: nat) returns (ok: bool, ghost n: nat)
      requires Valid() && idx < |items| && items[idx].key != KEY_DELETED && GoodItems(items)
      requires pos == Off(Start(), items, idx) + 4 && |val| == |items[idx].data|
      modifies `flash, `items
      ensures Valid() && GoodItems(items) && n <= |val|
      ensures items == old(items)[idx := Item(old(items)[idx].key, Splice(old(items)[idx].data, 0, val[..n]))]
      ensures Map() == old(Map())[old(items)[idx].key := items[idx].data]
      ensures ok <==> CanProgram(old(items)[idx].data, 0, val)
      ensures ok ==> n == |val|
    {
      ghost var fl, its := flash, items;
      hide Steady, Off, Distinct, Splice, MapOf, GoodItems, Marked, Holds, CanProgram;
      SteadyShape(fl, activeSector, freeOffset, its);
      DataKeepsSteady(fl, activeSector, freeOffset, its, idx, 0, val);
      ok, n := ProgramUntil(writeSector, pos, val);
      DataKeepsSteady(fl, activeSector, freeOffset, its, idx, 0, val[..n]);
      items := its[idx := Item(its[idx].key, Splice(its[idx].data, 0, val[..n]))];
    }

    // ---------------------------------------------------- appending, compaction

    /** Sector s holds the items behind a valid mark. */
    ghost predicate Live(s: seq<byte>, its: seq<Item>)
    {
      Geometry() && |s| == sectorSize && Marked(s) && Holds(s, Start(), its)
    }

    lemma AppendKeepsLive(s: seq<byte>, its: seq<Item>, x: Item)
      requires Live(s, its) && GoodItem(x) && GoodItems(its)
      requires Off(Start(), its, |its|) + Size(|x.data|) <= sectorSize
      ensures Off(Start(), its, |its|) + |Enc(x)| <= |s|
      ensures Live(Splice(s, Off(Start(), its, |its|), Enc(x)), its + [x])
      ensures Off(Start(), its + [x], |its| + 1) == Off(Start(), its, |its|) + Size(|x.data|)
    {
      HoldsAppend(s, Start(), its, x);
      OffAfterStart(Start(), its, |its|);
      hide Holds, Off, Enc, Le32;
      MarkKept(s, headerLen, Off(Start(), its, |its|), Enc(x));
    }

    /** The flash behind the last item is erased, and the free offset is a word boundary. */
    lemma FreeSpace(s: seq<byte>, its: seq<Item>)
      requires Live(s, its) && GoodItems(its)
      ensures var o := Off(Start(), its, |its|);
              && o % 4 == 0 && o <= sectorSize && forall j :: o <= j < sectorSize ==> s[j] == 255
    {
      OffAligned(Start(), its, |its|);
      assert its[..|its|] == its;
    }

    /** write_item at the free offset of a sector. */
    method WriteItem(sector: nat, offset: nat, key: int, val: Option<seq<byte>>, len: nat, ghost its: seq<Item>)
      returns (ok: bool, pos: nat)
      requires Shape() && sector < sectorCount && Live(flash[sector], its) && GoodItems(its)
      requires 0 <= key < KEY_FREE && len < 0x1_0000 && (val.Some? ==> |val.value| == len)
      requires offset == Off(Start(), its, |its|)
      modifies `flash
      ensures Shape()
      ensures ok <==> offset + PREFIX + len <= sectorSize
      ensures !ok ==> flash == old(flash)
      ensures ok ==> |flash| == sectorCount && flash == old(flash)[sector := flash[sector]]
      ensures ok ==> GoodItems(its + [Stored(key, val, len)]) && Live(flash[sector], its + [Stored(key, val, len)])
      ensures ok ==> pos == Off(Start(), its + [Stored(key, val, len)], |its| + 1)
    {
      ghost var s, x := flash[sector], Stored(key, val, len);
      FreeSpace(s, its);
      hide Holds, Off, Marked, Splice, Enc, Size, Align4, Prefix, Live, GoodItems;
      pos := Align4(offset + PREFIX + len);
      ok := Write(sector, offset, Prefix(key, len), val, len);
      if ok {
        RecordFits(s, offset, len);
        RecordIsItem(key, val, len);
        AppendKeepsLive(s, its, x);
        GoodAppend(its, x);
      }
    }

    /** The copying loop of compact has reached item i: the live ones among the first i are copied. */
    ghost predicate Copied(fl: seq<seq<byte>>, was: seq<seq<byte>>, from: nat, to: nat, its: seq<Item>, i: nat,
                           offsetw: nat)
    {
      && from < sectorCount && to < sectorCount && from != to && i <= |its|
      && |fl| == |was| == sectorCount && fl == was[to := fl[to]]
      && GoodItems(its) && GoodItems(LiveItems(its[..i]))
      && Live(was[from], its) && Live(fl[to], LiveItems(its[..i]))
      && offsetw == Off(Start(), LiveItems(its[..i]), |LiveItems(its[..i])|)
    }

    lemma CopyStarts(fl: seq<seq<byte>>, from: nat, to: nat, its: seq<Item>)
      requires from < sectorCount && to < sectorCount && from != to && |fl| == sectorCount
      requires Live(fl[from], its) && Live(fl[to], [])
      ensures Copied(fl, fl, from, to, its, 0, Start())
    {
      assert its[..0] == [];
      StartOfLive(fl[from], its);
      OffZero(Start(), []);
    }

    lemma CopySkips(fl: seq<seq<byte>>, was: seq<seq<byte>>, from: nat, to: nat, its: seq<Item>, i: nat, offsetw: nat)
      requires Copied(fl, was, from, to, its, i, offsetw) && i < |its| && its[i].key == KEY_DELETED
      ensures Copied(fl, was, from, to, its, i + 1, offsetw)
    {
      LiveStep(its, i);
      assert LiveItems(its[..i]) + [] == LiveItems(its[..i]);
    }

    /** One live item is copied. */
    method CopyItem(from: nat, to: nat, offsetw: nat, r: Read, ghost its: seq<Item>, ghost i: nat,
                    ghost was: seq<seq<byte>>) returns (next: nat)
      requires Shape() && Copied(flash, was, from, to, its, i, offsetw) && i < |its| && its[i].key != KEY_DELETED
      requires r.key == its[i].key && r.pos + r.len <= sectorSize && r.len == |its[i].data|
      requires was[from][r.pos..r.pos + r.len] == its[i].data
      modifies `flash
      ensures Shape() && Copied(flash, was, from, to, its, i + 1, next)
    {
      ghost var live := LiveItems(its[..i]);
      LiveStep(its, i);
      CopyFits(was[from], its, i);
      LiveRead(was[from], its, i);
      hide Holds, Off, Marked, Live, LiveItems, GoodItem;
      var v := flash[from][r.pos..r.pos + r.len];
      var ok;
      ok, next := WriteItem(to, offsetw, r.key, Some(v), r.len, live);
      assert ok;
    }

    /** The copying loop of compact: live items go to the fresh sector, in order. */
    method CopyLive(from: nat, to: nat, ghost its: seq<Item>)
      requires Shape() && from < sectorCount && to < sectorCount && from != to
      requires Live(flash[from], its) && Live(flash[to], [])
      modifies `flash
      ensures Shape() && flash == old(flash)[to := flash[to]]
      ensures Live(flash[to], LiveItems(its))
    {
      ghost var was := flash;
      hide Off, Live, StartOf, ReadItem, Copied, Holds, Marked;
      StartOfLive(flash[from], its);
      OffZero(Start(), its);
      CopyStarts(flash, from, to, its);
      var offsetr: nat := StartOf(flash[from], headerLen).value.0;
      var offsetw: nat := headerLen + 8;
      ghost var i := 0;
      while true
        invariant i <= |its| && offsetr == Off(Start(), its, i)
        invariant Shape() && flash == was[to := flash[to]] && Copied(flash, was, from, to, its, i, offsetw)
        decreases |its| - i
      {
        LiveRead(was[from], its, i);
        var r := ReadItem(flash[from], offsetr);
        if r == None {
          break;
        }
        offsetr := r.value.next;
        if r.value.key == KEY_DELETED {
          CopySkips(flash, was, from, to, its, i, offsetw);
          i := i + 1;
          continue;
        }
        offsetw := CopyItem(from, to, offsetw, r.value, its, i, was);
        CopiedFrame(flash, was, from, to, its, i + 1, offsetw);
        i := i + 1;
      }
      CopyEnds(flash, was, from, to, its, offsetw);
    }

    lemma CopiedFrame(fl: seq<seq<byte>>, was: seq<seq<byte>>, from: nat, to: nat, its: seq<Item>, i: nat, offsetw: nat)
      requires Copied(fl, was, from, to, its, i, offsetw)
      ensures to < |fl| == |was| && fl == was[to := fl[to]]
    {
    }

    lemma CopyEnds(fl: seq<seq<byte>>, was: seq<seq<byte>>, from: nat, to: nat, its: seq<Item>, offsetw: nat)
      requires Copied(fl, was, from, to, its, |its|, offsetw)
      ensures Live(fl[to], LiveItems(its))
    {
      assert its[..|its|] == its;
    }

    lemma StartOfLive(s: seq<byte>, its: seq<Item>)
      requires Live(s, its)
      ensures StartOf(s, headerLen) == Some((Start(), version)) && GoodItems(its)
    {
      StartOfMarked(s, headerLen, version);
    }

    lemma LiveRead(s: seq<byte>, its: seq<Item>, i: nat)
      requires Live(s, its) && i <= |its| && GoodItems(its)
      ensures i == |its| ==> ReadItem(s, Off(Start(), its, i)) == None
      ensures i < |its| ==>
                var o := Off(Start(), its, i);
                && ReadItem(s, o) == Some(Read(its[i].key, o + 4, |its[i].data|, Off(Start(), its, i + 1)))
                && o + 4 + |its[i].data| <= |s| && s[o + 4..o + 4 + |its[i].data|] == its[i].data
                && GoodItem(its[i]) && 0 <= its[i].key < KEY_FREE && |its[i].data| < 0x1_0000
    {
      ReadNext(s, Start(), its, i);
    }

    /** The copy of item i fits, because it fitted in the old sector. */
    lemma CopyFits(s: seq<byte>, its: seq<Item>, i: nat)
      requires Live(s, its) && i < |its| && GoodItems(its) && its[i].key != KEY_DELETED
      requires GoodItems(LiveItems(its[..i]))
      ensures Off(Start(), LiveItems(its[..i]), |LiveItems(its[..i])|) + PREFIX + |its[i].data| <= sectorSize
    {
      var l := LiveItems(its[..i]);
      assert l[..|l|] == l;
      LiveShorter(its[..i]);
      OffStep(Start(), its, i);
      assert Off(Start(), its, |its|) <= |s| by { assert its[..|its|] == its; }
    }

    /** The flash work of compact: erase the target, copy, erase the source. */
    method MoveLive(from: nat, to: nat, ghost its: seq<Item>)
      requires Shape() && from < sectorCount && to < sectorCount && from != to && Live(flash[from], its)
      modifies `flash
      ensures Shape() && Live(flash[to], LiveItems(its)) && Blank(flash[from])
      ensures flash == old(flash)[to := flash[to]][from := flash[from]]
    {
      hide Live, LiveItems, Blank, Erased;
      FreshSector(flash[to]);
      EraseSector(to, true);
      CopyLive(from, to, its);
      BlankSector(flash[from]);
      EraseSector(from, false);
    }

    /** compact: afterwards the free offset is where the live values alone would end. */
    method Compact()
      requires Valid()
      modifies this
      ensures Valid() && items == LiveItems(old(items))
      ensures Map() == old(Map()) && freeOffset == Start() + MapSize(Map())
    {
      ghost var fl, its := flash, items;
      hide Steady, Holds, Off, Marked, Live, StartOf, LiveItems, MapOf, Distinct, Blank, MapSize, GoodItems;
      SteadyShape(flash, activeSector, freeOffset, items);
      SteadyLive(flash, activeSector, freeOffset, items);
      if StartOf(flash[activeSector], headerLen) == None {
        return;
      }
      NextSector(activeSector, sectorCount);
      writeSector := (activeSector + 1) % sectorCount;
      MoveLive(activeSector, writeSector, its);
      LiveParts(flash[writeSector], LiveItems(its));
      MovedSteady(fl, flash, activeSector, writeSector, freeOffset, its);
      freeOffset := FindFreeOffset(writeSector, LiveItems(its));
      activeSector := writeSector;
      activeVersion := version;
      items := LiveItems(its);
    }

    lemma MovedSteady(fl: seq<seq<byte>>, fl': seq<seq<byte>>, from: nat, to: nat, free: nat, its: seq<Item>)
      requires Steady(fl, from, free, its) && to < sectorCount && from != to && |fl'| == sectorCount
      requires (forall i :: 0 <= i < |fl'| ==> |fl'[i]| == sectorSize)
      requires fl' == fl[to := fl'[to]][from := fl'[from]] && Live(fl'[to], LiveItems(its)) && Blank(fl'[from])
      requires GoodItems(LiveItems(its))
      ensures Steady(fl', to, Off(Start(), LiveItems(its), |LiveItems(its)|), LiveItems(its))
      ensures MapOf(LiveItems(its)) == MapOf(its)
      ensures Off(Start(), LiveItems(its), |LiveItems(its)|) == Start() + MapSize(MapOf(its))
    {
      CompactedMap(its);
      hide Holds, Off, LiveItems, MapOf, MapSize, Distinct, Blank, Marked;
    }

    lemma SteadyLive(fl: seq<seq<byte>>, act: nat, free: nat, its: seq<Item>)
      requires Steady(fl, act, free, its)
      ensures Live(fl[act], its)
    {
    }

    lemma LiveParts(s: seq<byte>, its: seq<Item>)
      requires Live(s, its)
      ensures Geometry() && |s| == sectorSize && Marked(s) && Holds(s, Start(), its) && GoodItems(its)
    {
    }

    lemma NextSector(act: nat, count: nat)
      requires act < count && count >= 2
      ensures (act + 1) % count < count && (act + 1) % count != act
    {
      if act + 1 < count {
        assert (act + 1) % count == act + 1;
      }
    }

    /** A sector erased with its magic set is live and empty. */
    lemma FreshSector(s: seq<byte>)
      requires Geometry() && |s| == sectorSize
      ensures Live(Erased(s, true), [])
    {
      var t := Erased(s, true);
      hide Le32;
      assert t[headerLen..headerLen + 4] == MAGIC;
      assert t[headerLen + 4..headerLen + 8] == Le32(0xFFFF_FFFF - version);
      assert EncAll([]) == [];
    }

    lemma BlankSector(s: seq<byte>)
      requires Geometry() && |s| == sectorSize
      ensures Blank(Erased(s, false))
    {
    }

    lemma CompactedMap(its: seq<Item>)
      requires GoodItems(its) && Distinct(its)
      ensures MapOf(LiveItems(its)) == MapOf(its) && Distinct(LiveItems(its))
      ensures Off(Start(), LiveItems(its), |LiveItems(its)|) == Start() + MapSize(MapOf(its))
    {
      LiveMap(its);
      LiveDistinct(its);
      LiveSize(its);
      var l := LiveItems(its);
      assert l[..|l|] == l;
    }

    // ---------------------------------------------------------- norcow_set_ex

    /** The old value can be turned into the new one by clearing bits only. */
    ghost predicate InPlace(m: map<int, seq<byte>>, key: int, val: Option<seq<byte>>)
    {
      key in m && val.Some? && |m[key]| == |val.value| && CanProgram(m[key], 0, val.value)
    }

    /** All other values and the new one fit in one sector. */
    ghost predicate Fits(m: map<int, seq<byte>>, key: int, len: nat)
    {
      Start() + MapSize(m - {key}) + PREFIX + len <= sectorSize
    }

    /** Writes a new item at the free offset, if it fits there. */
    method AppendHere(key: int, val: Option<seq<byte>>, len: nat) returns (ok: bool)
      requires Valid() && 0 < key < KEY_FREE && len < 0x1_0000 && (val.Some? ==> |val.value| == len)
      requires key !in Map()
      modifies `flash, `freeOffset, `items
      ensures Valid()
      ensures ok <==> old(freeOffset) + PREFIX + len <= sectorSize
      ensures Map() == if ok then old(Map())[key := Stored(key, val, len).data] else old(Map())
    {
      ghost var fl, its, x := flash, items, Stored(key, val, len);
      assert x.key == key;
      hide Steady, Off, Live, MapOf, Distinct, Marked, Holds, GoodItems, Stored;
      SteadyShape(fl, activeSector, freeOffset, its);
      SteadyLive(fl, activeSector, freeOffset, its);
      var pos;
      ok, pos := WriteItem(writeSector, freeOffset, key, val, len, its);
      if ok {
        MapAppend(its, x);
        AppendKeepsSteady(fl, flash, activeSector, freeOffset, its, x);
        freeOffset := pos;
        items := its + [x];
      }
    }

    /** Appends to the active sector, compacting it first if it is full. */
    method Append(key: int, val: Option<seq<byte>>, len: nat) returns (ok: bool)
      requires Valid() && 0 < key < KEY_FREE && len < 0x1_0000 && (val.Some? ==> |val.value| == len)
      requires key !in Map()
      modifies this
      ensures Valid()
      ensures ok <==> Fits(old(Map()), key, len)
      ensures Map() == if ok then old(Map())[key := Stored(key, val, len).data] else old(Map())
    {
      ghost var m := Map();
      assert m - {key} == m;
      hide Steady, MapOf, MapSize, Stored;
      LiveRoom(flash, activeSector, freeOffset, items);
      if freeOffset + PREFIX + len > sectorSize {
        Compact();
      }
      ok := AppendHere(key, val, len);
    }

    lemma LiveRoom(fl: seq<seq<byte>>, act: nat, free: nat, its: seq<Item>)
      requires Steady(fl, act, free, its)
      ensures Start() + MapSize(MapOf(its)) <= free
    {
      LiveSize(its);
      assert its[..|its|] == its;
    }

    lemma AppendKeepsSteady(fl: seq<seq<byte>>, fl': seq<seq<byte>>, act: nat, free: nat, its: seq<Item>, x: Item)
      requires Steady(fl, act, free, its) && |fl'| == sectorCount && fl' == fl[act := fl'[act]]
      requires Live(fl'[act], its + [x]) && Distinct(its + [x]) && GoodItems(its + [x])
      ensures Steady(fl', act, Off(Start(), its + [x], |its| + 1), its + [x])
    {
      hide Holds, Marked, Off, Distinct;
    }

    /** A value no longer than the one stored under the key always fits. */
    lemma RewriteFits(fl: seq<seq<byte>>, act: nat, free: nat, its: seq<Item>, key: int, len: nat)
      requires Steady(fl, act, free, its) && key in MapOf(its)
      ensures len <= |MapOf(its)[key]| ==> Fits(MapOf(its), key, len)
    {
      LiveRoom(fl, act, free, its);
      SteadyLive(fl, act, free, its);
      FreeSpace(fl[act], its);
      hide Holds, Off, MapOf, MapSize, Distinct, Marked, Live;
      MapSizeRemove(MapOf(its), key);
    }

    lemma EntryInRange(key: int)
      requires Valid() && key in Map()
      ensures 0 < key < KEY_FREE && |Map()[key]| < 0x1_0000
    {
      EntryRange(items, key);
    }

    /** An entry can always be written again with a value that is no longer. */
    lemma RoomToRewrite(key: int, len: nat)
      requires Valid() && key in Map() && len <= |Map()[key]|
      ensures Fits(Map(), key, len)
    {
      RewriteFits(flash, activeSector, freeOffset, items, key, len);
    }

    /** norcow_set_ex, with val == None for a NULL pointer. A stored entry that does not fit is lost. */
    method SetEx(key: int, val: Option<seq<byte>>, len: nat) returns (ok: bool, found: bool)
      requires Valid() && 0 < key <= KEY_FREE && len < 0x1_0000 && (val.Some? ==> |val.value| == len)
      modifies this
      ensures Valid()
      ensures key != KEY_FREE ==> (found <==> key in old(Map()))
      ensures ok <==> key != KEY_FREE && Fits(old(Map()), key, len)
      ensures Map() == if ok then old(Map())[key := Stored(key, val, len).data]
                       else if key == KEY_FREE then old(Map()) else old(Map()) - {key}
    {
      ok, found := false, false;
      if key == KEY_FREE {
        return;
      }
      ghost var m := Map();
      hide Steady, Off, MapOf, MapSize, Distinct, Marked, Holds, CanProgram, Splice, Fits, GoodItems;
      SteadyShape(flash, activeSector, freeOffset, items);
      var pos, lenOld;
      ghost var idx;
      found, pos, lenOld, idx := FindItem(writeSector, key, items);
      if found {
        RewriteFits(flash, activeSector, freeOffset, items, key, len);
        ok := UpdateOrDelete(key, val, len, pos, lenOld, idx);
      }
      if !ok {
        WithoutKey(m, key, Map(), Stored(key, val, len).data);
        ok := Append(key, val, len);
        FitsWithout(m, Map(), key, len);
      }
    }

    /** The existing item is updated in place if the bits allow it, and deleted otherwise. */
    method UpdateOrDelete(key: int, val: Option<seq<byte>>, len: nat, pos: nat, lenOld: nat, ghost idx: nat)
      returns (ok: bool)
      requires Valid() && GoodItems(items) && idx < |items| && items[idx].key == key != KEY_DELETED
      requires key in Map() && Map()[key] == items[idx].data
      requires pos == Off(Start(), items, idx) + 4 && lenOld == |items[idx].data|
      requires val.Some? ==> |val.value| == len
      modifies `flash, `items
      ensures Valid()
      ensures ok <==> InPlace(old(Map()), key, val)
      ensures ok ==> Map() == old(Map())[key := Stored(key, val, len).data]
      ensures !ok ==> Map() == old(Map()) - {key}
    {
      hide Steady, MapOf, CanProgram, Splice;
      ok := false;
      if val.Some? && lenOld == len {
        ghost var data, n := items[idx].data, 0;
        ghost var its := items;
        ok, n := TryInPlace(pos, val.value, idx);
        WholeSplice(data, val.value, n);
        SameOffset(its, items, idx);
      }
      if !ok {
        Tombstone(pos, lenOld, idx);
      }
    }

    lemma SameOffset(its: seq<Item>, its': seq<Item>, idx: nat)
      requires GoodItems(its) && GoodItems(its') && idx < |its| == |its'| && its[..idx] == its'[..idx]
      ensures Off(Start(), its, idx) == Off(Start(), its', idx)
    {
    }

    lemma FitsWithout(m: map<int, seq<byte>>, m': map<int, seq<byte>>, key: int, len: nat)
      ensures Fits(m - {key}, key, len) == Fits(m, key, len)
    {
      assert m - {key} - {key} == m - {key};
    }

    // ------------------------------------------------- norcow_wipe, norcow_init

    /** A blank device of the given geometry. */
    constructor (count: nat, size: nat, header: nat, ver: int)
      requires 2 <= count && size % 4 == 0 && header % 4 == 0 && header + 8 <= size < 0x8000_0000
      requires 0 <= ver < 0x1_0000_0000
      ensures Shape() && sectorCount == count && sectorSize == size && headerLen == header && version == ver
      ensures forall i :: 0 <= i < count ==> StartOf(flash[i], headerLen) == None
    {
      sectorCount, sectorSize, headerLen, version := count, size, header, ver;
      flash := seq(count, _ => Fill(size, 255));
      activeSector, writeSector, activeVersion, freeOffset := 0, 0, 0, 0;
      items := [];
      new;
      forall i | 0 <= i < count ensures StartOf(flash[i], headerLen) == None {
        BlankHasNoStart(flash[i], headerLen);
      }
    }

    /** norcow_wipe */
    method Wipe()
      requires Shape() && activeSector < sectorCount
      modifies this
      ensures Valid() && Map() == map[] && activeSector == old(activeSector)
    {
      hide Erased, Live, Blank, Le32;
      FreshSector(flash[activeSector]);
      EraseSector(activeSector, true);
      var i := 0;
      while i < sectorCount
        invariant 0 <= i <= sectorCount && Shape() && activeSector < sectorCount
        invariant activeSector == old(activeSector)
        invariant Live(flash[activeSector], [])
        invariant forall j :: 0 <= j < i && j != activeSector ==> Blank(flash[j])
      {
        if i != activeSector {
          BlankSector(flash[i]);
          EraseSector(i, false);
        }
        i := i + 1;
      }
      activeVersion := version;
      writeSector := activeSector;
      freeOffset := headerLen + 8;
      items := [];
      WipedSteady(flash, activeSector);
    }

    lemma WipedSteady(fl: seq<seq<byte>>, act: nat)
      requires Geometry() && |fl| == sectorCount && (forall i :: 0 <= i < |fl| ==> |fl[i]| == sectorSize)
      requires act < sectorCount && Live(fl[act], [])
      requires forall j :: 0 <= j < sectorCount && j != act ==> Blank(fl[j])
      ensures Steady(fl, act, Start(), []) && MapOf([]) == map[]
    {
      OffZero(Start(), []);
    }

    ghost predicate Newer(s: seq<byte>)
      requires headerLen + 8 <= |s|
    {
      var start := StartOf(s, headerLen);
      start.Some? && start.value.1 > version
    }

    /** norcow_init, on flash that is in the steady state (in sector `act`, with items `its`),
        that carries no magic at all, or that a newer version has written. */
    method Init(ghost steady: bool, ghost act: nat, ghost its: seq<Item>) returns (found: int)
      requires Shape() && (steady ==> GoodItems(its) && Steady(flash, act, Off(Start(), its, |its|), its))
      requires !steady ==>
                 || (forall i :: 0 <= i < sectorCount ==> StartOf(flash[i], headerLen) == None)
                 || exists i :: 0 <= i < sectorCount && Newer(flash[i])
      modifies this
      ensures Valid() && found == version
      ensures steady ==> flash == old(flash) && activeSector == act && items == its
      ensures !steady ==> Map() == map[]
    {
      if steady {
        OnlyOneStart(flash, act, Off(Start(), its, |its|), its);
        SteadyShape(flash, act, Off(Start(), its, |its|), its);
      }
      hide Steady, StartOf, Off, Holds, Marked, MapOf, GoodItems, Distinct;
      var any := false;
      found := 0;
      activeSector := 0;
      var i := 0;
      while i < sectorCount
        invariant 0 <= i <= sectorCount && Shape() && flash == old(flash)
        invariant steady && i <= act ==> !any && found == 0 && activeSector == 0
        invariant !steady ==> activeSector < sectorCount && (any || found == 0)
        invariant !steady && any ==> exists j :: 0 <= j < i && StartOf(flash[j], headerLen).Some?
        invariant !steady ==> forall j :: 0 <= j < i && Newer(flash[j]) ==> any && found > version
        invariant steady && act < i ==> any && found == activeVersion == version && activeSector == act
      {
        var start := StartOf(flash[i], headerLen);
        if start.Some? {
          activeVersion := start.value.1;
          if activeVersion >= found {
            any := true;
            activeSector := i;
            found := activeVersion;
          }
        }
        i := i + 1;
      }
      if !any || found > version {
        Wipe();
        found := version;
      } else {
        writeSector := activeSector;
        freeOffset := FindFreeOffset(writeSector, its);
        items := its;
      }
    }

    /** In the steady state only the active sector is recognised. */
    lemma OnlyOneStart(fl: seq<seq<byte>>, act: nat, free: nat, its: seq<Item>)
      requires Steady(fl, act, free, its)
      ensures forall i :: 0 <= i < sectorCount && i != act ==> StartOf(fl[i], headerLen) == None
    {
      forall i | 0 <= i < sectorCount && i != act ensures StartOf(fl[i], headerLen) == None {
        BlankHasNoStart(fl[i], headerLen);
      }
    }

    // ------------------------------------------------------- whole runs

    /** What a plain bounded map does: the specification of a run. */
    ghost function SpecStep(m: map<int, seq<byte>>, op: Op): (map<int, seq<byte>>, Outcome)
      requires GoodOp(op)
    {
      match op
      case Set(key, val, len) =>
        if Fits(m, key, len) then (m[key := Stored(key, val, len).data], Done(true)) else (m - {key}, Done(false))
      case Update(key, offset, data) =>
        if key in m && offset + |data| <= |m[key]| then
          var n := Taken(m[key], offset, data);
          (m[key := Splice(m[key], offset, data[..n])], if n < |data| then Halted else Done(true))
        else (m, Done(false))
      case UpdateWord(key, offset, w) =>
        if !(key in m && offset % 4 == 0 && offset < |m[key]|) then (m, Done(false))
        else if !TakesWord(m[key], offset, w) then (m, Halted)
        else (m[key := Splice(m[key], offset, Within(w, offset, |m[key]|))], Done(true))
      case Get(key) => (m, if key in m then Value(m[key]) else Missing)
      case Delete(key) => (m - {key}, Done(key in m))
      case Iterate => (m, Listing(m))
      case Reboot => (m, Done(true))
    }

    ghost function SpecRun(m: map<int, seq<byte>>, ops: seq<Op>): (map<int, seq<byte>>, seq<Outcome>)
      requires forall i :: 0 <= i < |ops| ==> GoodOp(ops[i])
    {
      if ops == [] then (m, [])
      else
        var (m1, outs) := SpecRun(m, ops[..|ops| - 1]);
        var (m2, out) := SpecStep(m1, ops[|ops| - 1]);
        (m2, outs + [out])
    }

    method Execute(op: Op) returns (out: Outcome)
      requires Valid() && GoodOp(op)
      modifies this
      ensures Valid() && (Map(), out) == SpecStep(old(Map()), op)
    {
      hide Steady, MapOf, InPlace, Fits, Stored;
      match op
      case Set(key, val, len) =>
        var ok, found := SetEx(key, val, len);
        out := Done(ok);
      case Get(key) =>
        var found, value := Get(key);
        out := if found then Value(value) else Missing;
      case Delete(key) =>
        var ok := Delete(key);
        out := Done(ok);
      case Update(key, offset, data) =>
        var halted, ok := UpdateBytes(key, offset, data);
        out := if halted then Halted else Done(ok);
      case UpdateWord(key, offset, w) =>
        var halted, ok := UpdateWord(key, offset, w);
        out := if halted then Halted else Done(ok);
      case Iterate =>
        var all := Entries();
        out := Listing(MapOf(all));
      case Reboot =>
        SteadyShape(flash, activeSector, freeOffset, items);
        var v := Init(true, activeSector, items);
        out := Done(true);
    }

    /** Over every run of operations and restarts, the store and a plain map give the same answers. */
    method Run(ops: seq<Op>) returns (outs: seq<Outcome>)
      requires Valid() && forall i :: 0 <= i < |ops| ==> GoodOp(ops[i])
      modifies this
      ensures Valid() && (Map(), outs) == SpecRun(old(Map()), ops)
    {
      hide Steady, MapOf, SpecStep;
      outs := [];
      var i := 0;
      assert ops[..0] == [];
      while i < |ops|
        invariant 0 <= i <= |ops| && Valid()
        invariant (Map(), outs) == SpecRun(old(Map()), ops[..i])
      {
        var out := Execute(ops[i]);
        assert ops[..i + 1][..i] == ops[..i];
        outs := outs + [out];
        i := i + 1;
      }
      assert ops[..|ops|] == ops;
    }

    lemma WithoutKey(m: map<int, seq<byte>>, key: int, m': map<int, seq<byte>>, d: seq<byte>)
      requires m' == m - {key} || (key !in m && m' == m)
      ensures m' == m - {key} && m' - {key} == m - {key} && m'[key := d] == m[key := d]
    {
    }
  }

  /** The operations of a run; a value of None in Set stands for a NULL pointer. */
  datatype Op =
    | Set(key: int, val: Option<seq<byte>>, len: nat)
    | Get(key: int)
    | Update(key: int, offset: nat, data: seq<byte>)
    | UpdateWord(key: int, offset: nat, w: seq<byte>)
    | Delete(key: int)
    | Iterate
    | Reboot

  /** Halted stands for a failed ensure; a listing is compared as a map. */
  datatype Outcome = Done(ok: bool) | Value(data: seq<byte>) | Missing | Listing(all: map<int, seq<byte>>) | Halted

  /** Keys are 16-bit and not one of the two markers, lengths are 16-bit. */
  predicate GoodOp(op: Op)
  {
    match op
    case Set(key, val, len) => 0 < key < KEY_FREE && len < 0x1_0000 && (val.Some? ==> |val.value| == len)
    case Get(key) => 0 < key < KEY_FREE
    case Update(key, _, _) => 0 < key < KEY_FREE
    case UpdateWord(key, _, w) => 0 < key < KEY_FREE && |w| == 4
    case Delete(key) => 0 < key < KEY_FREE
    case Iterate => true
    case Reboot => true
  }

  lemma BlankHasNoStart(s: seq<byte>, header: nat)
    requires header + 8 <= |s| && forall j :: header <= j < |s| ==> s[j] == 255
    ensures StartOf(s, header) == None
  {
    assert s[header..header + 4][0] == 255;
    assert MAGIC[0] == 0x4e && MAGIC_V0[0] == 0x4e;
  }

  lemma WholeSplice(data: seq<byte>, val: seq<byte>, n: nat)
    requires |data| == |val| && n <= |val|
    ensures n == |val| ==> Splice(data, 0, val[..n]) == val
  {
  }

  /** The item a write leaves behind; without a value the data stays erased. */
  ghost function Stored(key: int, val: Option<seq<byte>>, len: nat): (x: Item)
    ensures (val.Some? ==> |val.value| == len) ==> |x.data| == len
  {
    Item(key, if val.Some? then val.value else Fill(len, 255))
  }

  lemma RecordIsItem(key: int, val: Option<seq<byte>>, len: nat)
    requires 0 <= key < KEY_FREE && len < 0x1_0000 && (val.Some? ==> |val.value| == len)
    ensures GoodItem(Stored(key, val, len))
    ensures Record(Prefix(key, len), val, len) == Enc(Stored(key, val, len))
  {
  }

  lemma GoodAppend(its: seq<Item>, x: Item)
    requires GoodItems(its) && GoodItem(x)
    ensures GoodItems(its + [x])
  {
  }

  lemma ByteByByte(s: seq<byte>, pos: nat, val: seq<byte>, i: nat)
    requires pos + |val| <= |s| && i < |val| && CanProgram(s, pos, val[..i])
    ensures Splice(s, pos, val[..i])[pos + i] == s[pos + i]
    ensures Splice(Splice(s, pos, val[..i]), pos + i, [val[i]]) == Splice(s, pos, val[..i + 1])
    ensures Clears(s[pos + i], val[i]) <==> CanProgram(s, pos, val[..i + 1])
    ensures !Clears(s[pos + i], val[i]) ==> !CanProgram(s, pos, val)
  {
    hide Clears;
    SpliceAdjacent(s, pos, val[..i], [val[i]]);
    assert val[..i] + [val[i]] == val[..i + 1];
    assert forall j :: 0 <= j < i ==> val[..i + 1][j] == val[..i][j];
    assert val[..i + 1][i] == val[i];
  }

  /** Where an item's bytes are. */
  lemma ItemFacts(s: seq<byte>, start: nat, items: seq<Item>, idx: nat)
    requires Holds(s, start, items) && idx < |items|
    ensures GoodItems(items) && GoodItem(items[idx])
    ensures var o, it := Off(start, items, idx), items[idx];
            && o % 4 == 0 && o + Size(|it.data|) <= |s| && s[o..o + Size(|it.data|)] == Enc(it)
            && 4 + |it.data| <= Size(|it.data|) == 4 + Align4(|it.data|)
            && s[o + 4..o + 4 + |it.data|] == it.data
            && forall j :: o + 4 + |it.data| <= j < o + Size(|it.data|) ==> s[j] == 0
  {
    OffAligned(start, items, idx);
    ItemBytes(s, start, items, idx);
    hide Holds, EncAll, Off;
    PrefixBytes(s, items[idx], Off(start, items, idx));
    SizeOf(|items[idx].data|);
  }

  /** The bytes of a word that fall inside a value of the given length. */
  function Within(w: seq<byte>, offset: nat, len: nat): (d: seq<byte>)
    requires |w| == 4 && offset < len
    ensures offset + |d| <= len
  {
    if offset + 4 <= len then w else w[..len - offset]
  }

  lemma DataSplice(s: seq<byte>, o: nat, it: Item, off: nat, d: seq<byte>)
    requires GoodItem(it) && o + Size(|it.data|) <= |s| && s[o..o + Size(|it.data|)] == Enc(it)
    requires off + |d| <= |it.data|
    ensures Splice(s, o + 4 + off, d) == Splice(s, o, Enc(Item(it.key, Splice(it.data, off, d))))
  {
    var e, e' := Enc(it), Enc(Item(it.key, Splice(it.data, off, d)));
    var n := Size(|it.data|);
    assert |e| == |e'| == n;
    var sub := s[o..o + n];
    assert forall j :: 0 <= j < n ==> sub[j] == s[o + j] == e[j];
    EncBytes(it);
    EncBytes(Item(it.key, Splice(it.data, off, d)));
    hide Enc, Size, GoodItem;
    var a, b := Splice(s, o + 4 + off, d), Splice(s, o, e');
    forall i | 0 <= i < |s| ensures a[i] == b[i] {
      if o <= i < o + n { assert e[i - o] == s[i]; }
    }
  }

  /** The bytes of an encoding, by position. */
  lemma EncBytes(it: Item)
    requires GoodItem(it)
    ensures var e := Enc(it);
            && (forall j :: 0 <= j < 4 ==> e[j] == Prefix(it.key, |it.data|)[j])
            && (forall j :: 4 <= j < 4 + |it.data| ==> e[j] == it.data[j - 4])
            && (forall j :: 4 + |it.data| <= j < |e| ==> e[j] == 0)
  {
  }

  lemma ProgramData(s: seq<byte>, o: nat, it: Item, off: nat, d: seq<byte>)
    requires o + 4 + |it.data| <= |s| && s[o + 4..o + 4 + |it.data|] == it.data && off + |d| <= |it.data|
    ensures CanProgram(s, o + 4 + off, d) <==> CanProgram(it.data, off, d)
  {
    hide Clears;
    var data := s[o + 4..o + 4 + |it.data|];
    assert forall j :: 0 <= j < |it.data| ==> data[j] == s[o + 4 + j];
  }

  /** How many of the bytes can be written before one would need a bit set. */
  function Taken(s: seq<byte>, offset: nat, data: seq<byte>): (n: nat)
    requires offset + |data| <= |s|
    ensures n <= |data|
    decreases |data|
  {
    if data == [] || !Clears(s[offset], data[0]) then 0 else 1 + Taken(s, offset + 1, data[1..])
  }

  lemma {:induction false} TakenIs(s: seq<byte>, offset: nat, data: seq<byte>, n: nat)
    requires offset + |data| <= |s| && n <= |data| && CanProgram(s, offset, data[..n])
    requires n < |data| ==> !Clears(s[offset + n], data[n])
    ensures Taken(s, offset, data) == n
    decreases |data|
  {
    if n > 0 {
      var d := data[..n];
      assert d[0] == data[0] && Clears(s[offset + 0], d[0]);
      var e := data[1..][..n - 1];
      forall i | 0 <= i < n - 1 ensures Clears(s[offset + 1 + i], e[i]) {
        assert e[i] == d[i + 1];
      }
      TakenIs(s, offset + 1, data[1..], n - 1);
    }
  }

  lemma TakenInItem(s: seq<byte>, o: nat, it: Item, off: nat, data: seq<byte>, n: nat)
    requires o + 4 + |it.data| <= |s| && s[o + 4..o + 4 + |it.data|] == it.data && off + |data| <= |it.data|
    requires n <= |data| && CanProgram(s, o + 4 + off, data[..n])
    requires n < |data| ==> !Clears(s[o + 4 + off + n], data[n])
    ensures Taken(it.data, off, data) == n
  {
    hide Clears;
    ProgramData(s, o, it, off, data[..n]);
    var d := s[o + 4..o + 4 + |it.data|];
    assert n < |data| ==> d[off + n] == s[o + 4 + off + n];
    TakenIs(it.data, off, data, n);
  }

  /** Writing the word at the offset only clears bits; behind the value lie zeros. */
  predicate TakesWord(v: seq<byte>, offset: nat, w: seq<byte>)
    requires |w| == 4 && offset < |v|
  {
    CanProgram(v, offset, Within(w, offset, |v|)) && forall j :: |v| - offset <= j < 4 ==> w[j] == 0
  }

  lemma WordReachesPadding(s: seq<byte>, start: nat, items: seq<Item>, idx: nat, offset: nat, w: seq<byte>)
    requires Holds(s, start, items) && idx < |items| && |w| == 4
    requires offset % 4 == 0 && offset < |items[idx].data|
    ensures var pos := Off(start, items, idx) + 4 + offset;
            && pos % 4 == 0 && pos + 4 <= |s| && (CanProgram(s, pos, w) <==> TakesWord(items[idx].data, offset, w))
            && (CanProgram(s, pos, w) ==> Splice(s, pos, w) == Splice(s, pos, Within(w, offset, |items[idx].data|)))
  {
    hide Holds, Off, Enc, Size, EncAll, CanProgram, Splice;
    ItemFacts(s, start, items, idx);
    var o, it := Off(start, items, idx), items[idx];
    var d := Within(w, offset, |it.data|);
    ProgramData(s, o, it, offset, d);
    PaddedWord(s, o + 4 + offset, w, d);
  }

  lemma PaddedWord(s: seq<byte>, pos: nat, w: seq<byte>, d: seq<byte>)
    requires pos + 4 <= |s| && |w| == 4 && d <= w
    requires forall j :: pos + |d| <= j < pos + 4 ==> s[j] == 0
    ensures CanProgram(s, pos, w) <==> CanProgram(s, pos, d) && forall j :: |d| <= j < 4 ==> w[j] == 0
    ensures CanProgram(s, pos, w) ==> Splice(s, pos, w) == Splice(s, pos, d)
  {
    forall j | |d| <= j < 4 ensures Clears(s[pos + j], w[j]) <==> w[j] == 0 {
      ClearsErased(w[j]);
    }
    hide Clears;
    assert forall j :: 0 <= j < |d| ==> w[j] == d[j];
    if CanProgram(s, pos, w) {
      var a, b := Splice(s, pos, w), Splice(s, pos, d);
      forall i | 0 <= i < |s| ensures a[i] == b[i] {
        if pos + |d| <= i < pos + 4 { assert w[i - pos] == 0; }
      }
    }
  }

  lemma OffAfterStart(start: nat, items: seq<Item>, i: nat)
    requires GoodItems(items) && i <= |items|
    ensures Off(start, items, i) >= start
  {
  }

  lemma MarkKept(s: seq<byte>, header: nat, o: nat, b: seq<byte>)
    requires header + 8 <= o && o + |b| <= |s|
    ensures Splice(s, o, b)[header..header + 4] == s[header..header + 4]
    ensures Splice(s, o, b)[header + 4..header + 8] == s[header + 4..header + 8]
  {
  }

  /** The prefix word of a tombstone only clears bits. */
  lemma TombstoneBytes(s: seq<byte>, start: nat, items: seq<Item>, idx: nat)
    requires Holds(s, start, items) && idx < |items|
    ensures var o, len := Off(start, items, idx), |items[idx].data|;
            && GoodItem(Item(KEY_DELETED, Fill(len, 0)))
            && len < 0x1_0000 && o % 4 == 0 && o + Size(len) <= |s| && Size(len) == 4 + Align4(len)
            && CanProgram(s, o, Prefix(KEY_DELETED, len))
            && (forall j :: o + 4 + len <= j < o + Size(len) ==> s[j] == 0)
  {
    var o, it := Off(start, items, idx), items[idx];
    OffAligned(start, items, idx);
    ItemBytes(s, start, items, idx);
    PrefixBytes(s, it, o);
    PrefixKept(s, o, it);
    ZerosAlwaysFit(s, o, Prefix(KEY_DELETED, |it.data|));
    SizeOf(|it.data|);
  }

  lemma SizeOf(len: nat)
    ensures Size(len) == 4 + Align4(len)
  {
  }

  lemma PrefixKept(s: seq<byte>, o: nat, it: Item)
    requires GoodItem(it) && o + Size(|it.data|) <= |s| && s[o..o + Size(|it.data|)] == Enc(it)
    ensures s[o + 2] == |it.data| % 256 && s[o + 3] == |it.data| / 256
  {
    var sub := s[o..o + Size(|it.data|)];
    assert sub[2] == s[o + 2] && sub[3] == s[o + 3];
  }

  lemma TombstoneDone(s: seq<byte>, o: nat, len: nat)
    requires len < 0x1_0000 && o + Size(len) <= |s| && Size(len) == 4 + Align4(len)
    ensures Splice(Splice(s, o, Prefix(KEY_DELETED, len)), o + 4, Fill(Align4(len), 0))
         == Splice(s, o, Enc(Item(KEY_DELETED, Fill(len, 0))))
  {
    SpliceAdjacent(s, o, Prefix(KEY_DELETED, len), Fill(Align4(len), 0));
    assert Fill(len, 0) + Fill(Size(len) - PREFIX - len, 0) == Fill(Align4(len), 0);
    Reassoc(Prefix(KEY_DELETED, len), Fill(len, 0), Fill(Size(len) - PREFIX - len, 0));
  }

  lemma ZeroWordFits(s: seq<byte>, pos: nat, zeros: seq<byte>, n: nat)
    requires pos + |zeros| <= |s| && n + 4 <= |zeros| && forall i :: 0 <= i < |zeros| ==> zeros[i] == 0
    ensures CanProgram(Splice(s, pos, zeros[..n]), pos + n, [0, 0, 0, 0])
    ensures Splice(Splice(s, pos, zeros[..n]), pos + n, [0, 0, 0, 0]) == Splice(s, pos, zeros[..n + 4])
  {
    ZerosAlwaysFit(Splice(s, pos, zeros[..n]), pos + n, [0, 0, 0, 0]);
    SpliceAdjacent(s, pos, zeros[..n], [0, 0, 0, 0]);
    hide Splice, CanProgram;
    assert zeros[..n] + [0, 0, 0, 0] == zeros[..n + 4];
  }

  lemma NoFreeKey(items: seq<Item>)
    requires GoodItems(items)
    ensures KEY_FREE !in MapOf(items)
  {
    MapAbsent(items, KEY_FREE);
  }

  /** A marked sector is recognised. */
  lemma StartOfMarked(s: seq<byte>, header: nat, version: int)
    requires header + 8 <= |s| && 0 <= version < 0x1_0000_0000
    requires s[header..header + 4] == MAGIC && s[header + 4..header + 8] == Le32(0xFFFF_FFFF - version)
    ensures StartOf(s, header) == Some((header + 8, version))
  {
    Le32RoundTrip(0xFFFF_FFFF - version);
  }

  lemma OffZero(start: nat, items: seq<Item>)
    requires GoodItems(items)
    ensures Off(start, items, 0) == start
  {
    assert items[..0] == [];
  }

  lemma OffPositive(start: nat, items: seq<Item>)
    requires GoodItems(items) && start > 0
    ensures forall i :: 0 <= i <= |items| ==> Off(start, items, i) > 0
  {
  }

  /** What one read returns during a walk. */
  lemma ReadNext(s: seq<byte>, start: nat, items: seq<Item>, i: nat)
    requires Holds(s, start, items) && i <= |items|
    ensures GoodItems(items)
    ensures i == |items| ==> ReadItem(s, Off(start, items, i)) == None
    ensures i < |items| ==>
              var o := Off(start, items, i);
              && ReadItem(s, o) == Some(Read(items[i].key, o + 4, |items[i].data|, Off(start, items, i + 1)))
              && o + 4 + |items[i].data| <= |s| && s[o + 4..o + 4 + |items[i].data|] == items[i].data
  {
    if i == |items| {
      ReadFree(s, start, items);
    } else {
      ReadAt(s, start, items, i);
    }
  }

  lemma AllPassed(items: seq<Item>)
    ensures items[..|items|] == items && MapOf(LiveItems(items)) == MapOf(items)
  {
    LiveMap(items);
  }

  lemma {:induction false} LivePrefix(items: seq<Item>, j: nat)
    requires j <= |items|
    ensures LiveItems(items[..j]) <= LiveItems(items)
    decreases |items| - j
  {
    if j < |items| {
      LiveStep(items, j);
      LivePrefix(items, j + 1);
    } else {
      assert items[..j] == items;
    }
  }

  /** The live item that comes next is new to the map. */
  lemma PassedNext(items: seq<Item>, j: nat)
    requires Distinct(items) && j < |items| && items[j].key != KEY_DELETED
    ensures LiveItems(items[..j + 1]) == LiveItems(items[..j]) + [items[j]]
    ensures MapOf(LiveItems(items[..j + 1])) == MapOf(LiveItems(items[..j]))[items[j].key := items[j].data]
    ensures items[j].key !in MapOf(LiveItems(items[..j]))
  {
    LiveStep(items, j);
    LiveMap(items[..j]);
    MapAbsent(items[..j], items[j].key);
    var l := LiveItems(items[..j]);
    assert (l + [items[j]])[..|l|] == l;
  }

  /** The live items are the entries of the map, each once. */
  lemma ListedOnce(items: seq<Item>)
    requires Distinct(items)
    ensures var all, m := LiveItems(items), MapOf(items);
            && MapOf(all) == m && |all| == |m|
            && (forall i, j :: 0 <= i < j < |all| ==> all[i].key != all[j].key)
            && (forall i :: 0 <= i < |all| ==> all[i].key in m && m[all[i].key] == all[i].data)
  {
    var all := LiveItems(items);
    LiveMap(items);
    LiveDistinct(items);
    MapCount(all);
    forall i | 0 <= i < |all| ensures all[i].key in MapOf(all) && MapOf(all)[all[i].key] == all[i].data {
      MapComplete(all, i);
    }
  }

  lemma {:induction false} MapCount(items: seq<Item>)
    requires Distinct(items) && forall i :: 0 <= i < |items| ==> items[i].key != KEY_DELETED
    ensures |MapOf(items)| == |items|
  {
    if items != [] {
      var n := |items| - 1;
      MapCount(items[..n]);
      MapAbsent(items[..n], items[n].key);
      MapGrows(MapOf(items[..n]), items[n].key, items[n].data);
    }
  }

  lemma MapGrows(m: map<int, seq<byte>>, k: int, d: seq<byte>)
    requires k !in m
    ensures |m[k := d]| == |m| + 1
  {
    var m' := m[k := d];
    assert m'.Keys == m.Keys + {k};
    assert |m'| == |m'.Keys| && |m| == |m.Keys|;
  }

  lemma AlignedEnd(offset: nat, size: nat)
    requires offset <= size && size % 4 == 0
    ensures Align4(offset) <= size
  {
  }

  lemma WordGoesOn(len: nat, n: nat)
    requires n < len && n % 4 == 0
    ensures n + 4 <= Align4(len) && (n + 4) % 4 == 0
  {
  }

  lemma WordsEnd(len: nat, n: nat)
    requires len <= n <= Align4(len) && n % 4 == 0
    ensures n == Align4(len)
  {
  }

  lemma PadGoesOn(offset: nat, i: nat)
    requires (offset + i) % 4 != 0 && i <= Align4(offset) - offset
    ensures i < Align4(offset) - offset
  {
  }

  lemma PadEnds(offset: nat, i: nat)
    requires (offset + i) % 4 == 0 && i <= Align4(offset) - offset
    ensures i == Align4(offset) - offset
  {
  }

  /** The bytes norcow_write leaves behind. */
  ghost function Record(prefix: seq<byte>, data: Option<seq<byte>>, len: nat): (r: seq<byte>)
    requires |prefix| == 4 && (data.Some? ==> |data.value| == len)
    ensures |r| == Size(len)
  {
    prefix + (if data.Some? then data.value else Fill(len, 255)) + Fill(Size(len) - PREFIX - len, 0)
  }

  lemma RecordFits(s: seq<byte>, offset: nat, len: nat)
    requires offset % 4 == 0 && |s| % 4 == 0 && offset + PREFIX + len <= |s|
    ensures offset + Size(len) <= |s| && Align4(offset + PREFIX + len) == offset + Size(len)
  {
    AlignAt(offset, len);
    AlignedEnd(offset + PREFIX + len, |s|);
    hide Align4, Size;
  }

  lemma StillErased(s: seq<byte>, offset: nat, prefix: seq<byte>, data: seq<byte>)
    requires offset + |prefix| + |data| <= |s| && forall j :: offset <= j < |s| ==> s[j] == 255
    ensures CanProgram(Splice(s, offset, prefix), offset + |prefix|, data)
  {
    ErasedTakesAny(Splice(s, offset, prefix), offset + |prefix|, data);
  }

  lemma SkippedData(s: seq<byte>, offset: nat, prefix: seq<byte>, len: nat)
    requires offset + |prefix| + len <= |s| && forall j :: offset <= j < |s| ==> s[j] == 255
    ensures var s1 := Splice(s, offset, prefix);
            Splice(s1, offset + |prefix|, Fill(len, 255)) == s1
  {
  }

  lemma RecordPieces(s: seq<byte>, offset: nat, prefix: seq<byte>, data: Option<seq<byte>>, len: nat)
    requires |prefix| == 4 && offset % 4 == 0 && |s| % 4 == 0 && offset + PREFIX + len <= |s|
    requires data.Some? ==> |data.value| == len
    ensures offset + Size(len) <= |s| && Align4(offset + PREFIX + len) == offset + Size(len)
    ensures var body := if data.Some? then data.value else Fill(len, 255);
            var s2 := Splice(Splice(s, offset, prefix), offset + 4, body);
            Splice(s2, offset + PREFIX + len, Fill(Align4(offset + PREFIX + len) - (offset + PREFIX + len), 0))
              == Splice(s, offset, Record(prefix, data, len))
  {
    var body := if data.Some? then data.value else Fill(len, 255);
    RecordFits(s, offset, len);
    SpliceAdjacent(s, offset, prefix, body);
    SpliceAdjacent(s, offset, prefix + body, Fill(Size(len) - PREFIX - len, 0));
  }

  lemma NextWordFits(s: seq<byte>, header: seq<byte>, i: nat)
    requires |header| <= |s| && 4 * i + 4 <= |header| && forall j :: 0 <= j < |s| ==> s[j] == 255
    ensures CanProgram(Splice(s, 0, header[..4 * i]), 4 * i, header[4 * i..4 * i + 4])
    ensures Splice(Splice(s, 0, header[..4 * i]), 4 * i, header[4 * i..4 * i + 4]) == Splice(s, 0, header[..4 * (i + 1)])
  {
    var n := 4 * i;
    var a, w := header[..n], header[n..n + 4];
    StillErased(s, 0, a, w);
    SpliceAdjacent(s, 0, a, w);
    hide Splice, CanProgram;
    assert a + w == header[..n + 4];
    assert n + 4 == 4 * (i + 1);
  }

  lemma ErasedPieces(s: seq<byte>, header: seq<byte>, v: seq<byte>)
    requires |header| + 8 <= |s| && |header| % 4 == 0 && |v| == 4
    requires s == Splice(Fill(|s|, 255), 0, header)
    ensures s == header + Fill(|s| - |header|, 255)
    ensures s[..|header|] + MAGIC + v + s[|header| + 8..] == header + MAGIC + v + Fill(|s| - |header| - 8, 255)
    ensures Size(0) == 4
    ensures |Record(MAGIC, None, 0)| == 4
    ensures forall j :: |header| + 4 <= j < |s| ==> Splice(s, |header|, Record(MAGIC, None, 0))[j] == 255
  {
  }

  lemma MagicWritten(s: seq<byte>, header: nat, v: seq<byte>)
    requires header % 4 == 0 && header + 8 <= |s| && |s| % 4 == 0 && |v| == 4
    ensures Splice(Splice(s, header, Record(MAGIC, None, 0)), header + 4, Record(v, None, 0))
         == s[..header] + MAGIC + v + s[header + 8..]
  {
    assert Record(MAGIC, None, 0) == MAGIC && Record(v, None, 0) == v;
  }

  /** Every bit of the new bytes that is one is one already. */
  predicate CanProgram(s: seq<byte>, offset: nat, data: seq<byte>)
  {
    offset + |data| <= |s| && forall i :: 0 <= i < |data| ==> Clears(s[offset + i], data[i])
  }

  lemma NextByteFits(s: seq<byte>, offset: nat, data: seq<byte>, i: nat)
    requires CanProgram(s, offset, data) && i < |data|
    ensures offset + |data| <= |s|
    ensures Clears(Splice(s, offset, data[..i])[offset + i], data[i])
    ensures Splice(Splice(s, offset, data[..i]), offset + i, [data[i]]) == Splice(s, offset, data[..i + 1])
  {
    SpliceAdjacent(s, offset, data[..i], [data[i]]);
    assert data[..i] + [data[i]] == data[..i + 1];
  }

  lemma ErasedTakesAny(s: seq<byte>, offset: nat, data: seq<byte>)
    requires offset + |data| <= |s| && forall i :: offset <= i < offset + |data| ==> s[i] == 255
    ensures CanProgram(s, offset, data)
  {
    forall i | 0 <= i < |data| ensures Clears(s[offset + i], data[i]) {
      ClearsErased(data[i]);
    }
  }

  lemma ZerosAlwaysFit(s: seq<byte>, offset: nat, data: seq<byte>)
    requires offset + |data| <= |s| && forall i :: 0 <= i < |data| ==> data[i] == 0 || data[i] == s[offset + i]
    ensures CanProgram(s, offset, data)
  {
    forall i | 0 <= i < |data| ensures Clears(s[offset + i], data[i]) {
      ClearsErased(s[offset + i]);
    }
  }
}
