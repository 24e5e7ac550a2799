/** The byte layout of a norcow sector (storage/norcow.c): a header, a magic word,
    the complemented version, a run of items, and erased flash up to the end.

    An item is a key and its data, stored as key and length (16 bits each, little
    endian), the data, and zeros up to a multiple of four bytes.  A deleted item
    keeps its length, has key 0 and only zeros for data. */
module NorcowLayout {
  import opened Options

  type byte = x: int | 0 <= x < 256

  const KEY_FREE: int := 0xFFFF
  const KEY_DELETED: int := 0
  const PREFIX: int := 4

  datatype Item = Item(key: int, data: seq<byte>)

  /** What read_item reports: the key, where the data starts, its length, and the next item. */
  datatype Read = Read(key: int, pos: nat, len: nat, next: nat)

  // ------------------------------------------------------------- flash bits

  function And(a: nat, b: nat): nat
  {
    if a == 0 || b == 0 then 0 else (if a % 2 == 1 && b % 2 == 1 then 1 else 0) + 2 * And(a / 2, b / 2)
  }

  /** NOR flash only turns ones into zeros: a byte can be programmed to v exactly when old & v == v. */
  predicate Clears(old_: byte, v: byte)
  {
    And(old_, v) == v
  }

  lemma {:induction false} AndSelf(a: nat)
    ensures And(a, a) == a
  {
    if a > 0 {
      AndSelf(a / 2);
    }
  }

  /** An erased byte takes any value, any byte takes zero, and a byte takes itself. */
  lemma ClearsErased(v: byte)
    ensures Clears(255, v) && Clears(v, 0) && Clears(v, v)
  {
    AndSelf(v);
    AndOnes(v);
  }

  lemma AndOnes(v: byte)
    ensures And(255, v) == v
  {
    assert AllOnes(255);
    AndAllOnes(255, v);
  }

  /** 2^n - 1 for some n. */
  predicate AllOnes(k: nat)
  {
    k == 0 || (k % 2 == 1 && AllOnes(k / 2))
  }

  lemma {:induction false} AndAllOnes(k: nat, v: nat)
    requires AllOnes(k) && v <= k
    ensures And(k, v) == v
  {
    if v > 0 {
      AndAllOnes(k / 2, v / 2);
    }
  }

  // ------------------------------------------------------------------ items

  function Align4(n: nat): (r: nat)
    ensures r % 4 == 0 && n <= r < n + 4
  {
    (n + 3) / 4 * 4
  }

  function Fill(n: nat, b: byte): (s: seq<byte>)
    ensures |s| == n && forall i :: 0 <= i < n ==> s[i] == b
  {
    seq(n, _ => b)
  }

  /** Keys and lengths are 16-bit words; key 0xFFFF marks free space. */
  predicate GoodItem(it: Item)
  {
    0 <= it.key < KEY_FREE && |it.data| < 0x1_0000
  }

  predicate GoodItems(items: seq<Item>)
  {
    forall i :: 0 <= i < |items| ==> GoodItem(items[i])
  }

  /** The space an item takes, prefix and padding included. */
  function Size(len: nat): (r: nat)
    ensures r % 4 == 0 && PREFIX + len <= r < PREFIX + len + 4
  {
    Align4(PREFIX + len)
  }

  function Prefix(key: int, len: int): (s: seq<byte>)
    requires 0 <= key < 0x1_0000 && 0 <= len < 0x1_0000
    ensures |s| == 4
  {
    [key % 256, key / 256, len % 256, len / 256]
  }

  function Enc(it: Item): (s: seq<byte>)
    requires GoodItem(it)
    ensures |s| == Size(|it.data|)
  {
    Prefix(it.key, |it.data|) + it.data + Fill(Size(|it.data|) - PREFIX - |it.data|, 0)
  }

  function EncAll(items: seq<Item>): (s: seq<byte>)
    requires GoodItems(items)
    ensures |s| % 4 == 0
  {
    if items == [] then [] else EncAll(items[..|items| - 1]) + Enc(items[|items| - 1])
  }

  lemma {:induction false} EncAllStep(items: seq<Item>, i: nat)
    requires GoodItems(items) && i < |items|
    ensures EncAll(items[..i + 1]) == EncAll(items[..i]) + Enc(items[i])
  {
    assert items[..i + 1][..i] == items[..i];
  }

  lemma SplitSlices(items: seq<Item>, i: nat)
    requires i < |items|
    ensures var n := |items| - 1;
            && items[..n][..i] == items[..i] && items[..n + 1] == items
            && items[i..][..n - i] == items[..n][i..] && items[i..][..n - i + 1] == items[i..]
  {
  }

  /** The encoding splits at any item. */
  lemma {:induction false} EncAllSplit(items: seq<Item>, i: nat)
    requires GoodItems(items) && i <= |items|
    ensures EncAll(items) == EncAll(items[..i]) + EncAll(items[i..])
  {
    if i == |items| {
      assert items[..i] == items && items[i..] == [];
    } else {
      hide EncAll, Enc, Size, GoodItem;
      var n := |items| - 1;
      var t, u := items[..n], items[i..];
      SplitSlices(items, i);
      EncAllSplit(t, i);
      EncAllStep(items, n);
      EncAllStep(u, n - i);
      Reassoc(EncAll(items[..i]), EncAll(t[i..]), Enc(items[n]));
    }
  }

  lemma Reassoc(a: seq<byte>, b: seq<byte>, c: seq<byte>)
    ensures (a + b) + c == a + (b + c)
  {
  }

  // ---------------------------------------------------------------- reading

  function Word(lo: byte, hi: byte): nat
  {
    (lo as int) + 256 * (hi as int)
  }

  /** read_item: fails past the end of the sector, at free space, or when the data does not fit. */
  function ReadItem(s: seq<byte>, offset: nat): Option<Read>
  {
    if offset + 2 > |s| then None
    else
      var key := Word(s[offset], s[offset + 1]);
      if key == KEY_FREE then None
      else if offset + 4 > |s| then None
      else
        var len := Word(s[offset + 2], s[offset + 3]);
        if offset + 4 + len > |s| then None
        else Some(Read(key, offset + 4, len, Align4(offset + 4 + len)))
  }

  /** A sector holds the items from `start` on and erased flash behind them. */
  ghost predicate Holds(s: seq<byte>, start: nat, items: seq<Item>)
  {
    && GoodItems(items)
    && start % 4 == 0 && |s| % 4 == 0
    && start + |EncAll(items)| <= |s|
    && s[start..start + |EncAll(items)|] == EncAll(items)
    && forall i :: start + |EncAll(items)| <= i < |s| ==> s[i] == 255
  }

  /** Where item i starts; for i == |items| the free offset. */
  ghost function Off(start: nat, items: seq<Item>, i: nat): (r: nat)
    requires GoodItems(items) && i <= |items|
  {
    start + |EncAll(items[..i])|
  }

  lemma OffStep(start: nat, items: seq<Item>, i: nat)
    requires GoodItems(items) && i < |items|
    ensures Off(start, items, i + 1) == Off(start, items, i) + Size(|items[i].data|)
    ensures Off(start, items, i + 1) <= Off(start, items, |items|)
    ensures Off(start, items, |items|) == start + |EncAll(items)|
  {
    EncAllStep(items, i);
    EncAllSplit(items, i + 1);
    assert items[..|items|] == items;
  }

  /** The bytes of item i. */
  lemma ItemBytes(s: seq<byte>, start: nat, items: seq<Item>, i: nat)
    requires Holds(s, start, items) && i < |items|
    ensures Off(start, items, i + 1) <= |s|
    ensures Off(start, items, i + 1) == Off(start, items, i) + Size(|items[i].data|)
    ensures s[Off(start, items, i)..Off(start, items, i + 1)] == Enc(items[i])
  {
    hide EncAll, Enc, Size;
    OffStep(start, items, i);
    EncAllStep(items, i);
    EncAllSplit(items, i + 1);
    var a, b, c := EncAll(items[..i]), Enc(items[i]), EncAll(items[i + 1..]);
    Middle(s[start..start + |EncAll(items)|], a, b, c);
    SubSlice(s, start, start + |EncAll(items)|, |a|, |a| + |b|);
  }

  lemma Middle(t: seq<byte>, a: seq<byte>, b: seq<byte>, c: seq<byte>)
    requires t == a + b + c
    ensures t[|a|..|a| + |b|] == b
  {
  }

  lemma SubSlice(s: seq<byte>, lo: nat, hi: nat, a: nat, b: nat)
    requires lo <= hi <= |s| && a <= b <= hi - lo
    ensures s[lo..hi][a..b] == s[lo + a..lo + b]
  {
    var t := s[lo..hi];
    assert forall i :: 0 <= i < hi - lo ==> t[i] == s[lo + i];
  }

  lemma PrefixBytes(s: seq<byte>, it: Item, o: nat)
    requires GoodItem(it) && o + Size(|it.data|) <= |s| && s[o..o + Size(|it.data|)] == Enc(it)
    ensures Word(s[o], s[o + 1]) == it.key && Word(s[o + 2], s[o + 3]) == |it.data|
    ensures s[o + 4..o + 4 + |it.data|] == it.data
    ensures forall j :: o + 4 + |it.data| <= j < o + Size(|it.data|) ==> s[j] == 0
  {
    var e := Enc(it);
    var n := Size(|it.data|);
    var sub := s[o..o + n];
    assert forall j :: 0 <= j < n ==> sub[j] == s[o + j];
    assert e[0] == it.key % 256 && e[1] == it.key / 256 && e[2] == |it.data| % 256 && e[3] == |it.data| / 256;
    assert e[4..4 + |it.data|] == it.data;
    assert s[o + 4..o + 4 + |it.data|] == sub[4..4 + |it.data|];
    forall j | o + 4 + |it.data| <= j < o + n ensures s[j] == 0 {
      assert s[j] == sub[j - o] == e[j - o];
    }
  }

  /** Reading at an item boundary returns that item. */
  lemma ReadAt(s: seq<byte>, start: nat, items: seq<Item>, i: nat)
    requires Holds(s, start, items) && i < |items|
    ensures var o := Off(start, items, i);
            var it := items[i];
            && ReadItem(s, o) == Some(Read(it.key, o + 4, |it.data|, Off(start, items, i + 1)))
            && o + 4 + |it.data| <= |s| && s[o + 4..o + 4 + |it.data|] == it.data
            && o % 4 == 0
  {
    OffAligned(start, items, i);
    ItemBytes(s, start, items, i);
    hide EncAll, Enc, Size, Align4, Off;
    var o := Off(start, items, i);
    PrefixBytes(s, items[i], o);
    AlignAt(o, |items[i].data|);
  }

  lemma OffAligned(start: nat, items: seq<Item>, i: nat)
    requires GoodItems(items) && i <= |items| && start % 4 == 0
    ensures Off(start, items, i) % 4 == 0
  {
  }

  lemma AlignAt(o: nat, len: nat)
    requires o % 4 == 0
    ensures Align4(o + 4 + len) == o + Size(len)
  {
  }

  /** Reading at the free offset fails. */
  lemma ReadFree(s: seq<byte>, start: nat, items: seq<Item>)
    requires Holds(s, start, items)
    ensures ReadItem(s, Off(start, items, |items|)) == None
  {
    assert items[..|items|] == items;
  }

  /** The layout by example: key 0x0201 with five bytes of data. */
  lemma ItemByExample(d: seq<byte>)
    requires |d| == 5
    ensures GoodItem(Item(0x0201, d)) && Enc(Item(0x0201, d)) == [0x01, 0x02, 0x05, 0x00] + d + [0, 0, 0]
  {
    assert Fill(3, 0) == [0, 0, 0];
  }
}
