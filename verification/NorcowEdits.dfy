/** How writing bytes into a sector changes the items it holds, and the map the
    items stand for. */
module NorcowEdits {
  import opened NorcowLayout

  /** b written over s at offset o. */
  function Splice(s: seq<byte>, o: nat, b: seq<byte>): (r: seq<byte>)
    requires o + |b| <= |s|
    ensures |r| == |s|
    ensures forall i :: 0 <= i < |s| ==> r[i] == if o <= i < o + |b| then b[i - o] else s[i]
  {
    s[..o] + b + s[o + |b|..]
  }

  lemma SpliceNothing(s: seq<byte>, o: nat)
    requires o <= |s|
    ensures Splice(s, o, []) == s
  {
  }

  /** Two adjacent writes are one. */
  lemma SpliceAdjacent(s: seq<byte>, o: nat, a: seq<byte>, b: seq<byte>)
    requires o + |a| + |b| <= |s|
    ensures Splice(Splice(s, o, a), o + |a|, b) == Splice(s, o, a + b)
  {
  }

  /** Replacing item i by one of the same size. */
  lemma EncAllReplace(items: seq<Item>, i: nat, x: Item)
    requires GoodItems(items) && i < |items| && GoodItem(x) && |x.data| == |items[i].data|
    ensures GoodItems(items[i := x])
    ensures EncAll(items) == EncAll(items[..i]) + Enc(items[i]) + EncAll(items[i + 1..])
    ensures EncAll(items[i := x]) == EncAll(items[..i]) + Enc(x) + EncAll(items[i + 1..])
  {
    var t := items[i := x];
    hide EncAll, Enc, Size;
    assert GoodItems(t);
    EncAllSplit(items, i + 1);
    EncAllStep(items, i);
    EncAllSplit(t, i + 1);
    EncAllStep(t, i);
    assert t[..i] == items[..i] && t[i + 1..] == items[i + 1..];
  }

  lemma ReplaceBytes(a: seq<byte>, b: seq<byte>, b': seq<byte>, c: seq<byte>, s: seq<byte>, start: nat)
    requires |b| == |b'| && start + |a| + |b| + |c| <= |s|
    requires s[start..start + |a| + |b| + |c|] == a + b + c
    ensures var s' := Splice(s, start + |a|, b');
            s'[start..start + |a| + |b| + |c|] == a + b' + c
  {
    var s' := Splice(s, start + |a|, b');
    var n := |a| + |b| + |c|;
    var t, t' := s[start..start + n], s'[start..start + n];
    assert forall j :: 0 <= j < n ==> t[j] == s[start + j] && t'[j] == s'[start + j];
    assert forall j :: 0 <= j < n ==> t[j] == (a + b + c)[j];
    assert t' == a + b' + c;
  }

  lemma SameSize(it: Item, x: Item)
    requires GoodItem(it) && GoodItem(x) && |x.data| == |it.data|
    ensures |Enc(it)| == |Enc(x)|
  {
  }

  /** Overwriting item i in place. */
  lemma HoldsReplace(s: seq<byte>, start: nat, items: seq<Item>, i: nat, x: Item)
    requires Holds(s, start, items) && i < |items| && GoodItem(x) && |x.data| == |items[i].data|
    ensures Off(start, items, i) + |Enc(x)| <= |s|
    ensures Holds(Splice(s, Off(start, items, i), Enc(x)), start, items[i := x])
    ensures Off(start, items[i := x], |items|) == Off(start, items, |items|)
  {
    hide EncAll, Enc, Size, GoodItem;
    EncAllReplace(items, i, x);
    SameSize(items[i], x);
    var a, b, b', c := EncAll(items[..i]), Enc(items[i]), Enc(x), EncAll(items[i + 1..]);
    ReplaceBytes(a, b, b', c, s, start);
    assert items[..|items|] == items && items[i := x][..|items|] == items[i := x];
  }

  /** Writing an item at the free offset. */
  lemma HoldsAppend(s: seq<byte>, start: nat, items: seq<Item>, x: Item)
    requires Holds(s, start, items) && GoodItem(x)
    requires Off(start, items, |items|) + Size(|x.data|) <= |s|
    ensures Off(start, items, |items|) + |Enc(x)| <= |s|
    ensures Holds(Splice(s, Off(start, items, |items|), Enc(x)), start, items + [x])
    ensures Off(start, items + [x], |items| + 1) == Off(start, items, |items|) + Size(|x.data|)
  {
    var t := items + [x];
    EncAllStep(t, |items|);
    assert t[..|items|] == items && t[..|items| + 1] == t && items[..|items|] == items;
    hide EncAll, Enc, Size, GoodItem;
    AppendBytes(EncAll(items), Enc(x), s, start);
  }

  lemma AppendBytes(a: seq<byte>, b: seq<byte>, s: seq<byte>, start: nat)
    requires start + |a| + |b| <= |s| && s[start..start + |a|] == a
    ensures Splice(s, start + |a|, b)[start..start + |a| + |b|] == a + b
  {
    var s' := Splice(s, start + |a|, b);
    var t, t' := s[start..start + |a|], s'[start..start + |a| + |b|];
    assert forall j :: 0 <= j < |a| ==> t[j] == s[start + j] && t'[j] == s'[start + j];
    assert t' == a + b;
  }

  // ------------------------------------------------------------- the abstract map

  /** Live keys occur once. */
  ghost predicate Distinct(items: seq<Item>)
  {
    forall i, j :: 0 <= i < j < |items| && items[i].key == items[j].key ==> items[i].key == KEY_DELETED
  }

  /** The map a sector stands for. */
  function MapOf(items: seq<Item>): map<int, seq<byte>>
  {
    if items == [] then map[]
    else
      var m, it := MapOf(items[..|items| - 1]), items[|items| - 1];
      if it.key == KEY_DELETED then m else m[it.key := it.data]
  }

  lemma {:induction false} MapComplete(items: seq<Item>, i: nat)
    requires Distinct(items) && i < |items| && items[i].key != KEY_DELETED
    ensures items[i].key in MapOf(items) && MapOf(items)[items[i].key] == items[i].data
  {
    var n := |items| - 1;
    if i < n {
      MapComplete(items[..n], i);
    }
  }

  /** Keys and lengths are 16-bit, and the two marker keys do not occur. */
  lemma {:induction false} EntryRange(items: seq<Item>, k: int)
    requires GoodItems(items) && k in MapOf(items)
    ensures KEY_DELETED < k < KEY_FREE && |MapOf(items)[k]| < 0x1_0000
  {
    var n := |items| - 1;
    if items[n].key != k || k == KEY_DELETED {
      EntryRange(items[..n], k);
    }
  }

  /** Deleted and absent keys. */
  lemma {:induction false} MapAbsent(items: seq<Item>, k: int)
    requires forall i :: 0 <= i < |items| ==> items[i].key != k || k == KEY_DELETED
    ensures k !in MapOf(items)
  {
    if items != [] {
      MapAbsent(items[..|items| - 1], k);
    }
  }

  /** Tombstoning item i removes its key. */
  lemma {:induction false} MapDelete(items: seq<Item>, i: nat, d: seq<byte>)
    requires Distinct(items) && i < |items| && items[i].key != KEY_DELETED
    ensures Distinct(items[i := Item(KEY_DELETED, d)])
    ensures MapOf(items[i := Item(KEY_DELETED, d)]) == MapOf(items) - {items[i].key}
  {
    var n := |items| - 1;
    var x := Item(KEY_DELETED, d);
    var k := items[i].key;
    if i == n {
      assert items[i := x][..n] == items[..n];
      MapAbsent(items[..n], k);
    } else {
      MapDelete(items[..n], i, d);
      assert items[i := x][..n] == items[..n][i := x];
    }
  }

  /** Rewriting item i changes its value. */
  lemma {:induction false} MapRewrite(items: seq<Item>, i: nat, d: seq<byte>)
    requires Distinct(items) && i < |items| && items[i].key != KEY_DELETED
    ensures Distinct(items[i := Item(items[i].key, d)])
    ensures MapOf(items[i := Item(items[i].key, d)]) == MapOf(items)[items[i].key := d]
  {
    var n := |items| - 1;
    var x := Item(items[i].key, d);
    if i == n {
      assert items[i := x][..n] == items[..n];
    } else {
      MapRewrite(items[..n], i, d);
      assert items[i := x][..n] == items[..n][i := x];
    }
  }

  lemma MapAppend(items: seq<Item>, x: Item)
    requires Distinct(items) && x.key != KEY_DELETED && x.key !in MapOf(items)
    ensures Distinct(items + [x])
    ensures MapOf(items + [x]) == MapOf(items)[x.key := x.data]
  {
    assert (items + [x])[..|items|] == items;
    forall i | 0 <= i < |items| && items[i].key == x.key ensures false {
      MapComplete(items, i);
    }
  }

  // ------------------------------------------------------------- space

  /** The items compaction keeps. */
  ghost function LiveItems(items: seq<Item>): (r: seq<Item>)
    ensures GoodItems(items) ==> GoodItems(r)
  {
    if items == [] then []
    else
      var it := items[|items| - 1];
      LiveItems(items[..|items| - 1]) + if it.key == KEY_DELETED then [] else [it]
  }

  /** The space the values of a map take when each is stored once. */
  ghost function MapSize(m: map<int, seq<byte>>): nat
    decreases |m|
  {
    if k :| k in m then Size(|m[k]|) + MapSize(m - {k}) else 0
  }

  lemma {:induction false} MapSizeRemove(m: map<int, seq<byte>>, k: int)
    requires k in m
    ensures MapSize(m) == Size(|m[k]|) + MapSize(m - {k})
    decreases |m|
  {
    hide Size;
    var j :| j in m && MapSize(m) == Size(|m[j]|) + MapSize(m - {j});
    if j != k {
      MapSizeRemove(m - {j}, k);
      MapSizeRemove(m - {k}, j);
      assert m - {j} - {k} == m - {k} - {j};
    }
  }

  lemma {:induction false} LiveStep(items: seq<Item>, i: nat)
    requires i < |items|
    ensures LiveItems(items[..i + 1]) == LiveItems(items[..i]) + if items[i].key == KEY_DELETED then [] else [items[i]]
  {
    assert items[..i + 1][..i] == items[..i];
  }

  /** Dropping tombstones does not change the map. */
  lemma {:induction false} LiveMap(items: seq<Item>)
    ensures MapOf(LiveItems(items)) == MapOf(items)
  {
    if items != [] {
      var n := |items| - 1;
      LiveMap(items[..n]);
      var l := LiveItems(items[..n]);
      if items[n].key == KEY_DELETED {
        assert l + [] == l;
      } else {
        assert (l + [items[n]])[..|l|] == l;
      }
    }
  }

  lemma {:induction false} LiveDistinct(items: seq<Item>)
    requires Distinct(items)
    ensures Distinct(LiveItems(items))
    ensures forall i :: 0 <= i < |LiveItems(items)| ==> LiveItems(items)[i] in items && LiveItems(items)[i].key != KEY_DELETED
  {
    if items != [] {
      var n := |items| - 1;
      LiveDistinct(items[..n]);
      if items[n].key != KEY_DELETED {
        forall it | it in LiveItems(items[..n]) ensures it.key != items[n].key {
          assert it in items[..n];
        }
      }
    }
  }

  lemma {:induction false} LiveSize(items: seq<Item>)
    requires GoodItems(items) && Distinct(items)
    ensures |EncAll(LiveItems(items))| == MapSize(MapOf(items)) <= |EncAll(items)|
  {
    if items != [] {
      var n := |items| - 1;
      var t, it := items[..n], items[n];
      var l := LiveItems(t);
      assert LiveItems(items) == if it.key == KEY_DELETED then l + [] else l + [it];
      assert MapOf(items) == if it.key == KEY_DELETED then MapOf(t) else MapOf(t)[it.key := it.data];
      assert GoodItems(t) && Distinct(t) && GoodItem(it);
      assert it.key != KEY_DELETED ==> forall i :: 0 <= i < |t| ==> t[i].key != it.key;
      hide EncAll, LiveItems, MapOf, MapSize, Size, GoodItems, Distinct;
      LiveSize(t);
      EncAllStep(items, n);
      assert items[..n + 1] == items;
      if it.key == KEY_DELETED {
        assert l + [] == l;
      } else {
        LiveSizeGrows(t, it);
        MapAbsent(t, it.key);
        LiveSizeStep(MapOf(t), it);
      }
    }
  }

  /** Compaction never needs more room than the items already take. */
  lemma {:induction false} LiveShorter(items: seq<Item>)
    requires GoodItems(items)
    ensures |EncAll(LiveItems(items))| <= |EncAll(items)|
  {
    if items != [] {
      var n := |items| - 1;
      var t, it := items[..n], items[n];
      LiveShorter(t);
      EncAllStep(items, n);
      assert items[..n + 1] == items;
      assert LiveItems(items) == LiveItems(t) + if it.key == KEY_DELETED then [] else [it];
      if it.key == KEY_DELETED {
        assert LiveItems(t) + [] == LiveItems(t);
      } else {
        LiveSizeGrows(t, it);
      }
    }
  }

  lemma LiveSizeGrows(t: seq<Item>, it: Item)
    requires GoodItems(t) && GoodItem(it)
    ensures |EncAll(LiveItems(t) + [it])| == |EncAll(LiveItems(t))| + Size(|it.data|)
  {
    var l := LiveItems(t);
    EncAllStep(l + [it], |l|);
    assert (l + [it])[..|l|] == l && (l + [it])[..|l| + 1] == l + [it];
  }

  lemma LiveSizeStep(m: map<int, seq<byte>>, it: Item)
    requires it.key !in m
    ensures MapSize(m[it.key := it.data]) == MapSize(m) + Size(|it.data|)
  {
    var m' := m[it.key := it.data];
    MapSizeRemove(m', it.key);
    assert m' - {it.key} == m;
  }
}
