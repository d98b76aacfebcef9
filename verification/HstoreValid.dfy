/** The two validity tests of stored values, said by the pairs that such values are written from. */
module HstoreValid {
  import opened HstoreFormat
  import opened HstoreUpgrade
  import opened HstoreOld

  /** Words of 32 bits. */
  predicate Words32(ws: seq<nat>) { forall k :: 0 <= k < |ws| ==> ws[k] < 0x1_0000_0000 }

  // ---------------------------------------------------------------- the old form

  /** The words and the bytes are those of pairs whose keys do not get shorter, written in the old form,
      with bytes to spare or none. */
  ghost predicate WrittenOld(ws: seq<nat>, str: bytes, items: seq<Item>, left: seq<nat>)
  {
    KeysLengthen(items) && OldRoom(items, left) && ws == OldWords(items, left) && Concat(items) <= str
  }

  /** The lengths that the words hold, those of nulls included. */
  function LeftOver(ws: seq<nat>): (left: seq<nat>)
    requires |ws| % 2 == 0
    ensures |left| == |ws| / 2 && forall i :: 0 <= i < |left| ==> left[i] == ValLen(ws[2 * i])
  {
    seq(|ws| / 2, i requires 0 <= i < |ws| / 2 => ValLen(ws[2 * i]))
  }

  lemma OldItemRoom(ws: seq<nat>, str: bytes, i: nat)
    requires |ws| % 2 == 0 && Begins(ws, |ws| / 2) <= |str| && i < |ws| / 2 && Words32(ws)
    ensures var it := OldItems(ws, str)[i];
            && |it.key| == KeyLen(ws[2 * i]) < 0x1_0000 && |it.val| < 0x1_0000 && ValLen(ws[2 * i]) < 0x1_0000
            && (it.isnull <==> OldNull(ws[2 * i + 1])) && (it.isnull ==> it.val == [])
            && (!it.isnull ==> |it.val| == ValLen(ws[2 * i]))
  {
    hide Begins, OldItem;
    var it := OldItems(ws, str)[i];
    assert Begins(ws, i) + OldLen(ws, i) <= |str| && it == OldItem(ws, str, i);
    OldItemBytes(ws, str, i);
    ShortLength(ws[2 * i]);
  }

  lemma ShortLength(w: nat)
    requires w < 0x1_0000_0000
    ensures ValLen(w) < 0x1_0000 && w == KeyLen(w) + 65536 * ValLen(w)
  {
  }

  lemma OldWordsAre(ws: seq<nat>, str: bytes, i: nat)
    requires ValidOld(ws, 8 + 4 * |ws| + |str|) && Words32(ws) && i < |ws| / 2
    ensures var items := OldItems(ws, str);
            && ws[2 * i] == Lengths(items, LeftOver(ws), i)
            && ws[2 * i + 1] == Position(items, i)
  {
    hide Begins, OldItems, KeyLen, ValLen, Concat, LeftOver;
    OldItemRoom(ws, str, i);
    ShortLength(ws[2 * i]);
    BytesOfOld(ws, str, i);
    assert InPlace(ws, i);
  }

  lemma OldItemsRoom(ws: seq<nat>, str: bytes)
    requires ValidOld(ws, 8 + 4 * |ws| + |str|) && Words32(ws)
    ensures OldRoom(OldItems(ws, str), LeftOver(ws)) && KeysLengthen(OldItems(ws, str))
  {
    hide Begins, OldItems, KeyLen, ValLen, OldNull, OldPos, LeftOver;
    var items, left := OldItems(ws, str), LeftOver(ws);
    forall i | 0 <= i < |items|
      ensures && |items[i].key| == KeyLen(ws[2 * i]) < 0x1_0000 && |items[i].val| < 0x1_0000 && left[i] < 0x1_0000
              && (items[i].isnull ==> items[i].val == [])
    {
      OldItemRoom(ws, str, i);
    }
    forall i | 1 <= i < |items| ensures |items[i - 1].key| <= |items[i].key| {
      assert OldKeysRise(ws, i);
    }
  }

  lemma OldIsWritten(ws: seq<nat>, str: bytes)
    requires ValidOld(ws, 8 + 4 * |ws| + |str|) && Words32(ws)
    ensures |ws| % 2 == 0 && Begins(ws, |ws| / 2) <= |str|
    ensures WrittenOld(ws, str, OldItems(ws, str), LeftOver(ws))
  {
    hide Begins, OldItems, Concat, LeftOver, Lengths, Position, OldWords, KeysLengthen, OldRoom, InPlace;
    var items, left := OldItems(ws, str), LeftOver(ws);
    OldItemsRoom(ws, str);
    var ours := OldWords(items, left);
    forall i | 0 <= i < |ws| / 2 ensures ws[2 * i] == ours[2 * i] && ws[2 * i + 1] == ours[2 * i + 1] {
      OldWordsAre(ws, str, i);
    }
    SameWords(ws, ours);
    BytesOfOld(ws, str, |ws| / 2);
    assert items[..|ws| / 2] == items;
  }

  lemma SameWords(a: seq<nat>, b: seq<nat>)
    requires |a| == |b| && |a| % 2 == 0
    requires forall i :: 0 <= i < |a| / 2 ==> a[2 * i] == b[2 * i] && a[2 * i + 1] == b[2 * i + 1]
    ensures a == b
  {
    forall k | 0 <= k < |a| ensures a[k] == b[k] {
      assert a[2 * (k / 2)] == b[2 * (k / 2)] && a[2 * (k / 2) + 1] == b[2 * (k / 2) + 1];
    }
  }

  /** A value is valid in the old form just when it could have been written so. */
  lemma ValidOldIff(ws: seq<nat>, str: bytes)
    requires Words32(ws)
    ensures ValidOld(ws, 8 + 4 * |ws| + |str|) <==> exists items, left :: WrittenOld(ws, str, items, left)
  {
    hide ValidOld, OldWords, Concat, KeysLengthen, OldRoom, Begins, OldItems;
    if ValidOld(ws, 8 + 4 * |ws| + |str|) {
      OldIsWritten(ws, str);
    }
    forall items, left | WrittenOld(ws, str, items, left) ensures ValidOld(ws, 8 + 4 * |ws| + |str|) {
      RoomMeans(items, left);
      OldIsValid(items, left, str[|Concat(items)|..], 8 + 4 * |ws| + |str|);
    }
  }

  lemma RoomMeans(items: seq<Item>, left: seq<nat>)
    requires OldRoom(items, left)
    ensures |left| == |items|
  {
  }

  // ---------------------------------------------------------------- the new form

  /** The word without the mark of a null. */
  function Unmarked(w: nat): nat { if IsNull(w) then w - ISNULL else w }

  /** The words and the bytes are those of pairs whose keys do not get shorter, written in the new form.
      The mark of a null on the first key is not looked at. */
  ghost predicate WrittenNew(ws: seq<nat>, str: bytes, items: seq<Item>)
  {
    && KeysLengthen(items) && |Concat(items)| < POSITIONS && Concat(items) <= str
    && |ws| == 2 * |items| && ws != [] && Encode(items).entries == ws[0 := Unmarked(ws[0])]
  }

  lemma UnmarkedIs(w: nat)
    ensures EndPos(Unmarked(w)) == EndPos(w) && (IsFirst(Unmarked(w)) <==> IsFirst(w)) && !IsNull(Unmarked(w))
    ensures Unmarked(w) <= w
  {
    FirstByHalf(w);
    if IsNull(w) {
      TakeMark(w);
      FirstByHalf(w - ISNULL);
    }
  }

  lemma FirstByHalf(w: nat)
    ensures w / ISFIRST == w / ISNULL / 2
  {
  }

  lemma TakeMark(w: nat)
    requires w >= ISNULL
    ensures (w - ISNULL) / ISNULL == w / ISNULL - 1 && (w - ISNULL) % ISNULL == w % ISNULL
  {
  }

  lemma {:induction false} EndsRise(ws: seq<nat>, i: nat, j: nat)
    requires EntriesRise(ws) && i <= j < |ws|
    ensures EndPos(ws[i]) <= EndPos(ws[j])
    decreases j
  {
    hide EndPos, IsFirst, IsNull, KeysRise;
    if i < j {
      EndsRise(ws, i, j - 1);
    }
  }

  /** The first mark of a null does not matter. */
  lemma UnmarkedRises(ws: seq<nat>)
    requires ws != []
    ensures EntriesRise(ws) <==> EntriesRise(ws[0 := Unmarked(ws[0])])
  {
    hide EndPos, IsFirst, IsNull, Unmarked;
    UnmarkedIs(ws[0]);
    var us := ws[0 := Unmarked(ws[0])];
    assert forall j :: 1 <= j < |ws| ==> us[j] == ws[j];
    assert forall j :: 0 <= j < |ws| ==> EndPos(us[j]) == EndPos(ws[j]);
    assert forall j :: 1 <= j < |ws| / 2 ==> (KeysRise(us, j) <==> KeysRise(ws, j));
  }

  lemma NewIsPacked(ws: seq<nat>, str: bytes)
    requires ws != [] && |ws| % 2 == 0 && IsFirst(ws[0]) && !IsNull(ws[0]) && EntriesRise(ws) && Words32(ws)
    requires |str| == EndPos(ws[|ws| - 1])
    ensures Packed(HStore(ws, str)) && CleanWords(HStore(ws, str))
  {
    hide EndPos, IsFirst, IsNull, KeysRise;
    forall i, j | 0 <= i < j < |ws| ensures EndPos(ws[i]) <= EndPos(ws[j]) {
      EndsRise(ws, i, j);
    }
    forall k | 0 <= k < |ws| && k % 2 == 0 ensures !IsNull(ws[k]) {
      if k > 0 {
        assert !IsNull(ws[2 * (k / 2)]);
      }
    }
  }

  lemma NewIsWritten(ws: seq<nat>, str: bytes)
    requires ws != [] && |ws| % 2 == 0 && IsFirst(ws[0]) && EntriesRise(ws) && Words32(ws)
    requires EndPos(ws[|ws| - 1]) <= |str|
    ensures exists items :: WrittenNew(ws, str, items)
  {
    hide EndPos, IsFirst, IsNull, KeysRise, Unmarked, Packed, CleanWords, Items, Encode, EntriesRise, Concat;
    UnmarkedIs(ws[0]);
    UnmarkedRises(ws);
    var us := ws[0 := Unmarked(ws[0])];
    var n := EndPos(ws[|ws| - 1]);
    assert EndPos(us[|ws| - 1]) == n;
    var h := HStore(us, str[..n]);
    NewIsPacked(us, str[..n]);
    EncodeDecode(h);
    var items := Items(h);
    EndBelow(ws[|ws| - 1]);
    RisingKeys(items, us);
    assert WrittenNew(ws, str, items);
  }

  lemma EndBelow(w: nat)
    ensures EndPos(w) < POSITIONS
  {
  }

  lemma RisingKeys(items: seq<Item>, ws: seq<nat>)
    requires |Concat(items)| < POSITIONS && Encode(items).entries == ws && EntriesRise(ws)
    ensures KeysLengthen(items)
  {
    hide EndPos, IsFirst, IsNull, Encode, Concat;
    forall i | 1 <= i < |items| ensures |items[i - 1].key| <= |items[i].key| {
      KeyLengthIs(items, i);
      KeyLengthIs(items, i - 1);
      assert KeysRise(ws, i);
    }
  }

  lemma WrittenIsNew(ws: seq<nat>, str: bytes, items: seq<Item>, size: nat)
    requires WrittenNew(ws, str, items) && size < NEWVERSION
    ensures ValidNew(size, ws, 8 + 4 * |ws| + |str|)
  {
    hide EndPos, IsFirst, IsNull, Encode, Concat, Unmarked, EntriesRise, KeysLengthen;
    var us := ws[0 := Unmarked(ws[0])];
    UnmarkedIs(ws[0]);
    UnmarkedRises(ws);
    NewIsValid(items, 8 + 4 * |ws| + |str|, size);
    NewMeans(size, us, 8 + 4 * |ws| + |str|);
    NewMeans(size, ws, 8 + 4 * |ws| + |str|);
    assert EndPos(us[|ws| - 1]) == EndPos(ws[|ws| - 1]);
  }

  /** A value without the mark of the new form is valid in it just when it could have been written so. */
  lemma ValidNewIff(ws: seq<nat>, str: bytes, size: nat)
    requires Words32(ws) && ws != [] && size < NEWVERSION
    ensures ValidNew(size, ws, 8 + 4 * |ws| + |str|) <==> exists items :: WrittenNew(ws, str, items)
  {
    hide EndPos, IsFirst, WrittenNew, EntriesRise;
    if ValidNew(size, ws, 8 + 4 * |ws| + |str|) {
      NewIsWritten(ws, str);
    }
    forall items | WrittenNew(ws, str, items) ensures ValidNew(size, ws, 8 + 4 * |ws| + |str|) {
      WrittenIsNew(ws, str, items, size);
    }
  }
}
