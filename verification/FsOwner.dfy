/** What each cluster of a volume is for, and the bitmap that tracks which have an owner. */
module FsOwner {
  import opened BitWords
  import opened FsWords
  import opened FsBitmap

  datatype Owner = Unowned | Reserved | Data(file: nat, index: nat) | Indirect(file: nat, index: nat)

  /** How many of the first k clusters have no owner. */
  ghost function CountFree(owner: seq<Owner>, k: nat): (r: nat)
    requires k <= |owner|
    ensures r <= k
  {
    if k == 0 then 0 else CountFree(owner, k - 1) + if owner[k - 1] == Unowned then 1 else 0
  }

  lemma {:induction false} CountChange(owner: seq<Owner>, c: nat, x: Owner, k: nat)
    requires c < |owner| && k <= |owner| && (owner[c] == Unowned) != (x == Unowned)
    ensures CountFree(owner[c := x], k) == CountFree(owner, k) + if k <= c then 0 else if x == Unowned then 1 else -1
  {
    if k != 0 {
      CountChange(owner, c, x, k - 1);
    }
  }

  lemma {:induction false} CountSame(owner: seq<Owner>, c: nat, x: Owner, k: nat)
    requires c < |owner| && k <= |owner| && (owner[c] == Unowned) == (x == Unowned)
    ensures CountFree(owner[c := x], k) == CountFree(owner, k)
  {
    if k != 0 {
      CountSame(owner, c, x, k - 1);
    }
  }

  /** The first k clusters have owners. */
  ghost predicate FullTo(owner: seq<Owner>, k: nat) {
    forall d :: 0 <= d < k && d < |owner| ==> owner[d] != Unowned
  }

  lemma {:induction false} FullCount(owner: seq<Owner>, k: nat)
    requires k <= |owner|
    ensures CountFree(owner, k) == 0 <==> FullTo(owner, k)
  {
    if k != 0 {
      FullCount(owner, k - 1);
      if FullTo(owner, k - 1) {
      } else {
        var d :| 0 <= d < k - 1 && d < |owner| && owner[d] == Unowned;
        assert 0 <= d < k && owner[d] == Unowned;
      }
    }
  }

  /** The least cluster without an owner. */
  ghost predicate LeastUnowned(owner: seq<Owner>, c: nat) {
    c < |owner| && owner[c] == Unowned && FullTo(owner, c)
  }

  /** The bitmap marks exactly the clusters that have an owner. */
  ghost predicate Tracks(store: seq<seq<Byte>>, start: nat, wpc: nat, owner: seq<Owner>) {
    && MapOk(store, start, wpc, |owner|)
    && forall c: nat {:trigger Marked(store, start, wpc, |owner|, c)} :: c < |owner| ==>
      (Marked(store, start, wpc, |owner|, c) <==> owner[c] != Unowned)
  }

  /** Where the clusters are that belong to no file: the bitmap, from start to end, the superblock and its backup. */
  datatype Layout = Layout(start: nat, end: nat, super: nat, backup: nat)

  predicate InMap(ly: Layout, c: nat) {
    ly.start <= c < ly.end
  }

  ghost predicate ReservedOk(owner: seq<Owner>, ly: Layout) {
    forall c :: 0 <= c < |owner| && (InMap(ly, c) || c == ly.super || c == ly.backup) ==> owner[c] == Reserved
  }

  /** The number of owners missing is the number of clear bits. */
  lemma {:induction false} ClearBitsCounted(store: seq<seq<Byte>>, start: nat, wpc: nat, owner: seq<Owner>, k: nat)
    requires Tracks(store, start, wpc, owner) && k <= |owner|
    ensures ClearBits(store, start, wpc, |owner|, k) == CountFree(owner, k)
  {
    if k != 0 {
      ClearBitsCounted(store, start, wpc, owner, k - 1);
      assert Marked(store, start, wpc, |owner|, k - 1) <==> owner[k - 1] != Unowned;
    }
  }

  /** Writes outside the bitmap do not disturb it. */
  lemma TracksElsewhere(store: seq<seq<Byte>>, store': seq<seq<Byte>>, start: nat, wpc: nat, owner: seq<Owner>)
    requires Tracks(store, start, wpc, owner) && |store'| == |store|
    requires forall c :: 0 <= c < |store| ==> |store'[c]| == |store[c]|
    requires forall c: nat :: start <= c < start + MapLength(|owner|, wpc) ==> store'[c] == store[c]
    ensures Tracks(store', start, wpc, owner)
  {
    forall c: nat | c < |owner|
      ensures Marked(store', start, wpc, |owner|, c) <==> owner[c] != Unowned
    {
      assert Marked(store, start, wpc, |owner|, c) <==> owner[c] != Unowned;
      MarksElsewhere(store, store', start, wpc, |owner|, c);
    }
  }

  /** The outcome of a look at word j of bitmap cluster number m, which begins with word g. */
  lemma SeenOwners(store: seq<seq<Byte>>, start: nat, wpc: nat, owner: seq<Owner>, g: nat, m: nat, j: nat,
                   w: nat, found: bool, c: nat)
    requires Tracks(store, start, wpc, owner) && FirstWord(g, m, wpc) && j < wpc && 32 * (g + j) < |owner|
    requires FullTo(owner, 32 * (g + j))
    requires start + m < |store| ==> 4 * j + 4 <= |store[start + m]| && w == ReadWord(store[start + m], j)
    requires SeenWord(w, g + j, |owner|, found, c) && (!found ==> c == 32 * (g + j) || |owner| <= 32 * (g + j) + 32)
    ensures found ==> LeastUnowned(owner, c) && Quot(c / 32, wpc) == m
    ensures !found ==> FullTo(owner, c + 32)
  {
    var n := |owner|;
    forall d: nat | d < 32 * (g + j)
      ensures d < n ==> Marked(store, start, wpc, n, d)
    {}
    ScanStepAt(store, start, wpc, n, g, m, j, w, found, c);
    forall d: nat | d < n && d < if found then c else c + 32
      ensures owner[d] != Unowned
    {
      assert Marked(store, start, wpc, n, d);
    }
    if found {
      assert !Marked(store, start, wpc, n, c);
    }
  }

  /** Marking a cluster that gets an owner, or clearing the mark of one that loses it. */
  lemma RemarkOwner(store: seq<seq<Byte>>, start: nat, wpc: nat, owner: seq<Owner>, c: nat, x: Owner)
      returns (store': seq<seq<Byte>>)
    requires Tracks(store, start, wpc, owner) && c < |owner| && (owner[c] == Unowned) != (x == Unowned)
    ensures start + Quot(c / 32, wpc) < |store| && Quot(c / 32, wpc) < MapLength(|owner|, wpc)
    ensures var b := start + Quot(c / 32, wpc); var w := ReadWord(store[b], Rem(c / 32, wpc));
      && (Bit(w, c % 32) <==> owner[c] != Unowned)
      && store' == store[b := WriteWord(store[b], Rem(c / 32, wpc), Remark(w, c % 32, x != Unowned))]
    ensures Tracks(store', start, wpc, owner[c := x])
  {
    assert Marked(store, start, wpc, |owner|, c) <==> owner[c] != Unowned;
    store' := RemarkWord(store, start, wpc, |owner|, c, x != Unowned);
    forall d: nat | d < |owner|
      ensures Marked(store', start, wpc, |owner|, d) <==> owner[c := x][d] != Unowned
    {
      assert Marked(store, start, wpc, |owner|, d) <==> owner[d] != Unowned;
    }
  }

  /** The bit of a cluster in the bitmap. */
  lemma BitIs(store: seq<seq<Byte>>, start: nat, wpc: nat, owner: seq<Owner>, c: nat)
    requires Tracks(store, start, wpc, owner) && c < |owner|
    ensures Quot(c / 32, wpc) < MapLength(|owner|, wpc) && start + Quot(c / 32, wpc) < |store|
    ensures Bit(ReadWord(store[start + Quot(c / 32, wpc)], Rem(c / 32, wpc)), c % 32) <==> owner[c] != Unowned
  {
    WordInMap(|owner|, wpc, c / 32);
    assert Marked(store, start, wpc, |owner|, c) <==> owner[c] != Unowned;
  }

  /** A new owner of the same kind, or none as before, needs no other mark. */
  lemma NewOwner(store: seq<seq<Byte>>, start: nat, wpc: nat, owner: seq<Owner>, c: nat, x: Owner)
    requires Tracks(store, start, wpc, owner) && c < |owner| && (owner[c] == Unowned) == (x == Unowned)
    ensures Tracks(store, start, wpc, owner[c := x]) && CountFree(owner[c := x], |owner|) == CountFree(owner, |owner|)
  {
    CountSame(owner, c, x, |owner|);
    forall d: nat | d < |owner|
      ensures Marked(store, start, wpc, |owner|, d) <==> owner[c := x][d] != Unowned
    {
      assert Marked(store, start, wpc, |owner|, d) <==> owner[d] != Unowned;
    }
  }

  /** Two bitmaps that track the same owners have the same bits, and the same number of clear ones. */
  lemma SameBitmap(store: seq<seq<Byte>>, store': seq<seq<Byte>>, start: nat, wpc: nat, owner: seq<Owner>, d: nat)
    requires Tracks(store, start, wpc, owner) && Tracks(store', start, wpc, owner) && d < |owner|
    ensures Marked(store', start, wpc, |owner|, d) <==> Marked(store, start, wpc, |owner|, d)
    ensures ClearBits(store', start, wpc, |owner|, |owner|) == ClearBits(store, start, wpc, |owner|, |owner|)
  {
    ClearBitsCounted(store, start, wpc, owner, |owner|);
    ClearBitsCounted(store', start, wpc, owner, |owner|);
  }
}
