/** The allocation bitmap: one bit per cluster, in the clusters from `start` on. */
module FsBitmap {
  import opened BinIndex
  import opened BitWords
  import opened FsWords

  /** Quotient and remainder by repeated subtraction, so that what holds of them is shown by induction; QuotRem
      says that they are / and %. */
  function Quot(a: nat, d: nat): nat
    requires 0 < d
  {
    if a < d then 0 else 1 + Quot(a - d, d)
  }

  function Rem(a: nat, d: nat): (r: nat)
    requires 0 < d
    ensures r < d
  {
    if a < d then a else Rem(a - d, d)
  }

  lemma {:induction false} QuotRem(a: nat, d: nat)
    requires 0 < d
    ensures Quot(a, d) == a / d && Rem(a, d) == a % d
    ensures a == Quot(a, d) * d + Rem(a, d)
  {
    if d <= a {
      QuotRem(a - d, d);
      DivModIs(a, d, Quot(a, d), Rem(a, d));
    } else {
      DivModIs(a, d, 0, a);
    }
  }

  /** How many clusters the bitmap of n clusters takes, with `wpc` words in each. */
  function MapLength(n: nat, wpc: nat): nat
    requires 0 < wpc
  {
    if n <= 32 * wpc then if n == 0 then 0 else 1 else 1 + MapLength(n - 32 * wpc, wpc)
  }

  /** The bitmap fits in the store. */
  ghost predicate MapOk(store: seq<seq<Byte>>, start: nat, wpc: nat, n: nat) {
    && 0 < wpc && start + MapLength(n, wpc) <= |store|
    && forall c :: 0 <= c < |store| ==> |store[c]| == 4 * wpc
  }

  lemma {:induction false} WordInMap(n: nat, wpc: nat, g: nat)
    requires 0 < wpc && 32 * g < n
    ensures Quot(g, wpc) < MapLength(n, wpc)
  {
    if wpc <= g {
      WordInMap(n - 32 * wpc, wpc, g - wpc);
    }
  }

  /** Word number g of the whole bitmap. */
  ghost function MapWord(store: seq<seq<Byte>>, start: nat, wpc: nat, n: nat, g: nat): (w: nat)
    requires MapOk(store, start, wpc, n) && 32 * g < n
    ensures w < WORD
  {
    WordInMap(n, wpc, g);
    ReadWord(store[start + Quot(g, wpc)], Rem(g, wpc))
  }

  /** Whether cluster c is marked as allocated. */
  ghost predicate Marked(store: seq<seq<Byte>>, start: nat, wpc: nat, n: nat, c: nat)
    requires MapOk(store, start, wpc, n) && c < n
  {
    Bit(MapWord(store, start, wpc, n, c / 32), c % 32)
  }

  /** On disk: cluster c is marked by bit c % 8 of its byte, the bytes of the bitmap clusters counted on. */
  lemma MarkedIsBit(store: seq<seq<Byte>>, start: nat, wpc: nat, n: nat, c: nat)
    requires MapOk(store, start, wpc, n) && c < n
    ensures var m, o := c / (32 * wpc), c % (32 * wpc) / 8;
      start + m < |store| && o < |store[start + m]| && (Marked(store, start, wpc, n, c) <==> store[start + m][o] / Pow2(c % 8) % 2 == 1)
  {
    BitPlace(c, wpc);
    WordInMap(n, wpc, c / 32);
    ReadBit(store[start + Quot(c / 32, wpc)], Rem(c / 32, wpc), c % 32);
  }

  /** Where the bit of cluster c is, by words and by bytes. */
  lemma BitPlace(c: nat, wpc: nat)
    requires 0 < wpc
    ensures c / (32 * wpc) == Quot(c / 32, wpc)
    ensures c % (32 * wpc) / 8 == 4 * Rem(c / 32, wpc) + c % 32 / 8 && c % 32 % 8 == c % 8 && c % 32 / 8 < 4
  {
    Addressing(c, wpc);
    QuotRem(c / 32, wpc);
    ByteOfBit(c, c % (32 * wpc), Rem(c / 32, wpc), c % 32);
  }

  lemma ReadBit(data: seq<Byte>, r: nat, i: nat)
    requires 4 * r + 4 <= |data| && i < 32
    ensures Bit(ReadWord(data, r), i) <==> data[4 * r + i / 8] / Pow2(i % 8) % 2 == 1
  {
    WordBit(data[4 * r], data[4 * r + 1], data[4 * r + 2], data[4 * r + 3], i);
    BitIsQuotient(data[4 * r + i / 8], i % 8);
  }

  lemma ByteOfBit(c: nat, a: nat, r: nat, i: nat)
    requires a / 32 == r && a % 32 == c % 32 == i
    ensures a / 8 == 4 * r + i / 8 && i / 8 < 4 && c % 8 == i % 8
  {
    assert a == 8 * (4 * r) + i && c == 8 * (4 * (c / 32)) + i;
  }

  lemma WordBit(b0: Byte, b1: Byte, b2: Byte, b3: Byte, i: nat)
    requires i < 32
    ensures Bit(WordOf(b0, b1, b2, b3), i) <==> Bit([b0, b1, b2, b3][i / 8], i % 8)
  {
    var w1, w2 := b1 + 0x100 * b2 + 0x1_0000 * b3, b2 + 0x100 * b3;
    LowByteBit(b0, w1, i);
    if i < 8 {
    } else if i < 16 {
      LowByteBit(b1, w2, i - 8);
    } else {
      LowByteBit(b1, w2, i - 8);
      LowByteBit(b2, b3, i - 16);
    }
  }

  lemma LowByteBit(b: Byte, m: nat, i: nat)
    ensures Bit(b + 0x100 * m, i) <==> if i < 8 then Bit(b, i) else Bit(m, i - 8)
  {
    assert Pow2(8) == 256;
    BitOfSum(b, m, 8, i);
  }

  lemma {:induction false} BitOfSum(a: nat, m: nat, n: nat, i: nat)
    requires a < Pow2(n)
    ensures Bit(a + Pow2(n) * m, i) <==> if i < n then Bit(a, i) else Bit(m, i - n)
  {
    if n != 0 {
      var p := Pow2(n - 1) * m;
      assert Pow2(n) * m == 2 * p;
      if i != 0 {
        assert (a + 2 * p) / 2 == a / 2 + p;
        BitOfSum(a / 2, m, n - 1, i - 1);
      }
    }
  }

  lemma {:induction false} BitIsQuotient(m: nat, i: nat)
    ensures Bit(m, i) <==> m / Pow2(i) % 2 == 1
  {
    if i != 0 {
      BitIsQuotient(m / 2, i - 1);
      DivideTwice(m, Pow2(i - 1));
    }
  }

  lemma DivideTwice(m: nat, p: nat)
    requires 0 < p
    ensures m / (2 * p) == m / 2 / p
  {
    var q, r := m / 2 / p, m / 2 % p;
    assert m / 2 == q * p + r;
    DivModIs(m, 2 * p, q, 2 * r + m % 2);
  }

  /** The bitmap of n clusters takes as many clusters as its bits need. */
  lemma {:induction false} MapLengthIs(n: nat, wpc: nat)
    requires 0 < wpc
    ensures n <= 32 * wpc * MapLength(n, wpc) < n + 32 * wpc
  {
    if 32 * wpc < n {
      MapLengthIs(n - 32 * wpc, wpc);
      assert 32 * wpc * MapLength(n, wpc) == 32 * wpc + 32 * wpc * MapLength(n - 32 * wpc, wpc);
    }
  }

  /** How many of the first k clusters are not marked. */
  ghost function ClearBits(store: seq<seq<Byte>>, start: nat, wpc: nat, n: nat, k: nat): (r: nat)
    requires MapOk(store, start, wpc, n) && k <= n
    ensures r <= k
  {
    if k == 0 then 0
    else ClearBits(store, start, wpc, n, k - 1) + if Marked(store, start, wpc, n, k - 1) then 0 else 1
  }

  /** Cluster c gets a new mark, all others keep theirs. */
  ghost predicate Remarked(store: seq<seq<Byte>>, store': seq<seq<Byte>>, start: nat, wpc: nat, n: nat, c: nat, mark: bool)
    requires MapOk(store, start, wpc, n) && MapOk(store', start, wpc, n) && c < n
  {
    forall d: nat :: d < n ==> (Marked(store', start, wpc, n, d) <==> if d == c then mark else Marked(store, start, wpc, n, d))
  }

  /** The addressing by cluster, integer and bit is the one by word and bit. */
  lemma Addressing(c: nat, wpc: nat)
    requires 0 < wpc
    ensures c / (32 * wpc) == (c / 32) / wpc
    ensures (c % (32 * wpc)) / 32 == (c / 32) % wpc
    ensures (c % (32 * wpc)) % 32 == c % 32
  {
    var g := c / 32;
    var q, j := g / wpc, g % wpc;
    assert g == q * wpc + j;
    var r := 32 * j + c % 32;
    assert c == q * (32 * wpc) + r by {
      assert q * (32 * wpc) == 32 * (q * wpc);
    }
    MulMono(j + 1, wpc, 32);
    DivModIs(c, 32 * wpc, q, r);
  }

  lemma DivModIs(a: nat, d: nat, q: nat, r: nat)
    requires 0 < d && a == q * d + r && r < d
    ensures a / d == q && a % d == r
  {
    QuotientIs(a, d, q);
  }

  /** The marks after one word of the bitmap has been changed at one bit. */
  lemma WordWritten(store: seq<seq<Byte>>, start: nat, wpc: nat, n: nat, c: nat, w: nat, mark: bool)
      returns (store': seq<seq<Byte>>)
    requires MapOk(store, start, wpc, n) && c < n && w < WORD
    requires forall j :: 0 <= j < 32 ==> (Bit(w, j) <==> if j == c % 32 then mark else Bit(MapWord(store, start, wpc, n, c / 32), j))
    ensures start + Quot(c / 32, wpc) < |store|
    ensures var b := start + Quot(c / 32, wpc); store' == store[b := WriteWord(store[b], Rem(c / 32, wpc), w)]
    ensures MapOk(store', start, wpc, n) && Remarked(store, store', start, wpc, n, c, mark)
  {
    WordInMap(n, wpc, c / 32);
    var b := start + Quot(c / 32, wpc);
    store' := store[b := WriteWord(store[b], Rem(c / 32, wpc), w)];
    forall d: nat | d < n
      ensures Marked(store', start, wpc, n, d) <==> if d == c then mark else Marked(store, start, wpc, n, d)
    {
      OtherWords(store, start, wpc, n, c / 32, w, d / 32);
    }
  }

  lemma SetKeepsMap(store: seq<seq<Byte>>, start: nat, wpc: nat, n: nat, b: nat, data: seq<Byte>)
    requires MapOk(store, start, wpc, n) && b < |store| && |data| == 4 * wpc
    ensures MapOk(store[b := data], start, wpc, n)
  {}

  lemma OtherWords(store: seq<seq<Byte>>, start: nat, wpc: nat, n: nat, g: nat, w: nat, f: nat)
    requires MapOk(store, start, wpc, n) && 32 * g < n && 32 * f < n && w < WORD
    requires start + Quot(g, wpc) < |store|
    ensures var b := start + Quot(g, wpc); var store' := store[b := WriteWord(store[b], Rem(g, wpc), w)];
      MapOk(store', start, wpc, n) && MapWord(store', start, wpc, n, f) == if f == g then w else MapWord(store, start, wpc, n, f)
  {
    SetKeepsMap(store, start, wpc, n, start + Quot(g, wpc), WriteWord(store[start + Quot(g, wpc)], Rem(g, wpc), w));
    WordInMap(n, wpc, f);
    if Quot(f, wpc) == Quot(g, wpc) {
      ReadWritten(store[start + Quot(g, wpc)], Rem(g, wpc), w, Rem(f, wpc));
      SameQuotient(f, g, wpc);
    }
  }

  lemma {:induction false} SameQuotient(f: nat, g: nat, d: nat)
    requires 0 < d && Quot(f, d) == Quot(g, d)
    ensures Rem(f, d) == Rem(g, d) ==> f == g
  {
    QuotRem(f, d);
    QuotRem(g, d);
  }

  /** Marks are not affected by writes outside the bitmap. */
  lemma MarksElsewhere(store: seq<seq<Byte>>, store': seq<seq<Byte>>, start: nat, wpc: nat, n: nat, d: nat)
    requires MapOk(store, start, wpc, n) && MapOk(store', start, wpc, n) && d < n
    requires forall c: nat :: start <= c < start + MapLength(n, wpc) ==> store'[c] == store[c]
    ensures Marked(store', start, wpc, n, d) == Marked(store, start, wpc, n, d)
  {
    WordInMap(n, wpc, d / 32);
  }

  /** Bitmap cluster number m begins with word g of the bitmap. */
  ghost predicate FirstWord(g: nat, m: nat, wpc: nat) {
    if m == 0 then g == 0 else wpc <= g && FirstWord(g - wpc, m - 1, wpc)
  }

  lemma {:induction false} FirstWordIs(g: nat, m: nat, wpc: nat, j: nat)
    requires FirstWord(g, m, wpc) && j < wpc
    ensures Quot(g + j, wpc) == m && Rem(g + j, wpc) == j
  {
    if m != 0 {
      FirstWordIs(g - wpc, m - 1, wpc, j);
    }
  }

  /** Word j of bitmap cluster number m. */
  lemma WordAt(store: seq<seq<Byte>>, start: nat, wpc: nat, n: nat, g: nat, m: nat, j: nat)
    requires MapOk(store, start, wpc, n) && FirstWord(g, m, wpc) && j < wpc && 32 * (g + j) < n
    ensures Quot(g + j, wpc) == m && m < MapLength(n, wpc) && start + m < |store|
    ensures 4 * j + 4 <= |store[start + m]| && MapWord(store, start, wpc, n, g + j) == ReadWord(store[start + m], j)
  {
    FirstWordIs(g, m, wpc, j);
    WordInMap(n, wpc, g + j);
  }

  /** A word has all bits set exactly when it is the largest. */
  lemma FullWord(w: nat)
    requires w < WORD
    ensures w == WORD - 1 <==> forall j :: 0 <= j < 32 ==> Bit(w, j)
  {
    Pow2Of32();
    if w == WORD - 1 {
      forall j | 0 <= j < 32
        ensures Bit(w, j)
      {
        AllOnes(32, j);
      }
    } else {
      FirstMarked(Not(w));
      var i := BitScan(LeastBit(Not(w)));
      ComplementBits(w, 32, i);
      assert 0 <= i < 32 && !Bit(w, i);
    }
  }

  /** A word and its clusters: bit j of word number g belongs to cluster 32 * g + j. */
  lemma BitInWord(g: nat, j: nat)
    requires j < 32
    ensures (32 * g + j) / 32 == g && (32 * g + j) % 32 == j
  {}

  ghost predicate AllMarked(store: seq<seq<Byte>>, start: nat, wpc: nat, n: nat, k: nat)
    requires MapOk(store, start, wpc, n)
  {
    forall d: nat :: d < k && d < n ==> Marked(store, start, wpc, n, d)
  }

  ghost predicate LeastFree(store: seq<seq<Byte>>, start: nat, wpc: nat, n: nat, c: nat)
    requires MapOk(store, start, wpc, n)
  {
    c < n && !Marked(store, start, wpc, n, c) && AllMarked(store, start, wpc, n, c)
  }

  /** What has been seen in a word: the first clear bit of an existing cluster, or none. */
  ghost predicate SeenWord(w: nat, g: nat, n: nat, found: bool, c: nat) {
    if found then c / 32 == g && c < n && !Bit(w, c % 32) && forall j :: 0 <= j < c % 32 ==> Bit(w, j)
    else forall j :: 0 <= j < 32 && 32 * g + j < n ==> Bit(w, j)
  }

  /** The bits of word g are the marks of 32 clusters. */
  lemma ScanStep(store: seq<seq<Byte>>, start: nat, wpc: nat, n: nat, g: nat, found: bool, c: nat)
    requires MapOk(store, start, wpc, n) && 32 * g < n && AllMarked(store, start, wpc, n, 32 * g)
    requires SeenWord(MapWord(store, start, wpc, n, g), g, n, found, c)
    ensures found ==> LeastFree(store, start, wpc, n, c)
    ensures !found ==> AllMarked(store, start, wpc, n, 32 * g + 32)
  {
    forall d: nat | d < (if found then c else 32 * g + 32) && d < n
      ensures Marked(store, start, wpc, n, d)
    {
      if 32 * g <= d {
        BitInWord(g, d - 32 * g);
      }
    }
  }

  /** Scanning past the last cluster finds no more. */
  lemma NoneAbove(store: seq<seq<Byte>>, start: nat, wpc: nat, n: nat, k: nat, c: nat)
    requires MapOk(store, start, wpc, n) && AllMarked(store, start, wpc, n, k) && (n <= k || c == k)
    ensures AllMarked(store, start, wpc, n, c)
  {}

  /** Setting or clearing one bit of a bitmap word. */
  function Remark(w: nat, bit: nat, mark: bool): (r: nat)
    requires w < WORD && bit < 32
    ensures r < WORD
  {
    MarkClear(w, bit, bit);
    if mark then Or(w, Idx2Bit(bit)) else And(w, Not(Idx2Bit(bit)))
  }

  /** Marking a cluster of the other state: the bitmap and the cluster it is in. */
  lemma RemarkWord(store: seq<seq<Byte>>, start: nat, wpc: nat, n: nat, c: nat, mark: bool) returns (store': seq<seq<Byte>>)
    requires MapOk(store, start, wpc, n) && c < n && Marked(store, start, wpc, n, c) != mark
    ensures start + Quot(c / 32, wpc) < |store| && Quot(c / 32, wpc) < MapLength(n, wpc)
    ensures var b := start + Quot(c / 32, wpc);
      store' == store[b := WriteWord(store[b], Rem(c / 32, wpc), Remark(ReadWord(store[b], Rem(c / 32, wpc)), c % 32, mark))]
    ensures MapOk(store', start, wpc, n) && Remarked(store, store', start, wpc, n, c, mark)
  {
    WordInMap(n, wpc, c / 32);
    var w := MapWord(store, start, wpc, n, c / 32);
    forall j | 0 <= j < 32
      ensures Bit(Remark(w, c % 32, mark), j) <==> if j == c % 32 then mark else Bit(w, j)
    {
      MarkClear(w, c % 32, j);
    }
    store' := WordWritten(store, start, wpc, n, c, Remark(w, c % 32, mark), mark);
  }

  /** The same for the size of a cluster in bytes. */
  lemma ByteAddressing(c: nat, bytes: nat, n: nat)
    requires 0 < bytes && bytes % 4 == 0 && c < n
    ensures c / (bytes * 8) == Quot(c / 32, bytes / 4) < MapLength(n, bytes / 4)
    ensures c % (bytes * 8) / 32 == Rem(c / 32, bytes / 4)
    ensures c % (bytes * 8) % 32 == c % 32
  {
    assert bytes * 8 == 32 * (bytes / 4);
    Addressing(c, bytes / 4);
    QuotRem(c / 32, bytes / 4);
    WordInMap(n, bytes / 4, c / 32);
  }

  lemma ScanStepAt(store: seq<seq<Byte>>, start: nat, wpc: nat, n: nat, g: nat, m: nat, j: nat, w: nat, found: bool, c: nat)
    requires MapOk(store, start, wpc, n) && FirstWord(g, m, wpc) && j < wpc && 32 * (g + j) < n
    requires AllMarked(store, start, wpc, n, 32 * (g + j))
    requires start + m < |store| ==> 4 * j + 4 <= |store[start + m]| && w == ReadWord(store[start + m], j)
    requires SeenWord(w, g + j, n, found, c) && (!found ==> c == 32 * (g + j) || n <= 32 * (g + j) + 32)
    ensures found ==> LeastFree(store, start, wpc, n, c) && Quot(c / 32, wpc) == m
    ensures !found ==> AllMarked(store, start, wpc, n, c + 32)
  {
    WordAt(store, start, wpc, n, g, m, j);
    ScanStep(store, start, wpc, n, g + j, found, c);
    if !found {
      NoneAbove(store, start, wpc, n, 32 * (g + j) + 32, c + 32);
    }
  }
}
