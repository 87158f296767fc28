/**
 Object layout: with an allocator that returns fresh room, built records, unions and byte
 constants read back slot by slot, and no earlier object changes.
 */
module CpsLayout {
  import opened Bytes
  import opened CpsFormat
  import opened CpsMachine
  import opened CpsSemantics

  // ----- memory -----

  lemma {:induction false} PokeOther(h: Heap, a: Word, s: seq<Byte>, x: Word)
    requires a + |s| <= TWO64 && (x < a || a + |s| <= x)
    ensures PeekByte(Poke(h, a, s), x) == PeekByte(h, x)
    decreases |s|
  {
    if |s| > 1 {
      PokeOther(h[a := s[0]], Wrap64(a + 1), s[1..], x);
    }
  }

  lemma {:induction false} PeekSame(h: Heap, h': Heap, a: Word, n: nat)
    requires a + n <= TWO64
    requires forall x: Word | a <= x < a + n :: PeekByte(h', x) == PeekByte(h, x)
    ensures Peek(h', a, n) == Peek(h, a, n)
    decreases n
  {
    if n > 1 {
      PeekSame(h, h', Wrap64(a + 1), n - 1);
    } else if n == 1 {
      assert Peek(h', a, 1) == [PeekByte(h', a)] + [] && Peek(h, a, 1) == [PeekByte(h, a)] + [];
    }
  }

  lemma {:induction false} PeekPoke(h: Heap, a: Word, s: seq<Byte>)
    requires a + |s| <= TWO64
    ensures Peek(Poke(h, a, s), a, |s|) == s
    decreases |s|
  {
    if s != [] {
      var h1, h2, rest := h[a := s[0]], Poke(h, a, s), s[1..];
      if rest == [] {
        assert h2 == Poke(h1, Wrap64(a + 1), rest) == h1;
        assert Peek(h2, Wrap64(a + 1), 0) == [];
      } else {
        PokeOther(h1, a + 1, rest, a);
        PeekPoke(h1, a + 1, rest);
      }
      assert s == [s[0]] + rest;
    }
  }

  lemma LoadStored(h: Heap, a: Word, w: Word)
    requires a + 8 <= TWO64
    ensures Load64(Store64(h, a, w), a) == w
  {
    PeekPoke(h, a, ToLe(w, 8));
    Le8RoundTrip(w);
  }

  lemma LoadSame(h: Heap, h': Heap, a: Word)
    requires a + 8 <= TWO64 && forall x: Word | a <= x < a + 8 :: PeekByte(h', x) == PeekByte(h, x)
    ensures Load64(h', a) == Load64(h, a)
  {
    PeekSame(h, h', a, 8);
  }

  lemma StoreOther(h: Heap, a: Word, w: Word)
    requires a + 8 <= TWO64
    ensures forall x: Word | x < a || a + 8 <= x :: PeekByte(Store64(h, a, w), x) == PeekByte(h, x)
  {
    forall x: Word | x < a || a + 8 <= x
      ensures PeekByte(Store64(h, a, w), x) == PeekByte(h, x)
    {
      PokeOther(h, a, ToLe(w, 8), x);
    }
  }

  // ----- fields -----

  /** Offsets below 2^31 survive the cast to i32. */
  ghost predicate Room(p: Word, n: nat) {
    n <= 0x8000_0000 && p + n <= TWO64
  }

  /** Offsets from 2^31 on come out of the cast lower, so there must be memory below `p` too. */
  ghost predicate WideRoom(p: Word, n: nat) {
    p + n <= TWO64 && (n > 0x8000_0000 ==> p >= 0x8000_0000)
  }

  /** The stores go round in 2^32 bytes: slots this many apart share an address. */
  const RING: nat := 0x2000_0000

  /** The address the store of slot `k` goes to. */
  function SlotAt(p: Word, k: nat): int {
    var r := k % RING;
    if 8 * r < 0x8000_0000 then p + 8 * r else p + 8 * r - 0x1_0000_0000
  }

  lemma SlotOffset(p: Word, k: nat, n: nat)
    requires WideRoom(p, n) && 8 * k + 8 <= n
    ensures 0 <= SlotAt(p, k) && SlotAt(p, k) + 8 <= TWO64 && Offset(p, Off32(k * 8)) == SlotAt(p, k)
  {
    var r := k % RING;
    assert 8 * k == 8 * r + 0x1_0000_0000 * (k / RING);
    OffRing(8 * r, k / RING);
  }

  lemma OffRing(a: nat, m: nat)
    requires a < 0x1_0000_0000
    ensures Off32(a + 0x1_0000_0000 * m) == if a < 0x8000_0000 then a else a - 0x1_0000_0000
  {
    assert (a + 0x8000_0000 + 0x1_0000_0000 * m) % 0x1_0000_0000 == (a + 0x8000_0000) % 0x1_0000_0000;
  }

  lemma SlotsApart(p: Word, k: nat, m: nat)
    requires k % RING != m % RING
    ensures SlotAt(p, k) + 8 <= SlotAt(p, m) || SlotAt(p, m) + 8 <= SlotAt(p, k)
  {
  }

  /** The last of the `n` slots stored at the address of slot `k`. */
  function Last(k: nat, n: nat): (j: nat)
    requires k < n
    ensures k <= j < n && n <= j + RING
    decreases n - k
  {
    if k + RING < n then Last(k + RING, n) else k
  }

  /** No store of slots `i` to `n` touches the byte at `x`. */
  ghost predicate Spared(p: Word, i: nat, n: nat, x: int) {
    forall k | i <= k < n :: x < SlotAt(p, k) || SlotAt(p, k) + 8 <= x
  }

  /** The store address of slot `k` holds the field of the last slot stored there. */
  ghost predicate Landed(h: Heap, p: Word, ws: seq<Word>, k: nat) {
    k + 1 < |ws| && 0 <= SlotAt(p, k) && SlotAt(p, k) + 8 <= TWO64 && Load64(h, SlotAt(p, k)) == ws[Last(k, |ws| - 1) + 1]
  }

  /** At every store address the last field stored there wins, and no other byte changes. */
  lemma {:induction false} FieldsStored(h: Heap, p: Word, ws: seq<Word>, i: nat)
    requires 1 <= i <= |ws| && WideRoom(p, 8 * (|ws| - 1))
    ensures var h' := StoreFields(h, p, ws, i);
            && (forall k: nat | i - 1 <= k && k + 1 < |ws| :: Landed(h', p, ws, k))
            && (forall x: Word | Spared(p, i - 1, |ws| - 1, x) :: PeekByte(h', x) == PeekByte(h, x))
    decreases |ws| - i
  {
    hide Load64, Store64, SlotAt, Off32, WideRoom, Landed;
    if i < |ws| {
      var n, a := 8 * (|ws| - 1), SlotAt(p, i - 1);
      SlotOffset(p, i - 1, n);
      var h1 := Store64(h, a, ws[i]);
      FieldsStored(h1, p, ws, i + 1);
      StoreOther(h, a, ws[i]);
      var h' := StoreFields(h1, p, ws, i + 1);
      forall k: nat | i <= k && k + 1 < |ws|
        ensures Landed(h', p, ws, k)
      {
        assert Landed(StoreFields(h1, p, ws, i + 1), p, ws, k);
      }
      FirstLanded(h, h', p, ws, i);
      forall x: Word | Spared(p, i - 1, |ws| - 1, x)
        ensures PeekByte(h', x) == PeekByte(h, x)
      {
        assert Spared(p, i, |ws| - 1, x);
      }
    }
  }

  /** The slot stored first holds its field, unless a later one shares its address. */
  lemma FirstLanded(h: Heap, h': Heap, p: Word, ws: seq<Word>, i: nat)
    requires 1 <= i < |ws| && WideRoom(p, 8 * (|ws| - 1)) && 0 <= SlotAt(p, i - 1) && SlotAt(p, i - 1) + 8 <= TWO64
    requires var h1 := Store64(h, SlotAt(p, i - 1), ws[i]);
             && (forall k: nat | i <= k && k + 1 < |ws| :: Landed(h', p, ws, k))
             && (forall x: Word | Spared(p, i, |ws| - 1, x) :: PeekByte(h', x) == PeekByte(h1, x))
    ensures Landed(h', p, ws, i - 1)
  {
    hide Load64, Store64, SlotAt, Landed;
    if i - 1 + RING < |ws| - 1 {
      assert Landed(h', p, ws, i - 1 + RING);
      SharedSlot(h', p, ws, i - 1);
    } else {
      OwnSlot(h, h', p, ws, i);
    }
  }

  lemma SharedSlot(h: Heap, p: Word, ws: seq<Word>, k: nat)
    requires k + RING < |ws| - 1 && Landed(h, p, ws, k + RING)
    ensures Landed(h, p, ws, k)
  {
    hide Load64;
    assert (k + RING) % RING == k % RING;
  }

  lemma OwnSlot(h: Heap, h': Heap, p: Word, ws: seq<Word>, i: nat)
    requires 1 <= i < |ws| <= i + RING && 0 <= SlotAt(p, i - 1) && SlotAt(p, i - 1) + 8 <= TWO64
    requires forall x: Word | Spared(p, i, |ws| - 1, x) :: PeekByte(h', x) == PeekByte(Store64(h, SlotAt(p, i - 1), ws[i]), x)
    ensures Landed(h', p, ws, i - 1)
  {
    hide Load64, Store64, SlotAt, Spared;
    var a := SlotAt(p, i - 1);
    var h1 := Store64(h, a, ws[i]);
    LoadStored(h, a, ws[i]);
    forall x: Word | a <= x < a + 8
      ensures PeekByte(h', x) == PeekByte(h1, x)
    {
      SparedSlot(p, i - 1, |ws| - 1, x);
    }
    LoadSame(h1, h', a);
  }

  lemma SparedSlot(p: Word, i: nat, n: nat, x: int)
    requires i < n <= i + RING && SlotAt(p, i) <= x < SlotAt(p, i) + 8
    ensures Spared(p, i + 1, n, x)
  {
    forall k | i + 1 <= k < n
      ensures x < SlotAt(p, k) || SlotAt(p, k) + 8 <= x
    {
      RingApart(i, k);
      SlotsApart(p, i, k);
    }
  }

  lemma RingApart(i: nat, k: nat)
    requires i < k < i + RING
    ensures i % RING != k % RING
  {
  }

  /** The allocator contract at one call: room for `need` bytes that holds no live byte, and
      the live bytes keep their values. */
  ghost predicate Fresh(o: Oracle, w: World, size: Word, need: nat, live: set<Word>) {
    var (p, h) := o(w, ALLOC, [size]);
    && Room(p, need)
    && (forall a | a in live :: a < p || p + need <= a)
    && (forall a | a in live :: PeekByte(h, a) == PeekByte(w.heap, a))
  }

  lemma ObjectStored(o: Oracle, w: World, ws: seq<Word>, live: set<Word>)
    requires ws != [] && Fresh(o, w, ws[0], 8 * (|ws| - 1), live)
    ensures var (p, w') := NewObject(o, w, ws);
            && Room(p, 8 * (|ws| - 1))
            && (forall j | 1 <= j < |ws| :: Load64(w'.heap, p + 8 * (j - 1)) == ws[j])
            && (forall a | a in live :: PeekByte(w'.heap, a) == PeekByte(w.heap, a))
  {
    hide StoreFields, Load64;
    var (p, w1) := CallOut(o, w, ALLOC, [ws[0]]);
    FieldsStored(w1.heap, p, ws, 1);
    var h' := StoreFields(w1.heap, p, ws, 1);
    forall j | 1 <= j < |ws|
      ensures Load64(h', p + 8 * (j - 1)) == ws[j]
    {
      var k: nat := j - 1;
      assert 1 - 1 <= k && k + 1 < |ws| && Landed(StoreFields(w1.heap, p, ws, 1), p, ws, k);
      assert SlotAt(p, k) == p + 8 * k && Last(k, |ws| - 1) == k;
    }
    forall a | a in live
      ensures PeekByte(h', a) == PeekByte(w.heap, a)
    {
      assert Spared(p, 0, |ws| - 1, a);
    }
  }

  /** Reading slot `k` of the object at `p` yields `x` and changes nothing. */
  ghost predicate SlotIs(o: Oracle, w: World, p: Word, k: nat, x: Word) {
    8 * k < TWO64 && Apply(o, w, "__slot_get", [p, 8 * k]) == (x, w)
  }

  lemma SlotGet(o: Oracle, w: World, p: Word, k: nat)
    requires p + 8 * k < TWO64 && 8 * k < TWO64
    ensures SlotIs(o, w, p, k, Load64(w.heap, p + 8 * k))
  {
    hide Load64, NewObject;
  }

  lemma SlotsRead(o: Oracle, w: World, ws: seq<Word>, live: set<Word>)
    requires ws != [] && Fresh(o, w, ws[0], 8 * (|ws| - 1), live)
    ensures var (p, w') := NewObject(o, w, ws);
            && (forall j | 1 <= j < |ws| :: SlotIs(o, w', p, j - 1, ws[j]))
            && (forall a | a in live :: PeekByte(w'.heap, a) == PeekByte(w.heap, a))
  {
    hide NewObject, Load64, SlotIs;
    ObjectStored(o, w, ws, live);
    var (p, w') := NewObject(o, w, ws);
    forall j | 1 <= j < |ws|
      ensures SlotIs(o, w', p, j - 1, ws[j])
    {
      SlotGet(o, w', p, j - 1);
    }
  }

  /** Projecting slot 8k of a built record yields field k, for fields `ws[1..]`. */
  lemma RecordLayout(o: Oracle, w: World, ws: seq<Word>, live: set<Word>)
    requires ws != [] && Fresh(o, w, ws[0], 8 * (|ws| - 1), live)
    ensures var (p, w') := Apply(o, w, RECORD_NEW, ws);
            && (forall j | 1 <= j < |ws| :: SlotIs(o, w', p, j - 1, ws[j]))
            && (forall a | a in live :: PeekByte(w'.heap, a) == PeekByte(w.heap, a))
  {
    hide NewObject, SlotIs;
    SlotsRead(o, w, ws, live);
  }

  /** A union holds its tag `ws[1]` in slot 0 and field k, `ws[k+2]`, in slot 8(k+1). */
  lemma UnionLayout(o: Oracle, w: World, ws: seq<Word>, live: set<Word>)
    requires |ws| >= 2 && Fresh(o, w, ws[0], 8 * (|ws| - 1), live)
    ensures var (p, w') := Apply(o, w, UNION_NEW, ws);
            && SlotIs(o, w', p, 0, ws[1])
            && (forall j | 2 <= j < |ws| :: SlotIs(o, w', p, j - 1, ws[j]))
            && (forall a | a in live :: PeekByte(w'.heap, a) == PeekByte(w.heap, a))
  {
    hide NewObject, SlotIs;
    SlotsRead(o, w, ws, live);
    var (p, w') := NewObject(o, w, ws);
    assert SlotIs(o, w', p, 1 - 1, ws[1]);
  }

  /** The memory the allocator hands over for an object. */
  function Allocated(o: Oracle, w: World, size: Word): (Word, Heap) {
    o(w, ALLOC, [size])
  }

  /** Slot `k` of an object with fields from `ws[1..]`: below 2^31 the last field stored at its
      address, and from there on whatever the memory held before. */
  function SlotValue(h: Heap, p: Word, ws: seq<Word>, k: nat): Word
    requires k + 1 < |ws|
  {
    if 8 * k < 0x8000_0000 then ws[Last(k, |ws| - 1) + 1] else Load64(h, Wrap64(p + 8 * k))
  }

  lemma PastBound(h: Heap, p: Word, ws: seq<Word>, k: nat)
    requires ws != [] && WideRoom(p, 8 * (|ws| - 1)) && k + 1 < |ws|
    ensures Load64(StoreFields(h, p, ws, 1), p + 8 * k) == SlotValue(h, p, ws, k)
  {
    hide StoreFields, Load64;
    FieldsStored(h, p, ws, 1);
    if 8 * k < 0x8000_0000 {
      assert Landed(StoreFields(h, p, ws, 1), p, ws, k);
      assert SlotAt(p, k) == p + 8 * k;
    } else {
      forall x: Word | p + 8 * k <= x < p + 8 * k + 8
        ensures PeekByte(StoreFields(h, p, ws, 1), x) == PeekByte(h, x)
      {
        FarSpared(p, |ws| - 1, x);
      }
      LoadSame(h, StoreFields(h, p, ws, 1), p + 8 * k);
    }
  }

  /** No store reaches 2^31 bytes above the object. */
  lemma FarSpared(p: Word, n: nat, x: int)
    requires x >= p + 0x8000_0000
    ensures Spared(p, 0, n, x)
  {
    forall k | 0 <= k < n
      ensures SlotAt(p, k) + 8 <= x
    {
    }
  }

  /**
   Records and unions of any size: at every store address the last field stored there wins,
   slots that share an address being 2^29 apart; slots below 2^31 bytes read back that winner,
   and later ones what the memory held before. So every field reads back exactly when each
   slot happens to agree.
   */
  lemma ObjectExact(o: Oracle, w: World, f: string, ws: seq<Word>)
    requires (f == RECORD_NEW && |ws| >= 1) || (f == UNION_NEW && |ws| >= 2)
    requires WideRoom(Allocated(o, w, ws[0]).0, 8 * (|ws| - 1))
    ensures var (p, h) := Allocated(o, w, ws[0]);
            var (q, w') := Apply(o, w, f, ws);
            && q == p
            && (forall k | 0 <= k < |ws| - 1 :: SlotIs(o, w', p, k, SlotValue(h, p, ws, k)))
            && (forall k: nat | k + 1 < |ws| :: Landed(w'.heap, p, ws, k))
            && ((forall k | 0 <= k < |ws| - 1 :: FieldIs(o, w', p, ws, k)) <==>
                (forall k | 0 <= k < |ws| - 1 :: SlotValue(h, p, ws, k) == ws[k + 1]))
  {
    hide StoreFields, Load64, SlotIs, SlotAt, SlotValue, Landed;
    var (p, h) := Allocated(o, w, ws[0]);
    var (q, w') := NewObject(o, w, ws);
    FieldsStored(h, p, ws, 1);
    forall k: nat | k + 1 < |ws|
      ensures Landed(w'.heap, p, ws, k)
    {
      assert Landed(StoreFields(h, p, ws, 1), p, ws, k);
    }
    forall k | 0 <= k < |ws| - 1
      ensures SlotIs(o, w', p, k, SlotValue(h, p, ws, k))
      ensures FieldIs(o, w', p, ws, k) <==> SlotValue(h, p, ws, k) == ws[k + 1]
    {
      PastBound(h, p, ws, k);
      SlotGet(o, w', p, k);
      SlotOnce(o, w', p, k, SlotValue(h, p, ws, k), ws[k + 1]);
    }
  }

  /** Projecting slot `k` yields its field. */
  ghost predicate FieldIs(o: Oracle, w: World, p: Word, ws: seq<Word>, k: nat) {
    k + 1 < |ws| && SlotIs(o, w, p, k, ws[k + 1])
  }

  lemma SlotOnce(o: Oracle, w: World, p: Word, k: nat, x: Word, y: Word)
    requires SlotIs(o, w, p, k, x)
    ensures SlotIs(o, w, p, k, y) <==> x == y
  {
    hide Apply;
  }

  // ----- byte constants -----

  /** The address the store of byte `i` goes to. */
  function ByteAt(p: Word, i: nat): int {
    if i < 0x8000_0000 then p + i else p + i - 0x1_0000_0000
  }

  /** Every byte lands at its address, and no other byte changes. */
  lemma {:induction false} BytesStored(h: Heap, p: Word, s: seq<Byte>, i: nat)
    requires i <= |s| <= 0x1_0000_0000 && WideRoom(p, |s|)
    ensures var h' := StoreText(h, p, s, i);
            && (forall j | i <= j < |s| :: 0 <= ByteAt(p, j) < TWO64 && PeekByte(h', ByteAt(p, j)) == s[j])
            && (forall x: Word | (forall j | i <= j < |s| :: x != ByteAt(p, j)) :: PeekByte(h', x) == PeekByte(h, x))
    decreases |s| - i
  {
    if i < |s| {
      var a := ByteAt(p, i);
      assert Offset(p, Off32(i)) == a;
      var h1 := h[a := s[i]];
      assert Poke(h, a, [s[i]]) == h1 by { assert [s[i]][1..] == []; }
      BytesStored(h1, p, s, i + 1);
    }
  }

  /** Bytes of a constant from 2^31 on are stored 2^32 lower, and their own places keep what they held. */
  lemma TextExact(h: Heap, p: Word, s: seq<Byte>, i: nat)
    requires WideRoom(p, |s|) && i < |s| <= 0x1_0000_0000
    ensures var h' := StoreText(h, p, s, 0);
            && PeekByte(h', p + i) == (if i < 0x8000_0000 then s[i] else PeekByte(h, p + i))
            && (i >= 0x8000_0000 ==> PeekByte(h', p + i - 0x1_0000_0000) == s[i])
  {
    hide StoreText;
    BytesStored(h, p, s, 0);
    assert ByteAt(p, i) == if i < 0x8000_0000 then p + i else p + i - 0x1_0000_0000;
    assert i >= 0x8000_0000 ==> forall j | 0 <= j < |s| :: p + i != ByteAt(p, j);
  }

  lemma TextStored(h: Heap, p: Word, s: seq<Byte>)
    requires Room(p, |s|)
    ensures var h' := StoreText(h, p, s, 0);
            && (forall j | 0 <= j < |s| :: PeekByte(h', p + j) == s[j])
            && (forall x: Word | x < p || p + |s| <= x :: PeekByte(h', x) == PeekByte(h, x))
  {
    hide StoreText;
    BytesStored(h, p, s, 0);
    assert forall j | 0 <= j < |s| :: ByteAt(p, j) == p + j;
  }

  lemma {:induction false} PeekIs(h: Heap, a: Word, s: seq<Byte>)
    requires a + |s| <= TWO64 && forall j | 0 <= j < |s| :: PeekByte(h, a + j) == s[j]
    ensures Peek(h, a, |s|) == s
    decreases |s|
  {
    if s != [] {
      assert PeekByte(h, a + 0) == s[0];
      if |s| > 1 {
        forall j | 0 <= j < |s| - 1
          ensures PeekByte(h, a + 1 + j) == s[1..][j]
        {
          assert PeekByte(h, a + (j + 1)) == s[j + 1];
        }
        PeekIs(h, a + 1, s[1..]);
      }
      assert s == [s[0]] + s[1..];
    }
  }

  ghost function Region(p: Word, n: nat): (r: set<Word>)
    requires p + n <= TWO64
    ensures forall a: Word :: a in r <==> p <= a < p + n
  {
    if n == 0 then {} else Region(p, n - 1) + {p + n - 1}
  }

  /** A byte constant evaluates to a span whose data and size slots describe exactly its bytes. */
  lemma SpanLayout(o: Oracle, env: Env, w: World, s: seq<Byte>, live: set<Word>)
    requires Fresh(o, w, Wrap64(if |s| > 1 then |s| else 1), |s|, live)
    requires var (p, w1) := CallOut(o, w, ALLOC, [Wrap64(if |s| > 1 then |s| else 1)]);
             Fresh(o, w1.(heap := StoreText(w1.heap, p, s, 0)), 16, 16, live + Region(p, |s|))
    ensures var (p, _) := CallOut(o, w, ALLOC, [Wrap64(if |s| > 1 then |s| else 1)]);
            var (q, w') := Eval(o, env, Text(s), w);
            && SlotIs(o, w', q, 0, p) && SlotIs(o, w', q, 1, |s|)
            && Peek(w'.heap, p, |s|) == s
            && (forall a | a in live :: PeekByte(w'.heap, a) == PeekByte(w.heap, a))
  {
    hide Store64, Load64, Poke, StoreText, Peek, SlotIs;
    var (p, w1) := CallOut(o, w, ALLOC, [Wrap64(if |s| > 1 then |s| else 1)]);
    TextStored(w1.heap, p, s);
    var w2 := w1.(heap := StoreText(w1.heap, p, s, 0));
    var (q, w3) := CallOut(o, w2, ALLOC, [16]);
    SpanStored(w3.heap, q, p, |s|);
    var h4 := Store64(w3.heap, q, p);
    var h5 := Store64(h4, q + 8, |s|);
    var w' := w3.(heap := h5);
    SlotGet(o, w', q, 0);
    SlotGet(o, w', q, 1);
    forall j | 0 <= j < |s|
      ensures PeekByte(h5, p + j) == s[j]
    {
      assert p + j in Region(p, |s|);
    }
    PeekIs(h5, p, s);
  }

  lemma SpanStored(h: Heap, q: Word, p: Word, n: Word)
    requires Room(q, 16)
    ensures Offset(q, 0) == q && Offset(q, 8) == q + 8
    ensures var h' := Store64(Store64(h, q, p), q + 8, n);
            && Load64(h', q) == p && Load64(h', q + 8) == n
            && (forall x: Word | x < q || q + 16 <= x :: PeekByte(h', x) == PeekByte(h, x))
  {
    hide Store64, Load64;
    var h1 := Store64(h, q, p);
    var h' := Store64(h1, q + 8, n);
    StoreOther(h, q, p);
    StoreOther(h1, q + 8, n);
    LoadStored(h, q, p);
    LoadStored(h1, q + 8, n);
    LoadSame(h1, h', q);
  }
}
