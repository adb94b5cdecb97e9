// Sequence numbers and anti-replay window of an ESP SA (esp_context.c), section 3.4.3 of RFC 4303.
module EspContext {
  import opened Base

  const WINDOW_SIZE: u32 := 128
  const SEQNO_MAX: u32 := 0xFFFF_FFFF

  // An authenticated encryption algorithm with its key set: sizes in bytes, an optional generator of
  // IVs from sequence numbers, and encryption (which appends the ICV) and decryption (which verifies
  // it) of a text with associated data and an IV.  Every call may fail.
  datatype Aead = Aead(
    blockSize: pos, ivSize: nat, icvSize: nat,
    ivGen: Option<u32 -> Option<bytes>>,
    encrypt: (bytes, bytes, bytes) -> Option<bytes>,
    decrypt: (bytes, bytes, bytes) -> Option<bytes>)
  {
    ghost predicate Lawful() {
      && (ivGen.Some? ==> forall n: u32 :: ivGen.value(n).Some? ==> |ivGen.value(n).value| == ivSize)
      && (forall plain, aad, iv :: encrypt(plain, aad, iv).Some? ==>
            && |encrypt(plain, aad, iv).value| == |plain| + icvSize
            && decrypt(encrypt(plain, aad, iv).value, aad, iv) == Some(plain))
      && (forall cipher, aad, iv :: decrypt(cipher, aad, iv).Some? ==>
            |cipher| == |decrypt(cipher, aad, iv).value| + icvSize)
    }
  }

  // ---------------------------------------------------------------- what the window stands for

  // The highest authenticated sequence number, and all authenticated ones
  datatype Replay = Replay(highest: u32, seen: set<int>) {
    ghost predicate Wf() { forall n | n in seen :: 1 <= n <= highest }

    // The check of RFC 4303: not yet seen, and not left of the window
    predicate Fresh(seqno: u32) {
      seqno > 0 && (seqno > highest || (highest - seqno < WINDOW_SIZE && seqno !in seen))
    }

    function Mark(seqno: u32): Replay {
      Replay(if seqno > highest then seqno else highest, seen + {seqno as int})
    }
  }

  // ---------------------------------------------------------------- bits by distance

  // The bit that stands for the number `distance` below the highest one
  function Slot(index: int, distance: int): int {
    if distance <= index then index - distance else index - distance + WINDOW_SIZE
  }

  lemma SlotIsWrapped(index: u32, distance: u32)
    requires index < WINDOW_SIZE && distance < WINDOW_SIZE
    ensures Sub32(index, distance) % WINDOW_SIZE == Slot(index, distance)
  {}

  lemma MulAtLeast(k: int, w: int)
    requires k >= 1 && w > 0
    ensures k * w >= w
  {}

  lemma MulDiff(d: int, e: int, w: int)
    ensures (d - e) * w == d * w - e * w
  {}

  lemma DivModUnique(x: int, d: int, r: int, w: int)
    requires w > 0 && 0 <= r < w && x == d * w + r
    ensures x % w == r
  {
    var e := x / w;
    MulDiff(d, e, w);
    if d > e { MulAtLeast(d - e, w); }
    if d < e { MulDiff(e, d, w); MulAtLeast(e - d, w); }
  }

  lemma ModPlusMultiple(x: int, q: int, w: int)
    requires w > 0
    ensures (x + q * w) % w == x % w
  {
    var d, r := x / w, x % w;
    assert x + q * w == (d + q) * w + r;
    DivModUnique(x + q * w, d + q, r, w);
  }

  lemma DividingSizeIsRight(w: u32, i: u32, d: u32)
    requires w > 0 && 0x1_0000_0000 % w == 0
    ensures Sub32(i, d) % w == (i - d) % w
  {
    if i < d {
      var q := 0x1_0000_0000 / w;
      assert q * w == 0x1_0000_0000;
      assert Sub32(i, d) == i - d + 0x1_0000_0000;
      ModPlusMultiple(i - d, q, w);
    }
  }

  lemma OtherSizeIsWrong(w: u32)
    requires w > 0 && 0x1_0000_0000 % w != 0
    ensures w > 1 && Sub32(0, 1) % w != (0 - 1) % w
  {
    DivModUnique(-1, -1, w - 1, w);
    if SEQNO_MAX % w == w - 1 {
      var e := SEQNO_MAX / w;
      assert 0x1_0000_0000 == e * w + w;
      DivModUnique(0x1_0000_0000, e + 1, 0, w);
    }
  }

  // An unsigned subtraction that wraps around may be reduced modulo the window size exactly for window
  // sizes that divide 2^32, as 128 does; being a multiple of 8 is neither necessary nor sufficient
  lemma WrappedIndexIsRightIff(w: u32)
    requires w > 0
    ensures (forall i: u32, d: u32 | i < w && d < w :: Sub32(i, d) % w == (i - d) % w)
       <==> 0x1_0000_0000 % w == 0
  {
    if 0x1_0000_0000 % w == 0 {
      forall i: u32, d: u32 | i < w && d < w ensures Sub32(i, d) % w == (i - d) % w {
        DividingSizeIsRight(w, i, d);
      }
    } else {
      OtherSizeIsWrong(w);
    }
  }

  lemma MultipleOfEightIsNotEnough()
    ensures 24 % 8 == 0 && Sub32(0, 1) % 24 != (0 - 1) % 24
  {}

  function Mask(k: nat): bv8
    requires k < 8
  {
    1 << k
  }

  predicate Bit(window: seq<bv8>, index: nat)
    requires index / 8 < |window|
  {
    window[index / 8] & Mask(index % 8) != 0
  }

  lemma MaskedBits(b: bv8, k: nat, j: nat)
    requires k < 8 && j < 8
    ensures ((b | Mask(k)) & Mask(j) != 0) <==> (k == j || b & Mask(j) != 0)
    ensures ((b & !Mask(k)) & Mask(j) != 0) <==> (k != j && b & Mask(j) != 0)
  {}

  // The bits by distance from the highest number
  ghost function Marks(window: seq<bv8>, index: int): (m: seq<bool>)
    requires |window| == WINDOW_SIZE / 8 + 1 && 0 <= index < WINDOW_SIZE
    ensures |m| == WINDOW_SIZE
  {
    seq(WINDOW_SIZE, d requires 0 <= d < WINDOW_SIZE => Bit(window, Slot(index, d)))
  }

  // after is before with one bit changed
  ghost predicate OneBitSet(before: seq<bv8>, after: seq<bv8>, index: nat, on: bool) {
    && |after| == |before|
    && forall j: nat | j / 8 < |before| :: Bit(after, j) == if j == index then on else Bit(before, j)
  }

  lemma MarkSet(before: seq<bv8>, after: seq<bv8>, index: int, d: int, on: bool)
    requires |before| == WINDOW_SIZE / 8 + 1 && 0 <= index < WINDOW_SIZE && 0 <= d < WINDOW_SIZE
    requires OneBitSet(before, after, Slot(index, d), on)
    ensures Marks(after, index) == Marks(before, index)[d := on]
  {}

  lemma MarksMove(before: seq<bv8>, after: seq<bv8>, index: int)
    requires |before| == WINDOW_SIZE / 8 + 1 && 0 <= index < WINDOW_SIZE
    requires OneBitSet(before, after, (index + 1) % WINDOW_SIZE, false)
    ensures Marks(after, (index + 1) % WINDOW_SIZE) == [false] + Marks(before, index)[..WINDOW_SIZE - 1]
  {
    var next := (index + 1) % WINDOW_SIZE;
    assert Slot(next, 0) == next;
    forall e | 0 < e < WINDOW_SIZE ensures Marks(after, next)[e] == Marks(before, index)[e - 1] {
      assert Slot(next, e) == Slot(index, e - 1) != next;
    }
  }

  // The marks once the highest number has grown by `shift`
  ghost function Shifted(m: seq<bool>, shift: nat): seq<bool>
    requires shift <= |m|
  {
    seq(shift, _ => false) + m[..|m| - shift]
  }

  // The marks agree with the set of authenticated numbers
  ghost predicate Represents(m: seq<bool>, r: Replay) {
    && r.Wf() && |m| == WINDOW_SIZE
    && forall d | 0 <= d < |m| :: m[d] <==> r.highest - d in r.seen
  }

  lemma NewHighest(m: seq<bool>, r: Replay, seqno: u32, shift: u32)
    requires Represents(m, r) && seqno > r.highest
    requires shift == if seqno - r.highest < WINDOW_SIZE then seqno - r.highest else WINDOW_SIZE
    ensures Represents(Shifted(m, shift)[0 := true], r.Mark(seqno))
  {}

  lemma InsideWindow(m: seq<bool>, r: Replay, seqno: u32, distance: u32)
    requires Represents(m, r) && 0 < seqno <= r.highest && distance == r.highest - seqno < WINDOW_SIZE
    ensures Represents(m[distance := true], r.Mark(seqno))
  {}

  lemma ShiftedOnce(m: seq<bool>, shift: nat)
    requires shift < |m|
    ensures [false] + Shifted(m, shift)[..|m| - 1] == Shifted(m, shift + 1)
  {}

  // ---------------------------------------------------------------- the context

  class Context {
    var lastSeqno: u32
    var seqnoIndex: u32
    const window: array<bv8>
    const inbound: bool
    const aead: Aead
    ghost var seen: set<int>

    ghost function View(): Replay
      reads this
    {
      Replay(lastSeqno, seen)
    }

    ghost predicate Valid()
      reads this, window
    {
      && View().Wf()
      && (inbound ==>
            && window.Length == WINDOW_SIZE / 8 + 1
            && seqnoIndex < WINDOW_SIZE
            && Represents(Marks(window[..], seqnoIndex), View()))
    }

    constructor (aead: Aead, inbound: bool)
      ensures Valid() && View() == Replay(0, {}) && fresh(window)
      ensures this.aead == aead && this.inbound == inbound
    {
      this.aead := aead;
      this.inbound := inbound;
      lastSeqno, seqnoIndex, seen := 0, 0, {};
      window := new bv8[if inbound then WINDOW_SIZE / 8 + 1 else 0](_ => 0);
    }

    method SetWindowBit(index: u32, on: bool)
      requires index / 8 < window.Length
      modifies window
      ensures OneBitSet(old(window[..]), window[..], index, on)
    {
      var i := index / 8;
      ghost var b := window[i];
      if on {
        window[i] := window[i] | Mask(index % 8);
      } else {
        window[i] := window[i] & !Mask(index % 8);
      }
      forall j: nat | j / 8 < window.Length
        ensures Bit(window[..], j) == if j == index then on else old(Bit(window[..], j))
      {
        if j / 8 == i { MaskedBits(b, index % 8, j % 8); }
      }
    }

    method GetWindowBit(index: u32) returns (on: bool)
      requires index / 8 < window.Length
      ensures on == Bit(window[..], index)
    {
      on := window[index / 8] & Mask(index % 8) != 0;
    }

    method CheckWindow(seqno: u32) returns (ok: bool)
      requires Valid() && inbound && seqno <= lastSeqno && lastSeqno - seqno < WINDOW_SIZE
      ensures ok <==> seqno !in seen
    {
      var offset := Sub32(lastSeqno, seqno);
      SlotIsWrapped(seqnoIndex, offset);
      assert Marks(window[..], seqnoIndex)[offset] <==> seqno in seen;
      offset := Sub32(seqnoIndex, offset) % WINDOW_SIZE;
      var marked := GetWindowBit(offset);
      ok := !marked;
    }

    method VerifySeqno(seqno: u32) returns (ok: bool)
      requires Valid()
      ensures ok <==> inbound && View().Fresh(seqno)
    {
      if !inbound {
        return false;
      }
      if seqno > lastSeqno {
        return true;
      } else if seqno > 0 && WINDOW_SIZE > Sub32(lastSeqno, seqno) {
        ok := CheckWindow(seqno);
      } else {
        return false;
      }
    }

    // Moves the window `shift` numbers up: the bits that come into it are cleared
    method ShiftWindow(shift: u32)
      requires window.Length == WINDOW_SIZE / 8 + 1 && seqnoIndex < WINDOW_SIZE && shift <= WINDOW_SIZE
      modifies `seqnoIndex, window
      ensures seqnoIndex < WINDOW_SIZE
      ensures Marks(window[..], seqnoIndex) == Shifted(old(Marks(window[..], seqnoIndex)), shift)
    {
      var i := 0;
      while i < shift
        invariant 0 <= i <= shift && seqnoIndex < WINDOW_SIZE
        invariant Marks(window[..], seqnoIndex) == Shifted(old(Marks(window[..], seqnoIndex)), i)
      {
        ghost var before, index := window[..], seqnoIndex;
        seqnoIndex := (seqnoIndex + 1) % WINDOW_SIZE;
        SetWindowBit(seqnoIndex, false);
        MarksMove(before, window[..], index);
        ShiftedOnce(old(Marks(window[..], seqnoIndex)), i);
        i := i + 1;
      }
    }

    // The caller must just have verified the number
    method SetAuthenticatedSeqno(seqno: u32)
      requires Valid() && (inbound ==> View().Fresh(seqno))
      modifies this, window
      ensures Valid()
      ensures View() == if inbound then old(View()).Mark(seqno) else old(View())
    {
      if !inbound {
        return;
      }
      ghost var marks, target := Marks(window[..], seqnoIndex), View().Mark(seqno);
      if seqno > lastSeqno {
        var shift := Sub32(seqno, lastSeqno);
        shift := if shift < WINDOW_SIZE then shift else WINDOW_SIZE;
        NewHighest(marks, View(), seqno, shift);
        ShiftWindow(shift);
        ghost var before := window[..];
        SetWindowBit(seqnoIndex, true);
        MarkSet(before, window[..], seqnoIndex, 0, true);
        marks := Shifted(marks, shift)[0 := true];
        lastSeqno := seqno;
      } else {
        var i := Sub32(lastSeqno, seqno);
        InsideWindow(marks, View(), seqno, i);
        SlotIsWrapped(seqnoIndex, i);
        ghost var before := window[..];
        SetWindowBit(Sub32(seqnoIndex, i) % WINDOW_SIZE, true);
        MarkSet(before, window[..], seqnoIndex, i, true);
        marks := marks[i := true];
      }
      seen := seen + {seqno as int};
      assert Represents(marks, target);
      assert marks == Marks(window[..], seqnoIndex) && target == View();
    }

    method NextSeqno() returns (ok: bool, seqno: u32)
      requires Valid()
      modifies this
      ensures Valid() && seen == old(seen)
      ensures ok <==> !inbound && old(lastSeqno) < SEQNO_MAX
      ensures if ok then lastSeqno == seqno == old(lastSeqno) + 1 else lastSeqno == old(lastSeqno)
    {
      seqno := 0;
      if inbound || lastSeqno == SEQNO_MAX {
        return false, 0;
      }
      lastSeqno := lastSeqno + 1;
      return true, lastSeqno;
    }
  }

  // ---------------------------------------------------------------- whole runs of a receiver

  // A packet arriving with this number; whether its ICV would verify
  datatype Arrival = Arrival(seqno: u32, authentic: bool)

  // verify_seqno, decryption, set_authenticated_seqno
  predicate Accepts(r: Replay, a: Arrival) { r.Fresh(a.seqno) && a.authentic }

  function Receive(r: Replay, a: Arrival): Replay { if Accepts(r, a) then r.Mark(a.seqno) else r }

  function After(r: Replay, arrivals: seq<Arrival>): Replay {
    if arrivals == [] then r else Receive(After(r, arrivals[..|arrivals| - 1]), arrivals[|arrivals| - 1])
  }

  // Arrival k is taken, in the state the earlier ones left
  predicate Taken(r: Replay, arrivals: seq<Arrival>, k: nat)
    requires k < |arrivals|
  {
    Accepts(After(r, arrivals[..k]), arrivals[k])
  }

  ghost predicate TakenBefore(r: Replay, arrivals: seq<Arrival>, k: nat, n: int)
    requires k <= |arrivals|
  {
    exists j :: 0 <= j < k && Taken(r, arrivals, j) && arrivals[j].seqno == n
  }

  lemma {:induction false} SeenIsTaken(r: Replay, arrivals: seq<Arrival>, k: nat, n: int)
    requires k <= |arrivals|
    ensures n in After(r, arrivals[..k]).seen <==> n in r.seen || TakenBefore(r, arrivals, k, n)
    decreases k
  {
    if k > 0 {
      SeenIsTaken(r, arrivals, k - 1, n);
      assert arrivals[..k][..k - 1] == arrivals[..k - 1];
      assert TakenBefore(r, arrivals, k, n) <==>
        TakenBefore(r, arrivals, k - 1, n) || (Taken(r, arrivals, k - 1) && arrivals[k - 1].seqno == n);
    } else {
      assert arrivals[..0] == [];
    }
  }

  lemma {:induction false} HighestGrows(r: Replay, arrivals: seq<Arrival>, j: nat, k: nat)
    requires j <= k <= |arrivals| && r.Wf()
    ensures After(r, arrivals[..k]).Wf()
    ensures After(r, arrivals[..j]).highest <= After(r, arrivals[..k]).highest
    decreases k
  {
    if k == 0 {
      assert arrivals[..0] == [];
    } else {
      assert arrivals[..k][..k - 1] == arrivals[..k - 1];
      HighestGrows(r, arrivals, if j < k then j else k - 1, k - 1);
    }
  }

  // The highest number is that of an arrival that was taken, or the one at the start, and none is above it
  lemma {:induction false} HighestIsTaken(r: Replay, arrivals: seq<Arrival>, k: nat)
    requires k <= |arrivals|
    ensures var h := After(r, arrivals[..k]).highest;
      && (h == r.highest || TakenBefore(r, arrivals, k, h))
      && r.highest <= h && forall n | TakenBefore(r, arrivals, k, n) :: n <= h
    decreases k
  {
    if k == 0 {
      assert arrivals[..0] == [];
    } else {
      HighestIsTaken(r, arrivals, k - 1);
      assert arrivals[..k][..k - 1] == arrivals[..k - 1];
      forall n ensures TakenBefore(r, arrivals, k, n) <==>
        TakenBefore(r, arrivals, k - 1, n) || (Taken(r, arrivals, k - 1) && arrivals[k - 1].seqno == n) {}
    }
  }

  // Which packets a receiver takes, whatever the network reorders, drops, duplicates or forges:
  // the authentic ones with a number that is either new high or inside the window and not taken before
  lemma TakenIff(r: Replay, arrivals: seq<Arrival>, k: nat)
    requires k < |arrivals|
    ensures var (n, h) := (arrivals[k].seqno, After(r, arrivals[..k]).highest);
      Taken(r, arrivals, k) <==>
        && arrivals[k].authentic && n > 0
        && (n > h || (h - n < WINDOW_SIZE && n !in r.seen && !TakenBefore(r, arrivals, k, n)))
  {
    SeenIsTaken(r, arrivals, k, arrivals[k].seqno);
  }

  lemma TakenAtMostOnce(r: Replay, arrivals: seq<Arrival>, j: nat, k: nat)
    requires r.Wf() && j < k < |arrivals| && Taken(r, arrivals, j) && Taken(r, arrivals, k)
    ensures arrivals[j].seqno != arrivals[k].seqno
  {
    if arrivals[j].seqno == arrivals[k].seqno {
      SeenIsTaken(r, arrivals, k, arrivals[k].seqno);
      HighestGrows(r, arrivals, k, k);
      assert TakenBefore(r, arrivals, k, arrivals[k].seqno);
    }
  }
}
