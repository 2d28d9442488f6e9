/** The receive ring between driver and hardware: what its descriptors and slots
    look like at every moment, as values. */
module RxRing {
  import opened CInt
  import opened TxHandoff

  type Frame = seq<byte>

  /** A receive descriptor. `complete` is the ownership bit of the address word: the
      hardware sets it when it has filled the buffer, the driver clears it. */
  datatype RxBd = RxBd(addr: Option<Buf>, complete: bool, wrap: bool, len: nat)

  /** Descriptors, storage slots and the library's head of the hardware segment. */
  datatype Rx = Rx(n: nat, bds: seq<RxBd>, slots: seq<Option<Buf>>, tail: nat) {
    predicate Shape() {
      0 < n == |bds| == |slots| && tail < n
    }

    function Bd(o: nat): RxBd
      requires Shape() && o < n
    {
      bds[At(tail, o, n)]
    }

    function Slot(o: nat): Option<Buf>
      requires Shape() && o < n
    {
      slots[At(tail, o, n)]
    }

    predicate WrapOk() {
      |bds| == n && forall i :: 0 <= i < n ==> (bds[i].wrap <==> i == n - 1)
    }
  }

  /** The buffers the hardware segment owns, in ring order, of which it has filled
      the first `got`. The segment starts k places after the library's head: that
      is how many descriptors the receive handler has emptied so far. */
  datatype Held = Held(k: nat, ring: seq<Buf>, got: nat)

  /** Descriptor o, seen from the head: it belongs to the segment, and is complete
      exactly if it is filled; or it does not, and stays complete. */
  predicate BdOk(bd: RxBd, h: Held, o: int) {
    if h.k <= o < h.k + |h.ring| then bd.addr == Some(h.ring[o - h.k]) && bd.complete == (o - h.k < h.got)
    else bd.complete
  }

  predicate BdsOk(r: Rx, h: Held)
    requires r.Shape()
  {
    forall o :: 0 <= o < r.n ==> BdOk(r.Bd(o), h, o)
  }

  /** The first `slotted` of the segment's slots hold its buffers. */
  predicate SlotsOk(r: Rx, h: Held, slotted: nat)
    requires r.Shape() && h.k + |h.ring| <= r.n && slotted <= |h.ring|
  {
    forall o :: h.k <= o < h.k + slotted ==> r.Slot(o) == Some(h.ring[o - h.k])
  }

  predicate RingOk(r: Rx, h: Held, slotted: nat, pos: nat) {
    && r.Shape() && r.WrapOk() && h.k + |h.ring| <= r.n && h.got <= |h.ring| && slotted <= |h.ring|
    && pos == At(r.tail, h.k + h.got, r.n)
    && BdsOk(r, h) && SlotsOk(r, h, slotted)
  }

  lemma WithRxBdReads(r: Rx, w: nat, bd: RxBd)
    requires r.Shape() && r.WrapOk() && w < r.n && bd.wrap == r.Bd(w).wrap
    ensures var t := r.(bds := r.bds[At(r.tail, w, r.n) := bd]);
      && t.Shape() && t.WrapOk()
      && (forall o :: 0 <= o < r.n ==> t.Bd(o) == if o == w then bd else r.Bd(o))
      && (forall o :: 0 <= o < r.n ==> t.Slot(o) == r.Slot(o))
  {
  }

  lemma WithRxSlotReads(r: Rx, w: nat, slot: Option<Buf>)
    requires r.Shape() && r.WrapOk() && w < r.n
    ensures var t := r.(slots := r.slots[At(r.tail, w, r.n) := slot]);
      && t.Shape() && t.WrapOk()
      && (forall o :: 0 <= o < r.n ==> t.Slot(o) == if o == w then slot else r.Slot(o))
      && (forall o :: 0 <= o < r.n ==> t.Bd(o) == r.Bd(o))
  {
  }

  // ----- The hardware

  /** The offset of the receiver's position. */
  function Next(r: Rx, h: Held): nat {
    if h.k + h.got < r.n then h.k + h.got else 0
  }

  /** A frame finds a buffer unless the descriptor at the receiver's position is
      complete: exactly when every buffer of the segment is filled. */
  lemma Receives(r: Rx, h: Held, slotted: nat, pos: nat)
    requires RingOk(r, h, slotted, pos)
    ensures pos < r.n
    ensures r.bds[pos].complete <==> h.got == |h.ring|
    ensures h.got < |h.ring| ==> r.bds[pos].addr == Some(h.ring[h.got])
  {
    var o := Next(r, h);
    assert At(r.tail, o, r.n) == pos;
    assert BdOk(r.Bd(o), h, o);
  }

  function Filled(bd: RxBd, len: nat): RxBd {
    bd.(complete := true, len := len)
  }

  function OneMore(h: Held): Held {
    h.(got := h.got + 1)
  }

  lemma FilledIsOk(bd: RxBd, h: Held, o: int, len: nat)
    requires BdOk(bd, h, o) && h.got < |h.ring|
    ensures BdOk(if o == h.k + h.got then Filled(bd, len) else bd, OneMore(h), o)
  {
  }

  lemma ReceiveKeepsRing(r: Rx, h: Held, slotted: nat, pos: nat, len: nat)
    requires RingOk(r, h, slotted, pos) && h.got < |h.ring|
    ensures pos < r.n
    ensures RingOk(r.(bds := r.bds[pos := Filled(r.bds[pos], len)]), OneMore(h), slotted,
                   if r.bds[pos].wrap then 0 else pos + 1)
  {
    hide BdOk;
    var c := h.k + h.got;
    WithRxBdReads(r, c, Filled(r.Bd(c), len));
    var t := r.(bds := r.bds[pos := Filled(r.bds[pos], len)]);
    forall o | 0 <= o < r.n ensures BdOk(t.Bd(o), OneMore(h), o) {
      FilledIsOk(r.Bd(o), h, o, len);
    }
  }

  // ----- The driver

  /** The filled descriptors are a prefix of the segment: FromHwRx counts them. */
  function Completed(r: Rx, o: nat, hwCnt: nat): (c: nat)
    requires r.Shape() && o <= hwCnt <= r.n
    ensures o <= c <= hwCnt
    decreases hwCnt - o
  {
    if o < hwCnt && r.Bd(o).complete then Completed(r, o + 1, hwCnt) else o
  }

  lemma {:induction false} CompletedIsGot(r: Rx, h: Held, slotted: nat, pos: nat, o: nat)
    requires RingOk(r, h, slotted, pos) && h.k == 0 && o <= h.got
    ensures Completed(r, o, |h.ring|) == h.got
    decreases h.got - o
  {
    if o < |h.ring| {
      assert BdOk(r.Bd(o), h, o);
      if o < h.got {
        CompletedIsGot(r, h, slotted, pos, o + 1);
      }
    }
  }

  /** A filled buffer leaves the segment: its descriptor stays complete. */
  function Emptied(h: Held): Held
    requires h.ring != [] && h.got > 0
  {
    Held(h.k + 1, h.ring[1..], h.got - 1)
  }

  lemma EmptiedIsOk(bd: RxBd, h: Held, o: int)
    requires BdOk(bd, h, o) && h.ring != [] && h.got > 0
    ensures BdOk(bd, Emptied(h), o)
  {
  }

  lemma EmptyKeepsRing(r: Rx, h: Held, slotted: nat, pos: nat)
    requires RingOk(r, h, slotted, pos) && h.got > 0 && slotted > 0
    ensures RingOk(r, Emptied(h), slotted - 1, pos)
    ensures r.Slot(h.k) == Some(h.ring[0])
  {
    hide BdOk, At, Rx.Bd, Rx.Slot;
    var g := Emptied(h);
    forall o | 0 <= o < r.n ensures BdOk(r.Bd(o), g, o) {
      EmptiedIsOk(r.Bd(o), h, o);
    }
    forall o | g.k <= o < g.k + (slotted - 1) ensures r.Slot(o) == Some(g.ring[o - g.k]) {
      assert r.Slot(o) == Some(h.ring[o - h.k]);
    }
  }

  function Moved(r: Rx, k: nat): Rx {
    r.(tail := At(r.tail, k, r.n))
  }

  lemma MovedReads(r: Rx, k: nat)
    requires r.Shape() && r.WrapOk() && k <= r.n
    ensures var t := Moved(r, k);
      && t.Shape() && t.WrapOk()
      && (forall o :: 0 <= o < r.n - k ==> t.Bd(o) == r.Bd(o + k) && t.Slot(o) == r.Slot(o + k))
      && (forall o :: r.n - k <= o < r.n ==> t.Bd(o) == r.Bd(o + k - r.n) && t.Slot(o) == r.Slot(o + k - r.n))
  {
  }

  lemma MovedIsOk(bd: RxBd, h: Held, n: nat, o: nat)
    requires h.k + |h.ring| <= n && o < n
    requires BdOk(bd, h, if o < n - h.k then o + h.k else o + h.k - n)
    ensures BdOk(bd, h.(k := 0), o)
  {
  }

  /** BdRingFree moves the head past the emptied descriptors. */
  lemma FreeKeepsRing(r: Rx, h: Held, slotted: nat, pos: nat)
    requires RingOk(r, h, slotted, pos)
    ensures RingOk(Moved(r, h.k), h.(k := 0), slotted, pos)
  {
    hide BdOk;
    MovedReads(r, h.k);
    var t := Moved(r, h.k);
    forall o | 0 <= o < r.n ensures BdOk(t.Bd(o), h.(k := 0), o) {
      assert BdOk(r.Bd(if o < r.n - h.k then o + h.k else o + h.k - r.n), h,
                  if o < r.n - h.k then o + h.k else o + h.k - r.n);
      MovedIsOk(t.Bd(o), h, r.n, o);
    }
    forall o | 0 <= o < slotted ensures t.Slot(o) == Some(h.ring[o]) {
      assert r.Slot(o + h.k) == Some(h.ring[o + h.k - h.k]);
    }
  }

  /** The first free descriptor's place in the ring. */
  function FreePlace(r: Rx, h: Held): nat {
    At(r.tail, |h.ring|, r.n)
  }

  /** Arming the first free descriptor with a buffer hands it to the hardware. */
  function Armed(r: Rx, i: nat, p: Buf): Rx
    requires i < |r.bds|
  {
    r.(bds := r.bds[i := RxBd(Some(p), false, i == r.n - 1, r.bds[i].len)])
  }

  function Longer(h: Held, p: Buf): Held {
    h.(ring := h.ring + [p])
  }

  lemma ArmedIsOk(bd: RxBd, h: Held, o: nat, p: Buf)
    requires BdOk(bd, h, o) && h.k == 0 && h.got <= |h.ring|
    ensures BdOk(if o == |h.ring| then bd.(addr := Some(p), complete := false) else bd, Longer(h, p), o)
  {
  }

  lemma ArmKeepsRing(r: Rx, h: Held, pos: nat, p: Buf)
    requires RingOk(r, h, |h.ring|, pos) && h.k == 0 && |h.ring| < r.n
    ensures FreePlace(r, h) < r.n
    ensures RingOk(Armed(r, FreePlace(r, h), p), Longer(h, p), |h.ring|, pos)
  {
    hide BdOk;
    var m := |h.ring|;
    var bd := r.Bd(m).(addr := Some(p), complete := false);
    WithRxBdReads(r, m, bd);
    var t := Armed(r, FreePlace(r, h), p);
    forall o | 0 <= o < r.n ensures BdOk(t.Bd(o), Longer(h, p), o) {
      ArmedIsOk(r.Bd(o), h, o, p);
    }
  }

  /** Clearing a status word changes nothing that the hardware looks at. */
  lemma StatusKeepsRing(r: Rx, h: Held, pos: nat)
    requires RingOk(r, h, |h.ring|, pos) && h.k == 0 && |h.ring| < r.n
    ensures FreePlace(r, h) < r.n
    ensures RingOk(r.(bds := r.bds[FreePlace(r, h) := r.bds[FreePlace(r, h)].(len := 0)]), h, |h.ring|, pos)
  {
    WithRxBdReads(r, |h.ring|, r.Bd(|h.ring|).(len := 0));
  }

  lemma SlotKeepsRing(r: Rx, h: Held, pos: nat)
    requires h.ring != [] && RingOk(r, h, |h.ring| - 1, pos) && h.k == 0
    ensures var i := At(r.tail, |h.ring| - 1, r.n);
      && i < r.n && RingOk(r.(slots := r.slots[i := Some(h.ring[|h.ring| - 1])]), h, |h.ring|, pos)
  {
    hide BdOk;
    WithRxSlotReads(r, |h.ring| - 1, Some(h.ring[|h.ring| - 1]));
  }
}
