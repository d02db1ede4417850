/** The table of DTLS 1.3 epochs: slots with per-epoch send counters, the slot
    used for sending, the slot used for receiving, and the numbers of the
    current send epoch and peer epoch. */
module EpochTable {
  import opened Words

  datatype Side = NoSide | EncryptOnly | DecryptOnly | EncryptAndDecrypt

  datatype Slot = Slot(epochNumber: word64, nextSeq: word64, nextPeerSeq: word64, isValid: bool, side: Side)

  /** A slot as XMEMSET leaves it. */
  const ZEROED: Slot := Slot(0, 0, 0, false, NoSide)

  datatype Table = Table(
    slots: seq<Slot>,
    enc: nat,
    dec: nat,
    sendEpoch: word64,
    peerEpoch: word64,
    handShakeDone: bool)

  ghost predicate Distinct(slots: seq<Slot>) {
    forall i, j :: 0 <= i < j < |slots| && slots[i].isValid && slots[j].isValid
      ==> slots[i].epochNumber != slots[j].epochNumber
  }

  /** What every operation keeps: the send and receive slots are live, live slots hold different epoch numbers and
      are kept for some side, and a slot that is not live is all zero. */
  ghost predicate Valid(t: Table) {
    && t.enc < |t.slots| && t.slots[t.enc].isValid
    && t.dec < |t.slots| && t.slots[t.dec].isValid
    && Distinct(t.slots)
    && forall i :: 0 <= i < |t.slots| ==> if t.slots[i].isValid then t.slots[i].side != NoSide else t.slots[i] == ZEROED
  }

  /** Dtls13GetEpoch: the first live slot with the number, -1 for NULL. */
  function Find(slots: seq<Slot>, n: word64): (r: int)
    ensures -1 <= r < |slots|
    ensures r >= 0 ==> slots[r].isValid && slots[r].epochNumber == n
    ensures r < 0 <==> forall i :: 0 <= i < |slots| ==> !(slots[i].isValid && slots[i].epochNumber == n)
  {
    FindFrom(slots, n, 0)
  }

  function FindFrom(slots: seq<Slot>, n: word64, i: nat): (r: int)
    requires i <= |slots|
    ensures r == -1 || i <= r < |slots|
    ensures r >= 0 ==> slots[r].isValid && slots[r].epochNumber == n
    ensures r < 0 <==> forall k :: i <= k < |slots| ==> !(slots[k].isValid && slots[k].epochNumber == n)
    decreases |slots| - i
  {
    if i == |slots| then -1
    else if slots[i].isValid && slots[i].epochNumber == n then i
    else FindFrom(slots, n, i + 1)
  }

  /** May the slot be thrown out to make room?  Neither the current send epoch nor
      the current peer epoch may, nor the largest 64-bit number. */
  predicate Evictable(t: Table, s: Slot) {
    s.epochNumber != t.sendEpoch && s.epochNumber != t.peerEpoch && s.epochNumber < TWO_64 - 1
  }

  /** Dtls13NewEpochSlot: the first free slot, otherwise the last evictable one, -1 for NULL. */
  function RoomFor(t: Table): int { RoomFrom(t, 0, -1) }

  function RoomFrom(t: Table, i: nat, oldest: int): (r: int)
    requires i <= |t.slots|
    requires -1 <= oldest < i
    ensures -1 <= r < |t.slots|
    decreases |t.slots| - i
  {
    if i == |t.slots| then oldest
    else if !t.slots[i].isValid then i
    else RoomFrom(t, i + 1, if Evictable(t, t.slots[i]) then i else oldest)
  }

  /** Dtls13SetOlderEpochSide */
  function SetOlderSide(slots: seq<Slot>, n: word64, side: Side): (r: seq<Slot>)
    ensures |r| == |slots|
    ensures forall i :: 0 <= i < |slots| ==>
      r[i] == if slots[i].isValid && slots[i].epochNumber < n then slots[i].(side := side) else slots[i]
  {
    seq(|slots|, i requires 0 <= i < |slots| =>
      if slots[i].isValid && slots[i].epochNumber < n then slots[i].(side := side) else slots[i])
  }

  /** The slot Dtls13NewEpoch fills, -1 when it returns BAD_STATE_E. */
  function SlotFor(t: Table, n: word64): (r: int)
    ensures -1 <= r < |t.slots|
  {
    if Find(t.slots, n) >= 0 then Find(t.slots, n) else RoomFor(t)
  }

  /** The contents of that slot afterwards, before older epochs are demoted. */
  function Filled(t: Table, n: word64, side: Side): Slot
    requires SlotFor(t, n) >= 0
  {
    if Find(t.slots, n) < 0 then ZEROED.(epochNumber := n, isValid := true, side := side)
    else
      var s := t.slots[Find(t.slots, n)];
      if s.side != side then s.(side := EncryptAndDecrypt) else s
  }

  /** Dtls13NewEpoch */
  function Install(t: Table, n: word64, side: Side): (bool, Table) {
    var i := SlotFor(t, n);
    if i < 0 then (false, t)
    else
      var s := Filled(t, n, side);
      var slots := t.slots[i := s];
      if t.handShakeDone && (s.side == EncryptAndDecrypt || s.side == DecryptOnly) then
        (true, t.(slots := SetOlderSide(slots, Decrement64(n), EncryptOnly)))
      else (true, t.(slots := slots))
  }

  predicate Serves(have: Side, want: Side) { have == EncryptAndDecrypt || have == want }

  /** Dtls13SetEpochKeys: refuses an epoch that is missing or kept for the other side. */
  function UseKeys(t: Table, n: word64, side: Side): (r: (bool, Table))
    ensures t.enc < |t.slots| ==> r.1.enc < |r.1.slots|
    ensures r.1.slots == t.slots && r.1.sendEpoch == t.sendEpoch && r.1.peerEpoch == t.peerEpoch
    ensures !r.0 ==> r.1 == t
    ensures r.0 <==> Find(t.slots, n) >= 0 && Serves(t.slots[Find(t.slots, n)].side, side)
    ensures r.0 && side != DecryptOnly ==> r.1.enc < |r.1.slots| && SendingEpoch(r.1) == n
    ensures r.0 && side != EncryptOnly ==> r.1.dec < |r.1.slots| && r.1.slots[r.1.dec].epochNumber == n
    ensures (side == DecryptOnly ==> r.1.enc == t.enc) && (side == EncryptOnly ==> r.1.dec == t.dec)
  {
    var i := Find(t.slots, n);
    if i < 0 || !Serves(t.slots[i].side, side) then (false, t)
    else (true, t.(enc := if side == DecryptOnly then t.enc else i,
                   dec := if side == EncryptOnly then t.dec else i))
  }

  /** The number of the epoch records are sent in now. */
  function SendingEpoch(t: Table): word64
    requires t.enc < |t.slots|
  {
    t.slots[t.enc].epochNumber
  }

  /** Dtls13GetSeq in CUR_ORDER: the number handed out. */
  function NextSeq(t: Table): word64
    requires t.enc < |t.slots|
  {
    t.slots[t.enc].nextSeq
  }

  function TakeSeq(t: Table): Table
    requires t.enc < |t.slots|
  {
    t.(slots := t.slots[t.enc := t.slots[t.enc].(nextSeq := Increment64(t.slots[t.enc].nextSeq))])
  }

  /** The send counter of an epoch: zero for one that is not live. */
  function LiveCounter(slots: seq<Slot>, n: word64): word64 {
    if Find(slots, n) >= 0 then slots[Find(slots, n)].nextSeq else 0
  }

  // ----- what the operations keep ------------------------------------------------

  lemma FindIs(slots: seq<Slot>, i: nat)
    requires Distinct(slots) && i < |slots| && slots[i].isValid
    ensures Find(slots, slots[i].epochNumber) == i
  {
  }

  lemma {:induction false} RoomFromIs(t: Table, i: nat, oldest: int)
    requires i <= |t.slots| && -1 <= oldest < i
    requires forall k :: 0 <= k < i ==> t.slots[k].isValid
    requires if oldest >= 0 then Evictable(t, t.slots[oldest])
                            else forall k :: 0 <= k < i ==> !Evictable(t, t.slots[k])
    ensures var r := RoomFrom(t, i, oldest);
      if r >= 0 then !t.slots[r].isValid || Evictable(t, t.slots[r])
                else forall k :: 0 <= k < |t.slots| ==> t.slots[k].isValid && !Evictable(t, t.slots[k])
    ensures var r := RoomFrom(t, i, oldest);
      r >= 0 && t.slots[r].isValid ==> forall k :: 0 <= k < |t.slots| ==> t.slots[k].isValid
    decreases |t.slots| - i
  {
    if i < |t.slots| && t.slots[i].isValid {
      RoomFromIs(t, i + 1, if Evictable(t, t.slots[i]) then i else oldest);
    }
  }

  /** Making room takes a free slot when there is one, never the current send or peer
      epoch, and fails only when every slot is live and none may be thrown out. */
  lemma RoomForIs(t: Table)
    ensures var r := RoomFor(t);
      r >= 0 ==> (!t.slots[r].isValid
                  || (Evictable(t, t.slots[r]) && forall k :: 0 <= k < |t.slots| ==> t.slots[k].isValid))
    ensures RoomFor(t) < 0 <==> forall k :: 0 <= k < |t.slots| ==> t.slots[k].isValid && !Evictable(t, t.slots[k])
  {
    RoomFromIs(t, 0, -1);
  }

  /** Is the epoch kept for the wanted side once it is installed for another: for what it was asked for, and for what
      it was kept for before? */
  ghost predicate KeptFor(t: Table, n: word64, side: Side, want: Side) {
    Serves(side, want) || (Find(t.slots, n) >= 0 && Serves(t.slots[Find(t.slots, n)].side, want))
  }

  /** Does the installation take the keys to decrypt from all epochs below the given number?  After the handshake it
      does, if the epoch installed decrypts, up to the second epoch below it; for epoch 0 the number has wrapped. */
  ghost predicate Demotes(t: Table, n: word64, side: Side, m: word64) {
    t.handShakeDone && KeptFor(t, n, side, DecryptOnly) && m < if n == 0 then TWO_64 - 1 else n - 1
  }

  /** Slot by slot: the chosen slot holds the epoch, with its counters if it was live and at zero otherwise, kept for
      both what it was and what it is asked for; the others keep everything but the side of those demoted. */
  lemma InstallSlots(t: Table, n: word64, side: Side)
    requires Valid(t) && side != NoSide && SlotFor(t, n) >= 0
    ensures var (ok, u) := Install(t, n, side); var i := SlotFor(t, n); var live := Find(t.slots, n) >= 0;
      && ok && |u.slots| == |t.slots|
      && u.slots[i] == Slot(n, if live then t.slots[i].nextSeq else 0, if live then t.slots[i].nextPeerSeq else 0, true,
                            u.slots[i].side)
      && (if Demotes(t, n, side, n) then u.slots[i].side == EncryptOnly
          else forall want :: want == EncryptOnly || want == DecryptOnly ==>
                 (Serves(u.slots[i].side, want) <==> KeptFor(t, n, side, want)))
      && forall k :: 0 <= k < |t.slots| && k != i ==>
           u.slots[k] == if t.slots[k].isValid && Demotes(t, n, side, t.slots[k].epochNumber)
                         then t.slots[k].(side := EncryptOnly) else t.slots[k]
    ensures var (ok, u) := Install(t, n, side); var i := SlotFor(t, n);
      && u.slots[i].side != NoSide
      && (Serves(u.slots[i].side, side) <==> !(t.handShakeDone && n == 0 && side != EncryptOnly))
  {
    FilledIs(t, n, side);
    hide Filled, SlotFor, Find, KeptFor, Valid;
  }

  lemma FilledIs(t: Table, n: word64, side: Side)
    requires Valid(t) && side != NoSide && SlotFor(t, n) >= 0
    ensures var s := Filled(t, n, side); var i := SlotFor(t, n); var live := Find(t.slots, n) >= 0;
      && s == Slot(n, if live then t.slots[i].nextSeq else 0, if live then t.slots[i].nextPeerSeq else 0, true, s.side)
      && s.side != NoSide && Serves(s.side, side)
      && (Serves(s.side, EncryptOnly) <==> KeptFor(t, n, side, EncryptOnly))
      && (Serves(s.side, DecryptOnly) <==> KeptFor(t, n, side, DecryptOnly))
  {
  }

  lemma RefillKeepsDistinct(slots: seq<Slot>, us: seq<Slot>, i: nat, n: word64)
    requires Distinct(slots) && |us| == |slots| && i < |us| && us[i].epochNumber == n
    requires Find(slots, n) < 0 || Find(slots, n) == i
    requires forall k :: 0 <= k < |us| && k != i ==>
      us[k].isValid == slots[k].isValid && us[k].epochNumber == slots[k].epochNumber
    ensures Distinct(us)
  {
  }

  /** Installing an epoch keeps the table valid, never touches the counter of a live epoch
      (its own included), and loses at most one epoch: an evictable one. */
  lemma InstallKeeps(t: Table, n: word64, side: Side)
    requires Valid(t) && side != NoSide
    ensures var (ok, u) := Install(t, n, side);
      && Valid(u) && u == t.(slots := u.slots)
      && (ok <==> SlotFor(t, n) >= 0)
      && (!ok ==> u == t)
      && (ok ==> Find(u.slots, n) == SlotFor(t, n))
  {
    var (ok, u) := Install(t, n, side);
    if ok {
      var i := SlotFor(t, n);
      InstallSlots(t, n, side);
      assert u.slots[i].isValid && u.slots[i].epochNumber == n && u == t.(slots := u.slots);
      RefillKeepsDistinct(t.slots, u.slots, i, n);
      hide Install, Filled, SetOlderSide, Distinct;
      FindIs(u.slots, i);
    }
  }

  /** The counter every other live epoch had is the counter it has, except the one evicted. */
  lemma InstallCounters(t: Table, n: word64, side: Side, m: word64)
    requires Valid(t) && side != NoSide && SlotFor(t, n) >= 0
    requires (Find(t.slots, m) >= 0 && Find(t.slots, m) != SlotFor(t, n)) || m == n
    ensures var u := Install(t, n, side).1;
      Find(u.slots, m) >= 0 && LiveCounter(u.slots, m) == LiveCounter(t.slots, m)
  {
    InstallSlots(t, n, side);
    InstallKeeps(t, n, side);
    var u := Install(t, n, side).1;
    if m != n {
      FindIs(u.slots, Find(t.slots, m));
    }
  }

  /** Section 4.2.1 of RFC 9147: the epochs in use for sending and expected from the peer
      survive every installation, with their counters. */
  lemma CurrentEpochsSurvive(t: Table, n: word64, side: Side, m: word64)
    requires Valid(t) && side != NoSide
    requires m == t.sendEpoch || m == t.peerEpoch
    requires Find(t.slots, m) >= 0
    ensures var u := Install(t, n, side).1;
      Find(u.slots, m) >= 0 && LiveCounter(u.slots, m) == LiveCounter(t.slots, m)
  {
    if SlotFor(t, n) >= 0 {
      RoomForIs(t);
      InstallCounters(t, n, side, m);
    }
  }

  // ----- keys of older epochs ------------------------------------------------------

  /** No live epoch below n may be used for decryption. */
  ghost predicate DecryptsOnlyFrom(t: Table, n: int) {
    forall i :: 0 <= i < |t.slots| && t.slots[i].isValid && t.slots[i].epochNumber < n ==>
      t.slots[i].side == EncryptOnly
  }

  /** After the handshake, installing epoch n >= 1 for decryption leaves every epoch below n - 1 for
      encryption only, so that keys to decrypt it are refused. */
  lemma OlderEpochsStopDecrypting(t: Table, n: word64, side: Side, m: word64, want: Side)
    requires Valid(t) && t.handShakeDone && n >= 1 && SlotFor(t, n) >= 0
    requires side == DecryptOnly || side == EncryptAndDecrypt
    ensures DecryptsOnlyFrom(Install(t, n, side).1, n - 1)
    ensures m < n - 1 && (want == DecryptOnly || want == EncryptAndDecrypt)
      ==> !UseKeys(Install(t, n, side).1, m, want).0
  {
    InstallSlots(t, n, side);
  }

  /** ... and it stays so until an older epoch is itself installed again for decryption. */
  lemma OlderEpochsStayRefused(t: Table, low: int, n: word64, side: Side)
    requires Valid(t) && side != NoSide && DecryptsOnlyFrom(t, low)
    requires n >= low || side == EncryptOnly
    ensures DecryptsOnlyFrom(Install(t, n, side).1, low)
    ensures DecryptsOnlyFrom(UseKeys(t, n, side).1, low)
    ensures DecryptsOnlyFrom(TakeSeq(t), low)
  {
    if SlotFor(t, n) >= 0 {
      InstallSlots(t, n, side);
    }
  }

  // ----- reconstructing an epoch from its two low bits -------------------------------

  /** Dtls13GetEpochBits */
  function EpochBits(n: word64): word16 { n % 4 }

  /** The highest live epoch with the given bits, 0 when no nonzero one has them. */
  function HighestMatching(slots: seq<Slot>, bits: word16): (r: word64)
    ensures r > 0 ==>
      exists i :: 0 <= i < |slots| && slots[i].isValid && slots[i].epochNumber == r && EpochBits(r) == bits
    ensures forall i :: 0 <= i < |slots| && slots[i].isValid && EpochBits(slots[i].epochNumber) == bits
              ==> slots[i].epochNumber <= r
  {
    if slots == [] then 0
    else
      var s, best := slots[|slots| - 1], HighestMatching(slots[..|slots| - 1], bits);
      if s.isValid && EpochBits(s.epochNumber) == bits && s.epochNumber > best then s.epochNumber else best
  }

  /** Dtls13ReconstructEpochNumber: -1 for SEQUENCE_ERROR. */
  function ReconstructedEpoch(t: Table, bits: word16): int {
    if EpochBits(t.peerEpoch) == bits then t.peerEpoch
    else if HighestMatching(t.slots, bits) > 0 then HighestMatching(t.slots, bits) else -1
  }

  /** It has the bits asked for; there is none exactly if neither the peer epoch nor a nonzero live one has them. */
  lemma ReconstructedBits(t: Table, bits: word16)
    ensures ReconstructedEpoch(t, bits) < 0
       <==> (EpochBits(t.peerEpoch) != bits
             && forall i :: 0 <= i < |t.slots| && t.slots[i].isValid && EpochBits(t.slots[i].epochNumber) == bits
                  ==> t.slots[i].epochNumber == 0)
    ensures ReconstructedEpoch(t, bits) >= 0 ==>
      ReconstructedEpoch(t, bits) < TWO_64 && EpochBits(ReconstructedEpoch(t, bits)) == bits
  {
  }

  /** A nonzero live epoch is recovered from its low bits exactly when the peer epoch has other bits or is the
      epoch itself, and, if the peer epoch does not decide, no live epoch with its bits is higher. */
  lemma EpochRecovered(t: Table, n: word64)
    requires n > 0 && Find(t.slots, n) >= 0
    ensures ReconstructedEpoch(t, EpochBits(n)) == n
       <==> (if EpochBits(t.peerEpoch) == EpochBits(n) then t.peerEpoch == n
             else forall i :: 0 <= i < |t.slots| && t.slots[i].isValid
                    && EpochBits(t.slots[i].epochNumber) == EpochBits(n)
                    ==> t.slots[i].epochNumber <= n)
  {
    assert t.slots[Find(t.slots, n)].epochNumber == n;
  }

  /** In particular when the live nonzero epochs differ in their low bits and the peer epoch is one of them. */
  lemma DistinctBitsRecover(t: Table, n: word64)
    requires n > 0 && Find(t.slots, n) >= 0
    requires forall i :: 0 <= i < |t.slots| && t.slots[i].isValid && t.slots[i].epochNumber > 0
               && EpochBits(t.slots[i].epochNumber) == EpochBits(n)
               ==> t.slots[i].epochNumber == n
    requires EpochBits(t.peerEpoch) == EpochBits(n) ==> t.peerEpoch > 0 && Find(t.slots, t.peerEpoch) >= 0
    ensures ReconstructedEpoch(t, EpochBits(n)) == n
  {
    EpochRecovered(t, n);
  }

  // ----- the table updated in place ----------------------------------------------------

  class Epochs {
    var slots: array<Slot>
    var enc: nat
    var dec: nat
    var sendEpoch: word64
    var peerEpoch: word64
    var handShakeDone: bool
    ghost var table: Table

    /** The fields represent the table. */
    ghost predicate Represents()
      reads this, slots
    {
      table == Table(slots[..], enc, dec, sendEpoch, peerEpoch, handShakeDone) && enc < slots.Length
    }

    /** The state InitSSL sets up: epoch 0 live in slot 0 and used both ways. */
    constructor (size: nat)
      requires size > 0
      ensures fresh(slots) && Represents() && Valid(table)
      ensures table == Table(InitialSlots(size), 0, 0, 0, 0, false)
    {
      slots := new Slot[size](i => if i == 0 then ZEROED.(isValid := true, side := EncryptAndDecrypt) else ZEROED);
      enc, dec, sendEpoch, peerEpoch, handShakeDone := 0, 0, 0, 0, false;
      table := Table(InitialSlots(size), 0, 0, 0, 0, false);
      new;
      assert slots[..] == InitialSlots(size);
    }

    /** Dtls13GetEpoch */
    method GetEpoch(n: word64) returns (r: int)
      ensures r == Find(slots[..], n)
    {
      var i := 0;
      while i < slots.Length
        invariant 0 <= i <= slots.Length
        invariant Find(slots[..], n) == FindFrom(slots[..], n, i)
      {
        if slots[i].epochNumber == n && slots[i].isValid {
          return i;
        }
        i := i + 1;
      }
      return -1;
    }

    /** Dtls13SetOlderEpochSide */
    method SetOlderEpochSide(n: word64, side: Side)
      modifies slots
      ensures slots[..] == SetOlderSide(old(slots[..]), n, side)
    {
      var i := 0;
      while i < slots.Length
        invariant 0 <= i <= slots.Length
        invariant forall k :: 0 <= k < i ==> slots[k] == SetOlderSide(old(slots[..]), n, side)[k]
        invariant forall k :: i <= k < slots.Length ==> slots[k] == old(slots[k])
      {
        if slots[i].isValid && slots[i].epochNumber < n {
          slots[i] := slots[i].(side := side);
        }
        i := i + 1;
      }
    }

    /** Dtls13NewEpochSlot: the slot, wiped if it had to be taken from a live epoch; -1 for NULL. */
    method NewEpochSlot() returns (r: int)
      requires Represents()
      modifies slots
      ensures r == RoomFor(table)
      ensures r < 0 ==> slots[..] == old(slots[..])
      ensures r >= 0 ==> slots[..] == old(slots[..])[r := if old(slots[r].isValid) then ZEROED else old(slots[r])]
    {
      var oldest := -1;
      var i := 0;
      while i < slots.Length
        invariant 0 <= i <= slots.Length && -1 <= oldest < i
        invariant forall k :: 0 <= k < i ==> slots[k].isValid
        invariant RoomFor(table) == RoomFrom(table, i, oldest)
      {
        if !slots[i].isValid {
          return i;
        }
        if slots[i].epochNumber != sendEpoch && slots[i].epochNumber != peerEpoch && slots[i].epochNumber < TWO_64 - 1 {
          oldest := i;
        }
        i := i + 1;
      }
      if oldest < 0 {
        return -1;
      }
      slots[oldest] := ZEROED;
      return oldest;
    }

    /** The slot of the epoch, or one made free for it; -1 if there is none. */
    method FindOrMakeSlot(n: word64) returns (e: int)
      requires Represents() && Valid(table)
      modifies slots
      ensures e == SlotFor(table, n)
      ensures e < 0 ==> slots[..] == old(slots[..])
      ensures e >= 0 && Find(table.slots, n) >= 0 ==> slots[..] == old(slots[..])
      ensures e >= 0 && Find(table.slots, n) < 0 ==> slots[..] == old(slots[..])[e := ZEROED]
    {
      e := GetEpoch(n);
      if e < 0 {
        e := NewEpochSlot();
      }
    }

    /** The part of Dtls13NewEpoch that finds and fills the slot. */
    method FillSlot(n: word64, side: Side) returns (e: int)
      requires Represents() && Valid(table)
      modifies slots
      ensures e == SlotFor(table, n)
      ensures slots[..] == if e < 0 then table.slots else table.slots[e := Filled(table, n, side)]
    {
      e := FindOrMakeSlot(n);
      if e >= 0 {
        if !slots[e].isValid {
          slots[e] := slots[e].(epochNumber := n, isValid := true, side := side);
        } else if slots[e].side != side {
          slots[e] := slots[e].(side := EncryptAndDecrypt);
        }
      }
    }

    /** Dtls13NewEpoch */
    method NewEpoch(n: word64, side: Side) returns (ok: bool)
      requires Represents() && Valid(table) && side != NoSide
      modifies this`table, slots
      ensures Represents() && (ok, table) == Install(old(table), n, side)
    {
      InstallKeeps(table, n, side);
      hide Filled, SlotFor, SetOlderSide, Valid;
      var e := FillSlot(n, side);
      if e < 0 {
        return false;
      }
      if handShakeDone && (slots[e].side == EncryptAndDecrypt || slots[e].side == DecryptOnly) {
        SetOlderEpochSide(Decrement64(n), EncryptOnly);
      }
      table := Install(table, n, side).1;
      return true;
    }

    method SetEpochKeys(n: word64, side: Side) returns (ok: bool)
      requires Represents() && side != NoSide
      modifies this`table, this`enc, this`dec
      ensures Represents() && (ok, table) == UseKeys(old(table), n, side)
    {
      var e := GetEpoch(n);
      if e < 0 {
        return false;
      }
      if slots[e].side != EncryptAndDecrypt && slots[e].side != side {
        return false;
      }
      if side == EncryptOnly || side == EncryptAndDecrypt {
        enc := e;
      }
      if side == DecryptOnly || side == EncryptAndDecrypt {
        dec := e;
      }
      table := UseKeys(table, n, side).1;
      return true;
    }

    /** Dtls13GetSeq in CUR_ORDER: hands out the next number of the sending epoch; not ok when
        the counter has just wrapped to zero. */
    method GetSeq() returns (seqNumber: word64, ok: bool)
      requires Represents()
      modifies this`table, slots
      ensures Represents() && seqNumber == NextSeq(old(table)) && table == TakeSeq(old(table))
      ensures ok <==> seqNumber < TWO_64 - 1
    {
      seqNumber := slots[enc].nextSeq;
      slots[enc] := slots[enc].(nextSeq := Increment64(seqNumber));
      ok := slots[enc].nextSeq != 0;
      table := TakeSeq(table);
    }

    /** Dtls13ReconstructEpochNumber */
    method ReconstructEpochNumber(bits: word16) returns (r: int)
      requires Represents()
      ensures r == ReconstructedEpoch(table, bits)
    {
      if EpochBits(peerEpoch) == bits {
        return peerEpoch;
      }
      var n: word64, found := 0, false;
      var i := 0;
      while i < slots.Length
        invariant 0 <= i <= slots.Length
        invariant n == HighestMatching(slots[..i], bits) && (found <==> n > 0)
      {
        assert slots[..i + 1][..i] == slots[..i];
        if slots[i].isValid && EpochBits(slots[i].epochNumber) == bits && slots[i].epochNumber > n {
          found, n := true, slots[i].epochNumber;
        }
        i := i + 1;
      }
      assert slots[..i] == slots[..];
      r := if found then n else -1;
    }
  }

  function InitialSlots(size: nat): seq<Slot>
    requires size > 0
  {
    seq(size, i => if i == 0 then ZEROED.(isValid := true, side := EncryptAndDecrypt) else ZEROED)
  }
}
