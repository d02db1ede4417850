/** ACKs, application data and alerts: one record a call, in the epoch that its kind belongs to. */
module OtherRecords {
  import opened Words
  import opened EpochTable
  import opened RtxQueue
  import opened SenderSpec
  import RetransmissionProofs

  /** Early data has its own epoch, and a server that has not finished the handshake acknowledges in the epoch of the
      handshake even if it sends in a later one; everything else goes out in the send epoch. */
  function EpochFor(s: State, op: Op): word64 {
    if op.SendDataOp? && op.early then 1
    else if op.SendAckOp? && s.server && !s.table.handShakeDone && s.table.sendEpoch >= 3 then 2
    else s.table.sendEpoch
  }

  /** The keys are in use already, where that is looked at, or can be put to use. */
  predicate KeysFor(s: State, op: Op)
    requires s.table.enc < |s.table.slots|
  {
    var n := EpochFor(s, op);
    || (n == s.table.sendEpoch == SendingEpoch(s.table) && !(op.SendDataOp? && op.early))
    || (Find(s.table.slots, n) >= 0 && Serves(s.table.slots[Find(s.table.slots, n)].side, EncryptOnly))
  }

  /** One record was handed the next number of epoch n, unless it could not be built; nothing else happened. */
  ghost predicate OneRecord(s: State, s1: State, ret: Ret, n: word64, wire: Wire) {
    var log, log1 := s.trace.log, s1.trace.log;
    && s1 == s.(table := s1.table, trace := s1.trace)
    && if wire.FailedEarly? then ret == Failed && log1 == log
       else
         && var q := LiveCounter(s.table.slots, n);
         && log1 == log + [Entry(n, q, -1, ret.Queued(), Other)]
         && ret == (if n == 0 && q == TWO_64 - 1 then BadState
                    else match wire case Sent => Ok case WouldBlock => WantWrite case _ => Failed)
  }

  lemma SwitchedFor(s: State, op: Op)
    requires WellFormed(s) && (op.SendAckOp? || op.SendDataOp?)
    ensures var (ok, t) := if op.SendAckOp? then SwitchForAck(s)
                           else if op.early then UseKeys(s.table, DTLS13_EPOCH_EARLYDATA, EncryptOnly)
                           else SwitchTo(s.table, s.table.sendEpoch);
      && (ok <==> KeysFor(s, op)) && (!ok ==> t == s.table)
      && (ok ==> t.enc < |t.slots| && SendingEpoch(t) == EpochFor(s, op)
                 && NextSeq(t) == LiveCounter(s.table.slots, EpochFor(s, op)))
  {
    if SendingEpoch(s.table) == s.table.sendEpoch {
      FindIs(s.table.slots, s.table.enc);
    }
  }

  /** Without keys nothing happens; without room the keys have changed, and nothing is sent; otherwise the record goes
      out in its epoch. */
  lemma OneRecordInItsEpoch(s: State, op: Op)
    requires WellFormed(s) && (op.SendAckOp? || op.SendDataOp?)
    ensures var (ret, s1) := Step(s, op);
      if !KeysFor(s, op) then ret == BadState && s1 == s
      else match op.attempt
        case NoRoom(wantWrite) =>
          ret == (if wantWrite then WantWrite else Failed) && s1 == s.(table := s1.table)
          && SendingEpoch(s1.table) == EpochFor(s, op)
        case Build(wire) => OneRecord(s, s1, ret, EpochFor(s, op), wire)
  {
    SwitchedFor(s, op);
    hide SwitchForAck, UseKeys, SwitchTo, KeysFor, EpochFor, SendOther, OneRecord, SendingEpoch, NextSeq;
    var t := if op.SendAckOp? then SwitchForAck(s).1
             else if op.early then UseKeys(s.table, DTLS13_EPOCH_EARLYDATA, EncryptOnly).1
             else SwitchTo(s.table, s.table.sendEpoch).1;
    if KeysFor(s, op) {
      OtherTurn(s, t, op.attempt, EpochFor(s, op));
    }
  }

  lemma OtherTurn(s: State, t: Table, attempt: Attempt, n: word64)
    requires t.enc < |t.slots| && SendingEpoch(t) == n && NextSeq(t) == LiveCounter(s.table.slots, n)
    ensures var (ret, s1) := SendOther(s.(table := t), attempt);
      match attempt
      case NoRoom(wantWrite) => ret == (if wantWrite then WantWrite else Failed) && s1 == s.(table := t)
      case Build(wire) => OneRecord(s, s1, ret, n, wire)
  {
    hide Emit, LiveCounter, NextSeq, SendingEpoch;
    if attempt.Build? {
      RetransmissionProofs.EmitTurn(s.(table := t), -1, Other, n == 0, attempt.wire);
    }
  }
}
