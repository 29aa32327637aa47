/** Two nodes on one bus: the transmit side of one driver and the receive side of another,
    each in any state that its interleaved runs can reach. */
module XcanLink {
  import opened XcanFrame
  import T = XcanTxProtocol
  import opened XcanTxDriver
  import R = XcanRxProtocol
  import opened XcanRxDriver

  /** What the receiver's device has taken in is what the sender's has put on the bus, or a
      first part of it, entry by entry as the bus carries it. */
  ghost predicate OnOneBus(tx: TxDriver, rx: RxDriver)
    reads tx, rx
  {
    && |rx.st.arrived| + tx.inFlight <= |tx.written|
    && forall k :: 0 <= k < |rx.st.arrived| ==> Carried(tx.written[k], rx.st.arrived[k])
  }

  /** End to end, whatever interleaves on either side and whatever the tx_max: the frames
      handed to the receiver's network stack are the first ones that the sender's driver
      accepted, in that order and each once, with identifier, flags, length and data
      intact; those that have arrived and are not among them wait in its FIFO. */
  lemma SequenceRoundTrip(tx: TxDriver, rx: RxDriver)
    requires tx.Valid() && rx.Valid() && OnOneBus(tx, rx)
    ensures |rx.stack| <= |tx.st.accepted|
    ensures forall k :: 0 <= k < |rx.stack| ==> Arrives(tx.st.accepted[k], rx.stack[k])
    ensures |rx.stack| + |rx.fifo| == |rx.st.arrived|
  {
    T.SentInOrder(tx.p, tx.st);
    R.NothingLostOrReordered(rx.st);
    forall k | 0 <= k < |rx.stack|
      ensures Arrives(tx.st.accepted[k], rx.stack[k])
    {
      assert rx.st.delivered[k] == rx.st.arrived[k];
      assert Loaded(tx.st.pushed[k], tx.written[k]);
      EntryRoundTrip(tx.st.pushed[k], tx.written[k], rx.st.arrived[k]);
    }
  }
}
