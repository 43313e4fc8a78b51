/** How one call of a store can go wrong. */
module StoreFaults {

  /** NoEffect: nothing reached the database, or the transaction was rolled back.
      LostReply: the transaction committed, and its caller is told it failed. */
  datatype Fault = NoFault | NoEffect | LostReply
}
