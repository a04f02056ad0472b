/** The records the exchange feed delivers, already decoded from JSON. */
module Messages {

  /** Exchange-assigned order message id (a hex string on the wire). */
  type Mid = string

  type ContractId = int

  /** Status codes of action reports. */
  const StatusInsert: int := 200
  const StatusFill: int := 201
  const StatusMarketNotFilled: int := 202
  const StatusCancel: int := 203
  const StatusCancelReplace: int := 204

  /** One resting order of a book-state snapshot. */
  datatype Entry = Entry(mid: Mid, price: int, size: int, isAsk: bool)

  /** An action report: one order-book-affecting event for one contract,
      tagged with that contract's sequence number `clock`. `price`/`size` are
      the order's own fields, `inserted*` the amounts of an insert or a
      replace, `filled*` those of a fill. */
  datatype ActionReport = ActionReport(
    contractId: ContractId,
    mid: Mid,
    isAsk: bool,
    price: int,
    size: int,
    insertedPrice: int,
    insertedSize: int,
    filledPrice: int,
    filledSize: int,
    clock: int,
    statusType: int)

  /** A decoded websocket message, by its `type` field. */
  datatype Message =
    | ActionReportMsg(report: ActionReport)
    | BookTop
    | HeartbeatMsg(timestamp: int, runId: string)
    | OtherMsg(kind: string)
}
