/** Actions as the pool sees them, and the errors with which it turns them away. */
module Actions {

  datatype Option<+T> = None | Some(value: T)

  datatype Result<+T> = Ok(value: T) | Err(error: Error)

  datatype Error =
    | ErrInvalidAct
    | ErrExistedInPool
    | ErrUnderpriced
    | ErrAddress
    | ErrValidation
    | ErrGasTooHigh
    | ErrNonceTooLow
    | ErrNonceTooHigh
    | ErrInsufficientFunds
    | ErrReplaceUnderpriced
    | ErrTxPoolOverflow
    | ErrCancelled
    | ErrStateRead

  /** A 256-bit hash, read as a number. */
  type Hash = nat

  const TWO_64: nat := 0x1_0000_0000_0000_0000

  type U64 = n: nat | n < TWO_64

  /** The part of a sealed envelope that the pool reads. */
  datatype Action = Action(
    hash: Hash,
    sender: string,
    nonce: nat,
    cost: int,
    gas: U64,
    gasFeeCap: int,
    gasTipCap: int,
    blobGasFeeCap: int,
    isBlob: bool,
    destination: Option<string>)
}
