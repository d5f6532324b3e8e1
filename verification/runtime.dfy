/** The part of the Solana program interface the token program uses:
    addresses, the error kinds it raises and the result of a call. */
module Runtime {
  import opened LittleEndian

  /** A 32-byte account or program address. */
  type Pubkey = k: seq<Byte> | |k| == 32 witness seq(32, _ => 0)

  /** The `ProgramError` variants the program returns. */
  datatype ProgramError =
    | IncorrectProgramId
    | AccountNotRentExempt
    | AccountAlreadyInitialized

  /** Rust's `Result<T, ProgramError>`. */
  datatype Result<T> = Ok(value: T) | Err(error: ProgramError)

  /** `ProgramResult`: success carries no payload. */
  type ProgramResult = Result<()>
}
