# ARES token account initialiser — a Dafny model

The program is a single Solana program. It keeps one account record, `AresToken`,
made of an initialisation flag, a `u64` supply and a 4-byte symbol. The record is
stored in a fixed 13-byte layout:

- byte 0 is the flag;
- bytes 1..9 are the supply, little-endian;
- bytes 9..13 are the symbol, copied verbatim.

Its only instruction, `process_instruction`, initialises that record once. It checks
that the account is owned by the program, then that the account is rent exempt, then
that the record is not already initialised. It then writes flag 1, a supply of
40_000_000 × 1_000_000 and the symbol `"ARES"`.

The model has four modules:

- `LittleEndian` (`little_endian.dfy`): bytes and `u64` values, plus the meaning of
  `to_le_bytes` and `from_le_bytes`. Byte i carries digit i of the value in base 256.
  Both round trips are proved.
- `Runtime` (`runtime.dfy`): 32-byte public keys, the three `ProgramError` kinds the
  program raises, and `ProgramResult`.
- `AresTokenCodec` (`ares_token.dfy`):
  - the record as a datatype;
  - `unpack_from_slice` as a function over the byte sequence;
  - `Pack`, the 13-byte image of a record;
  - `pack_into_slice` as a method that overwrites the first 13 bytes of an `array` in place.
- `Processor` (`processor.dfy`):
  - `Transition`, a byte-level specification of one call, with the initialised image
    written out by hand;
  - `ProcessInstruction`, a method that decodes, updates the record's fields one by one
    and packs back into the account data, and is proved equal to `Transition`;
  - lemmas for check order, no write on failure, the success post-state and one-shot
    behaviour.

The account owner and the rent-exemption verdict are inputs. The account data is an
`array` of bytes of any length. It must be at least 13 bytes long only when the owner
and rent checks both pass, because only then is it read.

40_000_000_000_000 is `0x2461_39CA_8000`. Its eight little-endian bytes are
`00 80 CA 39 61 24 00 00`, and that is what the program writes. (The bytes
`00 84 D7 17 00 00 00 00` would be 400_000_000, not the supply.)

## Model

| member | source | states |
|---|---|---|
| `LittleEndian.FromLeBytes` | src/ARESonly.rs:32 | The value that `from_le_bytes` reads from n bytes is below 256^n. |
| `LittleEndian.EightBytesAreU64` | src/ARESonly.rs:15 | Eight bytes hold exactly the `u64` range (256^8 = 2^64). |
| `LittleEndian.ToLeBytes` | src/ARESonly.rs:41 | `to_le_bytes` yields exactly n bytes (8 for a `u64`); what each byte holds is stated by `ToLeBytesDigit`. |
| `LittleEndian.ToLeBytesDigit` | src/ARESonly.rs:41 | Byte i of `to_le_bytes(v)` is digit i of v in base 256: `(v / 256^i) % 256`. |
| `LittleEndian.FromLeBytesDigits` | src/ARESonly.rs:32 | Byte i of the input is digit i of the value `from_le_bytes` returns. |
| `LittleEndian.FromToLeBytes` | src/ARESonly.rs:32-41 | `from_le_bytes(to_le_bytes(v)) == v` for every v that fits. |
| `LittleEndian.ToFromLeBytes` | src/ARESonly.rs:32-41 | `to_le_bytes(from_le_bytes(s)) == s` for every byte string s. |
| `AresTokenCodec.IsInitialized` | src/ARESonly.rs:21-25 | `is_initialized` is true exactly when the flag byte of the record's packed image is nonzero. |
| `AresTokenCodec.UnpackFromSlice` | src/ARESonly.rs:30-37 | Never fails. The flag is true iff byte 0 is nonzero. Bytes 1..9 are the base-256 digits of the supply, least significant first. The symbol is bytes 9..13. |
| `AresTokenCodec.Pack` | src/ARESonly.rs:39-43 | The packed image is 13 bytes long, and unpacking it gives back exactly the record, whatever the symbol bytes are. |
| `AresTokenCodec.UnpackReadsWindow` | src/ARESonly.rs:30-37 | Decoding reads only the first 13 bytes. |
| `AresTokenCodec.PackUnpack` | src/ARESonly.rs:30-43 | Packing a decoded record reproduces bytes 1..13 exactly and normalises byte 0 to 0 or 1. |
| `AresTokenCodec.CopyFromSlice` | src/ARESonly.rs:41-42 | `copy_from_slice` puts the source into the target window and leaves every other byte unchanged. |
| `AresTokenCodec.PackIntoSlice` | src/ARESonly.rs:39-43 | After the call, byte 0 is 1 or 0 as the flag says. Bytes 1..9 are the supply's digits, least significant first. Bytes 9..13 are the symbol. Every byte from 13 on is unchanged, and unpacking the buffer gives back the record. |
| `Processor.InitializedImageIsPacked` | src/ARESonly.rs:76-80 | The record set up by the program (flag true, supply 40_000_000 × 1_000_000, symbol `ARES`) packs to `01 00 80 CA 39 61 24 00 00 41 52 45 53`. |
| `Processor.Transition` | src/ARESonly.rs:59-82 | The byte-level reference for one call, with checks in source order. The data must hold 13 bytes only once the owner and rent checks pass. The data keeps its length, and every failure leaves it as it was. On success, bytes from 13 on are kept and the first 13 are the packed image of (true, 40_000_000 × 1_000_000, `ARES`). |
| `Processor.ProcessInstruction` | src/ARESonly.rs:48-83 | The result and the new account data are those of the ordered-check transition `Transition`. The data may have any length unless both the owner and rent checks pass. On any error, the data is unchanged. |
| `Processor.OwnerCheckedFirst` | src/ARESonly.rs:59-62 | If the owner is not the program, the result is `IncorrectProgramId` whatever the rent flag, contents and length of the data are, and the data is unchanged. |
| `Processor.RentCheckedSecond` | src/ARESonly.rs:64-68 | If the owner matches but the account is not rent exempt, the result is `AccountNotRentExempt` whatever the length of the data, and the data is unchanged. |
| `Processor.AlreadyInitializedRejected` | src/ARESonly.rs:70-74 | If both checks pass but the decoded record is initialised, the result is `AccountAlreadyInitialized` and the data is unchanged. |
| `Processor.SuccessIff` | src/ARESonly.rs:59-82 | A call succeeds if and only if the owner matches, the account is rent exempt and the decoded record is uninitialised. Every failure leaves the data as it was. |
| `Processor.SuccessPostState` | src/ARESonly.rs:76-82 | On success, the data decodes to (true, 40_000_000_000_000, `ARES`). The length is kept, and every byte from 13 on is unchanged. |
| `Processor.InitializedIsTerminal` | src/ARESonly.rs:59-74 | On an initialised account, every call fails and writes nothing, whatever the owner, program id or rent flag. |
| `Processor.SecondCallRejected` | src/ARESonly.rs:70-80 | After a successful call, a second call with the same credentials fails with `AccountAlreadyInitialized` and leaves the data as the first call left it. |

## Left out

- Accounts list: `next_account_info` iteration is not modelled. Neither is its error when fewer than two accounts are supplied (lines 55-57 and 64). The model takes the target account's owner and data directly.
- Rent: `Rent::from_account_info` and `is_rent_exempt` (lines 64-65) are not modelled. They depend on sysvar and lamport state the program does not compute, so the verdict is a `bool` input. The error that `from_account_info` can return is not modelled either.
- Short buffers: once the owner and rent checks pass, the original indexes bytes 0..13 without a length check and panics if the data is shorter. On that path only, the model requires at least 13 bytes. The panic itself is not modelled. An explicit out-of-bounds error would be a hardening that the code does not have.
- Runtime plumbing: the `entrypoint!` macro and the `RefCell` borrows of the account data are not modelled. The data is a plain `array`.
- Aliasing: whether two accounts share a buffer is not modelled.
- Logging: the `msg!` calls are diagnostics only.
- Unused input: `_instruction_data` is never read by the program.
- `Sealed` is a marker trait with no behaviour.
- Derived traits: the derived `Debug` is not modelled. The derived `PartialEq` is Dafny's datatype equality.
- Rollback: transaction rollback by the host runtime is not modelled. Instead, it is proved that every failure path leaves the buffer untouched.
