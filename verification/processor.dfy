/** `process_instruction`: the one-shot initialisation of the ARES token
    account. The account's owner and its rent exemption are decided by the
    host runtime and come in as inputs; the account data is the byte buffer
    the record lives in. */
module Processor {
  import opened LittleEndian
  import opened Runtime
  import opened AresTokenCodec

  /** 40M tokens with 6 decimal places. */
  const INITIAL_SUPPLY: U64 := 40_000_000 * 1_000_000

  /** `*b"ARES"`. */
  const ARES_SYMBOL: Symbol := [0x41, 0x52, 0x45, 0x53]

  /** The 13 bytes of an initialised account, written out by hand:
      flag 1, then 40_000_000_000_000 = 0x2461_39CA_8000 least significant
      byte first, then "ARES". */
  const INITIALIZED_IMAGE: seq<Byte> :=
    [0x01, 0x00, 0x80, 0xCA, 0x39, 0x61, 0x24, 0x00, 0x00, 0x41, 0x52, 0x45, 0x53]

  /** What one call does, byte for byte: the result, and the account data
      afterwards. The checks come in their order and the first failing one
      decides the error. The data is read only once both the owner and the
      rent checks have passed, so only then must it hold a whole record.
      A failure never writes; a success writes the packed image of the
      program's record into the first LEN bytes and nothing else. */
  function Transition(programId: Pubkey, owner: Pubkey, isRentExempt: bool, data: seq<Byte>)
    : (r: (ProgramResult, seq<Byte>))
    requires owner == programId && isRentExempt ==> |data| >= LEN
    ensures |r.1| == |data|
    ensures r.0.Err? ==> r.1 == data
    ensures r.0.Ok? ==>
      && |data| >= LEN
      && r.1[LEN..] == data[LEN..]
      && r.1[..LEN] == Pack(AresToken(true, INITIAL_SUPPLY, ARES_SYMBOL))
  {
    InitializedImageIsPacked();
    if owner != programId then (Err(IncorrectProgramId), data)
    else if !isRentExempt then (Err(AccountNotRentExempt), data)
    else if data[0] != 0 then (Err(AccountAlreadyInitialized), data)
    else (Ok(()), INITIALIZED_IMAGE + data[LEN..])
  }

  /** The record the program writes packs to INITIALIZED_IMAGE. */
  lemma InitializedImageIsPacked()
    ensures Pack(AresToken(true, INITIAL_SUPPLY, ARES_SYMBOL)) == INITIALIZED_IMAGE
  {
    assert ToLeBytes(INITIAL_SUPPLY, 8) == [0x00, 0x80, 0xCA, 0x39, 0x61, 0x24, 0x00, 0x00];
  }

  /** `process_instruction` on the account data buffer. */
  method ProcessInstruction(programId: Pubkey, owner: Pubkey, isRentExempt: bool, data: array<Byte>)
    returns (r: ProgramResult)
    requires owner == programId && isRentExempt ==> data.Length >= LEN
    modifies data
    ensures (r, data[..]) == Transition(programId, owner, isRentExempt, old(data[..]))
    ensures r.Err? ==> unchanged(data)
  {
    if owner != programId {
      return Err(IncorrectProgramId);
    }
    if !isRentExempt {
      return Err(AccountNotRentExempt);
    }
    // unpack_from_slice never fails, so its `?` never returns early.
    var token := UnpackFromSlice(data[..]).value;
    if token.isInitialized {
      return Err(AccountAlreadyInitialized);
    }
    token := token.(isInitialized := true);
    token := token.(supply := INITIAL_SUPPLY);
    token := token.(aresSymbol := ARES_SYMBOL);
    PackIntoSlice(token, data);
    InitializedImageIsPacked();
    assert data[..] == data[..LEN] + data[LEN..];
    return Ok(());
  }

  /** The owner check comes first: a foreign account is refused whatever
      its rent status, contents and length, and is not written. */
  lemma OwnerCheckedFirst(programId: Pubkey, owner: Pubkey, isRentExempt: bool, data: seq<Byte>)
    requires owner != programId
    ensures Transition(programId, owner, isRentExempt, data) == (Err(IncorrectProgramId), data)
  {
  }

  /** An owned account that is not rent exempt is refused and not written,
      whatever its length. */
  lemma RentCheckedSecond(programId: Pubkey, isRentExempt: bool, data: seq<Byte>)
    requires !isRentExempt
    ensures Transition(programId, programId, isRentExempt, data) == (Err(AccountNotRentExempt), data)
  {
  }

  /** Once both checks pass, an account whose decoded record is already
      initialised is refused and not written. */
  lemma AlreadyInitializedRejected(programId: Pubkey, data: seq<Byte>)
    requires |data| >= LEN
    requires IsInitialized(UnpackFromSlice(data).value)
    ensures Transition(programId, programId, true, data) == (Err(AccountAlreadyInitialized), data)
  {
  }

  /** A call succeeds exactly when the owner matches, the account is rent
      exempt and its decoded record is not yet initialised; every failure
      leaves the data as it was. */
  lemma SuccessIff(programId: Pubkey, owner: Pubkey, isRentExempt: bool, data: seq<Byte>)
    requires owner == programId && isRentExempt ==> |data| >= LEN
    ensures Transition(programId, owner, isRentExempt, data).0.Ok?
        <==> owner == programId && isRentExempt && !IsInitialized(UnpackFromSlice(data).value)
    ensures Transition(programId, owner, isRentExempt, data).0.Err?
        ==> Transition(programId, owner, isRentExempt, data).1 == data
  {
  }

  /** After a successful call the account decodes to the initialised record
      (flag set, 40M tokens with 6 decimals, "ARES"), only the first LEN
      bytes changed, and the length is the same. */
  lemma SuccessPostState(programId: Pubkey, data: seq<Byte>)
    requires |data| >= LEN
    requires data[0] == 0
    ensures var (r, post) := Transition(programId, programId, true, data);
      && r == Ok(())
      && |post| == |data|
      && post[LEN..] == data[LEN..]
      && UnpackFromSlice(post) == Ok(AresToken(true, 40_000_000_000_000, [0x41, 0x52, 0x45, 0x53]))
  {
    var post := Transition(programId, programId, true, data).1;
    InitializedImageIsPacked();
    UnpackReadsWindow(post);
    assert post[..LEN] == INITIALIZED_IMAGE;
  }

  /** An initialised account is terminal: every further call, with any
      owner, any program id and any rent status, fails and writes nothing. */
  lemma InitializedIsTerminal(programId: Pubkey, owner: Pubkey, isRentExempt: bool, data: seq<Byte>)
    requires |data| >= LEN
    requires IsInitialized(UnpackFromSlice(data).value)
    ensures Transition(programId, owner, isRentExempt, data).0.Err?
    ensures Transition(programId, owner, isRentExempt, data).1 == data
  {
  }

  /** One-shot: a second call with the same valid credentials after a
      successful one fails with AccountAlreadyInitialized and leaves the
      data exactly as the first call left it. */
  lemma {:induction false} SecondCallRejected(programId: Pubkey, data: seq<Byte>)
    requires |data| >= LEN
    requires Transition(programId, programId, true, data).0.Ok?
    ensures var post := Transition(programId, programId, true, data).1;
      |post| >= LEN && Transition(programId, programId, true, post) == (Err(AccountAlreadyInitialized), post)
  {
  }
}
